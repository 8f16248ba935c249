/**
 * Address text and numbers (packages/shared-core/src/outbound-url.ts, packages/config/src/outbound-allowlist.ts):
 * dotted quads, the text forms of section 2.2 of RFC 4291, and canonical printing (section 4 of RFC 5952).
 */
module IpAddress {
  import opened Options
  import opened Text
  import opened Ipv6Prefix

  const IPV4_LIMIT: nat := 0x100000000

  // ---------- IPv4 ----------

  /** One octet as parseIPv4 reads it: one to three decimal digits, at most 255 (leading zeros pass). */
  predicate IsOctet(part: string) {
    1 <= |part| <= 3 && Numeral(part, 10) && FromBase(part, 10) <= 255
  }

  function Triple(a: nat, b: nat, c: nat): nat { (a * 256 + b) * 256 + c }

  function Quad(a: nat, b: nat, c: nat, d: nat): nat { Triple(a, b, c) * 256 + d }

  function ParseIPv4(address: string): (r: Option<nat>)
    ensures r.Some? ==> r.value < IPV4_LIMIT
  {
    var parts := Split(address, ".");
    if |parts| == 4 && forall i :: 0 <= i < 4 ==> IsOctet(parts[i]) then
      Some(Quad(FromBase(parts[0], 10), FromBase(parts[1], 10), FromBase(parts[2], 10), FromBase(parts[3], 10)))
    else None
  }

  /** The loop of parseIPv4: four octets, most significant first. */
  method ParseIPv4Loop(address: string) returns (r: Option<nat>)
    ensures r == ParseIPv4(address)
  {
    var parts := Split(address, ".");
    if |parts| != 4 {
      return None;
    }
    var value := 0;
    for i := 0 to 4
      invariant forall j :: 0 <= j < i ==> IsOctet(parts[j])
      invariant i > 0 ==> IsOctet(parts[0])
      invariant i == 1 ==> value == FromBase(parts[0], 10)
      invariant i == 2 ==> value == FromBase(parts[0], 10) * 256 + FromBase(parts[1], 10)
      invariant i == 3 ==> value == Triple(FromBase(parts[0], 10), FromBase(parts[1], 10), FromBase(parts[2], 10))
      invariant i == 0 ==> value == 0
      invariant i == 4 ==>
        value == Quad(FromBase(parts[0], 10), FromBase(parts[1], 10), FromBase(parts[2], 10), FromBase(parts[3], 10))
    {
      var part := parts[i];
      if !(1 <= |part| <= 3 && Numeral(part, 10)) {
        return None;
      }
      var octet := FromBase(part, 10);
      if octet > 255 {
        return None;
      }
      value := value * 256 + octet;
    }
    return Some(value);
  }

  /** The octets of an IPv4 number, most significant first. */
  function Octets(value: nat): (o: seq<nat>)
    requires value < IPV4_LIMIT
    ensures |o| == 4 && forall i :: 0 <= i < 4 ==> o[i] < 256
  {
    [value / 0x1000000, value / 0x10000 % 0x100, value / 0x100 % 0x100, value % 0x100]
  }

  /** bigIntToAddress for IPv4: each octet in decimal, joined by dots. */
  function PrintIPv4(value: nat): string
    requires value < IPV4_LIMIT
  {
    var o := Octets(value);
    Join([ToBase(o[0], 10), ToBase(o[1], 10), ToBase(o[2], 10), ToBase(o[3], 10)], ".")
  }

  /** net.isIP(text) === 4: four octets, none with a leading zero. */
  predicate IsDottedQuad(text: string) {
    var parts := Split(text, ".");
    |parts| == 4 && forall i :: 0 <= i < 4 ==> IsOctet(parts[i]) && (|parts[i]| > 1 ==> parts[i][0] != '0')
  }

  lemma OctetPrint(n: nat)
    requires n <= 255
    ensures IsOctet(ToBase(n, 10)) && FromBase(ToBase(n, 10), 10) == n
    ensures |ToBase(n, 10)| > 1 ==> ToBase(n, 10)[0] != '0'
    ensures '.' !in ToBase(n, 10)
  {
    ToBaseSpec(n, 10);
    NumeralLengths(n);
    assert DigitValue('.') == -1;
  }

  lemma Bytes(value: nat)
    ensures value / 0x10000 == value / 0x100 / 0x100 && value / 0x1000000 == value / 0x100 / 0x100 / 0x100
  {
  }

  lemma QuadOctets(value: nat)
    requires value < IPV4_LIMIT
    ensures var o := Octets(value); Quad(o[0], o[1], o[2], o[3]) == value
  {
    Bytes(value);
  }

  lemma OctetsQuad(a: nat, b: nat, c: nat, d: nat)
    requires a < 256 && b < 256 && c < 256 && d < 256
    ensures Quad(a, b, c, d) < IPV4_LIMIT && Octets(Quad(a, b, c, d)) == [a, b, c, d]
  {
    Bytes(Quad(a, b, c, d));
    LastByte(Triple(a, b, c), d);
    LastByte(a * 256 + b, c);
    LastByte(a, b);
  }

  lemma LastByte(x: nat, d: nat)
    requires d < 256
    ensures (x * 256 + d) / 0x100 == x && (x * 256 + d) % 0x100 == d
  {
  }

  /** Printing an IPv4 number gives a well-formed dotted quad that reads back as that number. */
  lemma PrintParseIPv4(value: nat)
    requires value < IPV4_LIMIT
    ensures IsDottedQuad(PrintIPv4(value)) && ParseIPv4(PrintIPv4(value)) == Some(value)
  {
    var o := Octets(value);
    var parts := [ToBase(o[0], 10), ToBase(o[1], 10), ToBase(o[2], 10), ToBase(o[3], 10)];
    OctetPrint(o[0]); OctetPrint(o[1]); OctetPrint(o[2]); OctetPrint(o[3]);
    SplitJoin(parts, '.');
    QuadOctets(value);
  }

  /** Every well-formed dotted quad is the print of the number it reads as. */
  lemma ParsePrintIPv4(text: string)
    requires IsDottedQuad(text)
    ensures ParseIPv4(text).Some? && PrintIPv4(ParseIPv4(text).value) == text
  {
    var parts := Split(text, ".");
    JoinSplitAny(text, ".");
    forall i | 0 <= i < 4 ensures ToBase(FromBase(parts[i], 10), 10) == parts[i] { FromBaseCanonical(parts[i], 10); }
    var a, b, c, d :=
      FromBase(parts[0], 10), FromBase(parts[1], 10), FromBase(parts[2], 10), FromBase(parts[3], 10);
    OctetsQuad(a, b, c, d);
    assert parts == [ToBase(a, 10), ToBase(b, 10), ToBase(c, 10), ToBase(d, 10)];
  }

  // ---------- IPv6 ----------

  predicate IsHexGroup(group: string) { 1 <= |group| <= 4 && Numeral(group, 16) }

  lemma HexGroupBound(group: string)
    requires IsHexGroup(group)
    ensures FromBase(group, 16) < 0x10000
  {
    var s := group;
    if |s| > 1 {
      var t := s[..|s| - 1];
      if |t| > 1 {
        var u := t[..|t| - 1];
        if |u| > 1 {
          assert FromBase(u[..|u| - 1], 16) < 16 by { assert u[..|u| - 1][..0] == []; }
        } else {
          assert u[..0] == [];
        }
        assert FromBase(u, 16) < 0x100;
      } else {
        assert t[..0] == [];
      }
      assert FromBase(t, 16) < 0x1000;
    } else {
      assert s[..0] == [];
    }
  }

  /** The groups written between colons; nothing for the empty side of a "::". */
  function ParseGroups(part: string): (r: Option<seq<nat>>)
    ensures r.Some? ==> GroupSeq(r.value)
  {
    if part == [] then Some([])
    else
      var groups := Split(part, ":");
      if forall i :: 0 <= i < |groups| ==> IsHexGroup(groups[i]) then
        assert forall i :: 0 <= i < |groups| ==> FromBase(groups[i], 16) < 0x10000 by {
          forall i | 0 <= i < |groups| ensures FromBase(groups[i], 16) < 0x10000 { HexGroupBound(groups[i]); }
        }
        Some(seq(|groups|, i requires 0 <= i < |groups| => FromBase(groups[i], 16)))
      else None
  }

  method ParseGroupsLoop(part: string) returns (r: Option<seq<nat>>)
    ensures r == ParseGroups(part)
  {
    if part == [] {
      return Some([]);
    }
    var texts := Split(part, ":");
    var groups: seq<nat> := [];
    for i := 0 to |texts|
      invariant |groups| == i
      invariant forall j :: 0 <= j < i ==> IsHexGroup(texts[j]) && groups[j] == FromBase(texts[j], 16)
    {
      if !IsHexGroup(texts[i]) {
        return None;
      }
      groups := groups + [FromBase(texts[i], 16)];
    }
    assert groups == seq(|texts|, i requires 0 <= i < |texts| => FromBase(texts[i], 16));
    return Some(groups);
  }

  /** Where the text after the last colon starts: lastIndexOf(":") + 1. */
  function AfterLastColon(s: string): (i: nat)
    ensures i <= |s|
    ensures ':' !in s[i..]
    ensures i > 0 ==> s[i - 1] == ':'
  {
    if s == [] then 0
    else if s[|s| - 1] == ':' then |s|
    else
      var i := AfterLastColon(s[..|s| - 1]);
      assert s[i..] == s[..|s| - 1][i..] + [s[|s| - 1]];
      i
  }

  /** A trailing dotted quad rewritten as two hexadecimal groups; None when it is not an IPv4 address. */
  function ExpandQuad(text: string): Option<string> {
    var i := AfterLastColon(text);
    var trailer := text[i..];
    if '.' !in trailer then Some(text)
    else
      match ParseIPv4(trailer)
      case None => None
      case Some(v4) => Some(text[..i] + ToBase(v4 / 65536, 16) + ":" + ToBase(v4 % 65536, 16))
  }

  function Zeros(n: nat): (z: seq<nat>)
    ensures |z| == n && forall i :: 0 <= i < n ==> z[i] == 0
  {
    seq(n, _ => 0)
  }

  /** Both sides of at most one "::", filled up with zero groups to eight. */
  function Expand(halves: seq<string>): (r: Option<Groups>)
    requires |halves| > 0
  {
    if |halves| > 2 then None
    else
      var head := ParseGroups(halves[0]);
      var tail := ParseGroups(if |halves| == 2 then halves[1] else []);
      if head.None? || tail.None? then None
      else if |halves| == 1 then if |head.value| == 8 then Some(head.value) else None
      else
        var missing := 8 - |head.value| - |tail.value|;
        if missing < 1 then None else Some(head.value + Zeros(missing) + tail.value)
  }

  function ParseIPv6(address: string): Option<Groups> {
    match ExpandQuad(Lower(address))
    case None => None
    case Some(text) => Expand(Split(text, "::"))
  }

  /** net.isIP without a zone: 4, 6 or 0. Unlike parseIPv6 it takes no leading zero in a trailing dotted quad. */
  function IsIP(text: string): (v: nat)
    ensures v in {0, 4, 6}
  {
    if IsDottedQuad(text) then 4
    else
      var trailer := text[AfterLastColon(text)..];
      if ParseIPv6(text).Some? && ('.' in trailer ==> IsDottedQuad(trailer)) then 6 else 0
  }

  // ---------- canonical IPv6 text ----------

  function HexTexts(g: seq<nat>): (t: seq<string>)
    ensures |t| == |g|
  {
    seq(|g|, i requires 0 <= i < |g| => ToBase(g[i], 16))
  }

  /** Hexadecimal groups joined by colons. */
  function PrintGroups(g: seq<nat>): string { Join(HexTexts(g), ":") }

  /** Groups start..end are all zero. */
  predicate ZeroRun(g: seq<nat>, start: nat, end: nat) {
    start <= end <= |g| && forall i :: start <= i < end ==> g[i] == 0
  }

  function PrintCompressed(g: Groups, start: nat, end: nat): string
    requires ZeroRun(g, start, end)
  {
    PrintGroups(g[..start]) + "::" + PrintGroups(g[end..])
  }

  /** The first of the longest runs of zero groups among those starting at `from` or later. */
  function LongestRun(g: seq<nat>, from: nat): (r: (nat, nat))
    requires from <= |g|
    ensures ZeroRun(g, r.0, r.1)
    ensures forall a: nat, b: nat :: from <= a && ZeroRun(g, a, b) ==> b - a <= r.1 - r.0
    ensures forall a: nat, b: nat :: from <= a < r.0 && ZeroRun(g, a, b) ==> b - a < r.1 - r.0
    decreases |g| - from
  {
    if from == |g| then (from, from)
    else
      var here := (from, RunEnd(g, from));
      var later := LongestRun(g, from + 1);
      if later.1 - later.0 > here.1 - here.0 then later else here
  }

  function RunEnd(g: seq<nat>, from: nat): (end: nat)
    requires from <= |g|
    ensures ZeroRun(g, from, end)
    ensures forall b: nat :: ZeroRun(g, from, b) ==> b <= end
    decreases |g| - from
  {
    if from == |g| || g[from] != 0 then from
    else
      assert forall b: nat :: b > from && ZeroRun(g, from, b) ==> ZeroRun(g, from + 1, b);
      RunEnd(g, from + 1)
  }

  /** The URL parser's serialisation: lower case, no leading zeros, the first longest run of two or more zeros as "::". */
  function Canonical(g: Groups): string {
    var run := LongestRun(g, 0);
    if run.1 - run.0 >= 2 then PrintCompressed(g, run.0, run.1) else PrintGroups(g)
  }

  predicate GroupText(t: string) { IsHexGroup(t) && ':' !in t && '.' !in t && IsLower(t) }

  lemma HexText(n: nat)
    requires n < 0x10000
    ensures GroupText(ToBase(n, 16)) && FromBase(ToBase(n, 16), 16) == n
  {
    ToBaseSpec(n, 16);
    NumeralLengths(n);
    assert DigitValue(':') == -1 && DigitValue('.') == -1;
  }

  /** Printed groups read back, and hold only hexadecimal digits and single colons between digits. */
  lemma PrintGroupsSpec(g: seq<nat>)
    requires GroupSeq(g)
    ensures ParseGroups(PrintGroups(g)) == Some(g)
    ensures IsLower(PrintGroups(g)) && '.' !in PrintGroups(g)
    ensures PrintGroups(g) == [] <==> g == []
  {
    var texts := HexTexts(g);
    forall i | 0 <= i < |g| ensures GroupText(texts[i]) && FromBase(texts[i], 16) == g[i] { HexText(g[i]); }
    if g != [] {
      SplitJoin(texts, ':');
      assert Split([], ":") == [[]] && texts[0] != [];
      assert ParseGroups(PrintGroups(g)).value == g;
      forall c | c in PrintGroups(g) ensures LowerChar(c) == c && c != '.' {
        CharInJoin(texts, ":", c);
      }
    }
  }

  /** No "::" starts inside printed groups, whatever follows them. */
  lemma {:induction false} NoDoubleColon(g: seq<nat>, rest: string)
    requires GroupSeq(g)
    ensures NoneBefore(PrintGroups(g) + rest, "::", |PrintGroups(g)|)
  {
    if g != [] {
      HexText(g[0]);
      var texts, s := HexTexts(g), PrintGroups(g) + rest;
      var p := texts[0];
      if |g| == 1 {
        forall i | 0 <= i < |p| ensures !("::" <= s[i..]) { assert s[i..][0] == p[i]; }
      } else {
        var more := PrintGroups(g[1..]);
        assert HexTexts(g[1..]) == texts[1..];
        assert s == p + ":" + (more + rest);
        NoDoubleColon(g[1..], rest);
        FirstOfGroups(g[1..]);
        forall i | 0 <= i < |p| + 1 + |more| ensures !("::" <= s[i..]) {
          if i < |p| {
            assert s[i..][0] == p[i];
          } else if i == |p| {
            assert s[i..][1] == more[0];
          } else {
            assert s[i..] == (more + rest)[i - |p| - 1..];
          }
        }
      }
    }
  }

  lemma FirstOfGroups(g: seq<nat>)
    requires g != [] && GroupSeq(g)
    ensures PrintGroups(g) != [] && PrintGroups(g)[0] != ':'
  {
    HexText(g[0]);
    assert HexTexts(g)[0] == ToBase(g[0], 16);
  }

  /** Text without a dot in it has no dotted quad to expand. */
  lemma ExpandPlain(text: string)
    requires '.' !in text
    ensures ExpandQuad(text) == Some(text)
  {
  }

  lemma SplitCompressed(g: Groups, start: nat, end: nat)
    requires ZeroRun(g, start, end)
    ensures Split(PrintCompressed(g, start, end), "::") == [PrintGroups(g[..start]), PrintGroups(g[end..])]
  {
    var head, tail := PrintGroups(g[..start]), PrintGroups(g[end..]);
    NoDoubleColon(g[..start], "::" + tail);
    assert head + ("::" + tail) == head + "::" + tail;
    SplitFirst(head, "::", tail);
    NoDoubleColon(g[end..], []);
    assert tail + [] == tail;
    SplitNone(tail, "::");
  }

  lemma ParsePlain(text: string)
    requires IsLower(text) && '.' !in text
    ensures ParseIPv6(text) == Expand(Split(text, "::"))
  {
    LowerFixes(text);
    ExpandPlain(text);
  }

  lemma ExpandTwo(g: Groups, start: nat, end: nat, head: string, tail: string)
    requires ZeroRun(g, start, end) && start < end
    requires ParseGroups(head) == Some(g[..start]) && ParseGroups(tail) == Some(g[end..])
    ensures Expand([head, tail]) == Some(g)
  {
    assert g == g[..start] + Zeros(end - start) + g[end..];
  }

  /** Any printed form that writes one run of zero groups as "::" reads back as the groups. */
  lemma ParseCompressed(g: Groups, start: nat, end: nat)
    requires ZeroRun(g, start, end) && start < end
    ensures ParseIPv6(PrintCompressed(g, start, end)) == Some(g) && '.' !in PrintCompressed(g, start, end)
  {
    var head, tail := PrintGroups(g[..start]), PrintGroups(g[end..]);
    assert IsLower(PrintCompressed(g, start, end)) && '.' !in PrintCompressed(g, start, end) by {
      PrintGroupsSpec(g[..start]);
      PrintGroupsSpec(g[end..]);
    }
    ParsePlain(PrintCompressed(g, start, end));
    SplitCompressed(g, start, end);
    assert ParseGroups(head) == Some(g[..start]) by { PrintGroupsSpec(g[..start]); }
    assert ParseGroups(tail) == Some(g[end..]) by { PrintGroupsSpec(g[end..]); }
    ExpandTwo(g, start, end, head, tail);
  }

  /** The full form of eight printed groups reads back as the groups. */
  lemma ParseFull(g: Groups)
    ensures ParseIPv6(PrintGroups(g)) == Some(g) && '.' !in PrintGroups(g)
    ensures Split(PrintGroups(g), "::") == [PrintGroups(g)]
  {
    PrintGroupsSpec(g);
    ParsePlain(PrintGroups(g));
    NoDoubleColon(g, []);
    assert PrintGroups(g) + [] == PrintGroups(g);
    SplitNone(PrintGroups(g), "::");
    PrintGroupsSpec([]);
  }

  /** The canonical text of any eight groups is a well-formed IPv6 address that reads back as them. */
  lemma CanonicalParses(g: Groups)
    ensures ParseIPv6(Canonical(g)) == Some(g) && IsIP(Canonical(g)) == 6
  {
    var run := LongestRun(g, 0);
    if run.1 - run.0 >= 2 { ParseCompressed(g, run.0, run.1); } else { ParseFull(g); }
    NoQuad(Canonical(g));
  }

  lemma NoQuad(text: string)
    requires '.' !in text
    ensures !IsDottedQuad(text) && '.' !in text[AfterLastColon(text)..]
  {
    NoCharNone(text, '.', []);
    assert text + [] == text;
    SplitNone(text, ".");
  }

  // ---------- the characters of an address ----------

  /** A character no address is written with. */
  predicate Foreign(c: char) { c != '.' && c != ':' && DigitValue(c) == -1 && LowerChar(c) == c && !('A' <= c <= 'Z') }

  lemma ForeignToIPv4(text: string, c: char)
    requires Foreign(c) && ParseIPv4(text).Some?
    ensures c !in text
  {
    JoinSplitAny(text, ".");
    if c in text { CharInJoin(Split(text, "."), ".", c); }
  }

  lemma ForeignToGroups(part: string, c: char)
    requires Foreign(c) && ParseGroups(part).Some?
    ensures c !in part
  {
    JoinSplitAny(part, ":");
    if c in part { CharInJoin(Split(part, ":"), ":", c); }
  }

  lemma ForeignToHalves(text: string, c: char)
    requires Foreign(c) && Expand(Split(text, "::")).Some?
    ensures c !in text
  {
    var halves := Split(text, "::");
    JoinSplitAny(text, "::");
    forall i | 0 <= i < |halves| ensures c !in halves[i] { ForeignToGroups(halves[i], c); }
    if c in text { CharInJoin(halves, "::", c); }
  }

  lemma ForeignToIPv6(text: string, c: char)
    requires Foreign(c) && ParseIPv6(text).Some?
    ensures c !in text
  {
    var lower := Lower(text);
    var i := AfterLastColon(lower);
    var expanded := ExpandQuad(lower).value;
    ForeignToHalves(expanded, c);
    if '.' in lower[i..] {
      ForeignToIPv4(lower[i..], c);
      assert lower[..i] <= expanded;
    } else {
      assert expanded == lower;
    }
    forall k | 0 <= k < |text| ensures text[k] != c {
      assert lower[k] == LowerChar(text[k]);
      assert lower[k] == if k < i then lower[..i][k] else lower[i..][k - i];
      assert k < i ==> lower[..i][k] == expanded[k];
    }
  }

  lemma ForeignToAddress(text: string, c: char)
    requires Foreign(c) && IsIP(text) != 0
    ensures c !in text
  {
    if IsIP(text) == 4 { ForeignToIPv4(text, c); } else { ForeignToIPv6(text, c); }
  }
}
