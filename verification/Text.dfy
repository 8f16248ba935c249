/** Strings as the TypeScript code handles them: split, join, trim, lower-casing and numerals in a base. */
module Text {

  // ---------- character classes ----------

  /** The white space and line terminators String.prototype.trim removes. */
  predicate IsSpace(c: char) {
    || c in {' ', '\t', '\n', '\r', '\U{000B}', '\U{000C}', '\U{00A0}', '\U{1680}'}
    || '\U{2000}' <= c <= '\U{200A}'
    || c in {'\U{2028}', '\U{2029}', '\U{202F}', '\U{205F}', '\U{3000}', '\U{FEFF}'}
  }

  predicate IsDecimalDigit(c: char) { '0' <= c <= '9' }

  /** toLowerCase on the ASCII letters; every other character is left alone. */
  function LowerChar(c: char): char {
    if 'A' <= c <= 'Z' then ((c as int) + 32) as char else c
  }

  function Lower(s: string): (r: string)
    ensures |r| == |s| && forall i :: 0 <= i < |s| ==> r[i] == LowerChar(s[i])
  {
    seq(|s|, i requires 0 <= i < |s| => LowerChar(s[i]))
  }

  predicate IsLower(s: string) { forall i :: 0 <= i < |s| ==> LowerChar(s[i]) == s[i] }

  lemma LowerFixes(s: string)
    requires IsLower(s)
    ensures Lower(s) == s
  {
  }

  // ---------- trim ----------

  function TrimStart(s: string): string {
    if s != [] && IsSpace(s[0]) then TrimStart(s[1..]) else s
  }

  function TrimEnd(s: string): string {
    if s != [] && IsSpace(s[|s| - 1]) then TrimEnd(s[..|s| - 1]) else s
  }

  function Trim(s: string): string { TrimEnd(TrimStart(s)) }

  /** Nothing for trim to remove. */
  predicate Trimmed(s: string) {
    s != [] ==> !IsSpace(s[0]) && !IsSpace(s[|s| - 1])
  }

  lemma {:induction false} TrimStartPart(s: string)
    ensures exists i :: 0 <= i <= |s| && TrimStart(s) == s[i..]
    ensures TrimStart(s) != [] ==> !IsSpace(TrimStart(s)[0])
  {
    if s != [] && IsSpace(s[0]) {
      TrimStartPart(s[1..]);
      var i :| 0 <= i <= |s[1..]| && TrimStart(s[1..]) == s[1..][i..];
      assert s[1..][i..] == s[i + 1..];
    } else {
      assert s == s[0..];
    }
  }

  lemma {:induction false} TrimEndPart(s: string)
    ensures exists j :: 0 <= j <= |s| && TrimEnd(s) == s[..j]
    ensures TrimEnd(s) != [] ==> !IsSpace(TrimEnd(s)[|TrimEnd(s)| - 1])
  {
    if s != [] && IsSpace(s[|s| - 1]) {
      TrimEndPart(s[..|s| - 1]);
      var j :| 0 <= j <= |s[..|s| - 1]| && TrimEnd(s[..|s| - 1]) == s[..|s| - 1][..j];
      assert s[..|s| - 1][..j] == s[..j];
    } else {
      assert s == s[..|s|];
    }
  }

  /** trim yields a trimmed stretch of its argument, and changes nothing exactly when there is nothing to remove. */
  lemma TrimSpec(s: string)
    ensures Trimmed(Trim(s))
    ensures forall c :: c in Trim(s) ==> c in s
    ensures Trim(s) == s <==> Trimmed(s)
  {
    TrimStartPart(s);
    TrimEndPart(TrimStart(s));
    var t := TrimStart(s);
    var j :| 0 <= j <= |t| && TrimEnd(t) == t[..j];
    if j > 0 {
      assert t[..j][0] == t[0];
    }
  }

  predicate AllSpace(s: string) { forall i :: 0 <= i < |s| ==> IsSpace(s[i]) }

  lemma {:induction false} TrimStartSpaces(before: string, s: string)
    requires AllSpace(before)
    ensures TrimStart(before + s) == TrimStart(s)
  {
    if before == [] {
      assert before + s == s;
    } else {
      assert (before + s)[1..] == before[1..] + s;
      TrimStartSpaces(before[1..], s);
    }
  }

  lemma {:induction false} TrimEndSpaces(s: string, after: string)
    requires AllSpace(after)
    ensures TrimEnd(s + after) == TrimEnd(s)
  {
    if after == [] {
      assert s + after == s;
    } else {
      var n := |after| - 1;
      assert (s + after)[..|s| + n] == s + after[..n] && (s + after)[|s| + n] == after[n];
      TrimEndSpaces(s, after[..n]);
    }
  }

  /** trim removes the white space on both sides and nothing else. */
  lemma TrimExactly(before: string, s: string, after: string)
    requires AllSpace(before) && AllSpace(after) && Trimmed(s)
    ensures Trim(before + s + after) == s
  {
    TrimStartSpaces(before, s + after);
    assert before + s + after == before + (s + after);
    if s == [] {
      TrimStartSpaces(after, []);
      assert s + after == after && after + [] == after;
    } else {
      assert (s + after)[0] == s[0];
      TrimEndSpaces(s, after);
    }
  }

  /** trim leaves nothing exactly of blank text. */
  lemma BlankExactly(s: string)
    ensures Trim(s) == [] <==> AllSpace(s)
  {
    if AllSpace(s) { TrimExactly(s, [], []); assert s + [] + [] == s; }
    if Trim(s) == [] {
      NothingFromEnd(TrimStart(s));
      TrimStartPart(s);
      NothingFromStart(s);
    }
  }

  lemma {:induction false} NothingFromStart(s: string)
    ensures TrimStart(s) == [] ==> AllSpace(s)
  {
    if s != [] {
      NothingFromStart(s[1..]);
      assert s == [s[0]] + s[1..];
    }
  }

  lemma {:induction false} NothingFromEnd(s: string)
    ensures TrimEnd(s) == [] ==> AllSpace(s)
  {
    if s != [] {
      NothingFromEnd(s[..|s| - 1]);
      assert s == s[..|s| - 1] + [s[|s| - 1]];
    }
  }

  // ---------- split and join ----------

  /** s.split(sep). */
  function Split(s: string, sep: string): (parts: seq<string>)
    requires sep != []
    ensures |parts| > 0
    decreases |s|
  {
    if s == [] then [[]]
    else if sep <= s then [[]] + Split(s[|sep|..], sep)
    else
      var rest := Split(s[1..], sep);
      [[s[0]] + rest[0]] + rest[1..]
  }

  /** parts.join(sep). */
  function Join(parts: seq<string>, sep: string): string {
    if parts == [] then []
    else if |parts| == 1 then parts[0]
    else parts[0] + sep + Join(parts[1..], sep)
  }

  /** The separator starts nowhere in the first n characters. */
  predicate NoneBefore(s: string, sep: string, n: nat)
    requires n <= |s|
  {
    forall i :: 0 <= i < n ==> !(sep <= s[i..])
  }

  lemma {:induction false} SplitNone(s: string, sep: string)
    requires sep != [] && NoneBefore(s, sep, |s|)
    ensures Split(s, sep) == [s]
  {
    if s != [] {
      assert s[0..] == s;
      forall i | 0 <= i < |s[1..]| ensures !(sep <= s[1..][i..]) {
        assert s[1..][i..] == s[i + 1..];
      }
      SplitNone(s[1..], sep);
      assert [s[0]] + s[1..] == s;
    }
  }

  /** A first separator after `head` makes `head` the first part. */
  lemma {:induction false} SplitFirst(head: string, sep: string, rest: string)
    requires sep != [] && NoneBefore(head + sep + rest, sep, |head|)
    ensures Split(head + sep + rest, sep) == [head] + Split(rest, sep)
  {
    var s := head + sep + rest;
    if head == [] {
      assert s == sep + rest && s[|sep|..] == rest;
    } else {
      assert s[0..] == s;
      assert s[1..] == head[1..] + sep + rest;
      forall i | 0 <= i < |head[1..]| ensures !(sep <= (head[1..] + sep + rest)[i..]) {
        assert (head[1..] + sep + rest)[i..] == s[i + 1..];
      }
      SplitFirst(head[1..], sep, rest);
      assert [s[0]] + head[1..] == head;
    }
  }

  /** A character that does not occur cannot separate. */
  lemma NoCharNone(s: string, c: char, rest: string)
    requires c !in s
    ensures NoneBefore(s + rest, [c], |s|)
  {
    forall i | 0 <= i < |s| ensures !([c] <= (s + rest)[i..]) {
      assert (s + rest)[i..][0] == s[i];
    }
  }

  /** split undoes join, for every non-empty list of parts without the separator character. */
  lemma {:induction false} SplitJoin(parts: seq<string>, c: char)
    requires parts != []
    requires forall i :: 0 <= i < |parts| ==> c !in parts[i]
    ensures Split(Join(parts, [c]), [c]) == parts
  {
    if |parts| == 1 {
      NoCharNone(parts[0], c, []);
      assert parts[0] + [] == parts[0];
      SplitNone(parts[0], [c]);
      assert parts == [parts[0]];
    } else {
      var rest := Join(parts[1..], [c]);
      NoCharNone(parts[0], c, [c] + rest);
      assert parts[0] + ([c] + rest) == parts[0] + [c] + rest;
      SplitFirst(parts[0], [c], rest);
      SplitJoin(parts[1..], c);
      assert [parts[0]] + parts[1..] == parts;
    }
  }

  lemma JoinHead(c: string, parts: seq<string>, sep: string)
    requires parts != []
    ensures Join([c + parts[0]] + parts[1..], sep) == c + Join(parts, sep)
  {
    var grown := [c + parts[0]] + parts[1..];
    assert grown[1..] == parts[1..];
  }

  lemma JoinCons(part: string, parts: seq<string>, sep: string)
    requires parts != []
    ensures Join([part] + parts, sep) == part + sep + Join(parts, sep)
  {
    assert ([part] + parts)[1..] == parts;
  }

  lemma {:induction false} JoinAppend(a: seq<string>, b: seq<string>, sep: string)
    requires a != [] && b != []
    ensures Join(a + b, sep) == Join(a, sep) + sep + Join(b, sep)
  {
    if |a| == 1 {
      JoinCons(a[0], b, sep);
      assert a + b == [a[0]] + b && Join(a, sep) == a[0];
    } else {
      JoinAppend(a[1..], b, sep);
      JoinCons(a[0], a[1..] + b, sep);
      JoinCons(a[0], a[1..], sep);
      assert a + b == [a[0]] + (a[1..] + b) && a == [a[0]] + a[1..];
      assert Join(a + b, sep) == a[0] + sep + (Join(a[1..], sep) + sep + Join(b, sep));
    }
  }

  lemma {:induction false} JoinEnd(parts: seq<string>, sep: string)
    requires parts != [] && parts[|parts| - 1] != []
    ensures Join(parts, sep) != []
    ensures var last := parts[|parts| - 1]; Join(parts, sep)[|Join(parts, sep)| - 1] == last[|last| - 1]
  {
    if |parts| > 1 { JoinEnd(parts[1..], sep); }
  }

  /** join undoes split, whatever the separator. */
  lemma {:induction false} JoinSplitAny(s: string, sep: string)
    requires sep != []
    ensures Join(Split(s, sep), sep) == s
    decreases |s|
  {
    if s == [] {
    } else if sep <= s {
      JoinSplitAny(s[|sep|..], sep);
      JoinCons([], Split(s[|sep|..], sep), sep);
    } else {
      JoinSplitAny(s[1..], sep);
      JoinHead([s[0]], Split(s[1..], sep), sep);
    }
  }

  lemma {:induction false} CharInJoin(parts: seq<string>, sep: string, c: char)
    requires c in Join(parts, sep)
    ensures c in sep || exists i :: 0 <= i < |parts| && c in parts[i]
  {
    if |parts| > 1 {
      if c !in parts[0] && c !in sep {
        CharInJoin(parts[1..], sep, c);
        var i :| 0 <= i < |parts[1..]| && c in parts[1..][i];
        assert c in parts[i + 1];
      }
    }
  }

  /** No part of a split on one character holds that character. */
  lemma {:induction false} SplitParts(s: string, c: char, i: nat)
    requires i < |Split(s, [c])|
    ensures c !in Split(s, [c])[i]
    decreases |s|
  {
    if s != [] {
      assert s == [s[0]] + s[1..];
      var rest := Split(s[1..], [c]);
      if [c] <= s {
        if i > 0 { SplitParts(s[1..], c, i - 1); }
      } else {
        SplitParts(s[1..], c, i);
      }
    }
  }

  /** Every character of a part comes from the text. */
  lemma {:induction false} SplitChars(s: string, sep: string, i: nat, d: char)
    requires sep != [] && i < |Split(s, sep)| && d in Split(s, sep)[i]
    ensures d in s
    decreases |s|
  {
    if s != [] {
      if sep <= s {
        if i > 0 { SplitChars(s[|sep|..], sep, i - 1, d); }
      } else if i > 0 || d != s[0] {
        SplitChars(s[1..], sep, i, d);
      }
    }
  }

  // ---------- numerals ----------

  const DIGITS := "0123456789abcdef"

  function DigitChar(d: nat): char
    requires d < 16
  {
    DIGITS[d]
  }

  /** The value of a lower-case hexadecimal digit. */
  function DigitValue(c: char): (d: int)
    ensures -1 <= d < 16
  {
    if '0' <= c <= '9' then c as int - '0' as int
    else if 'a' <= c <= 'f' then c as int - 'a' as int + 10
    else -1
  }

  lemma DigitRoundTrip(d: nat)
    requires d < 16
    ensures DigitValue(DigitChar(d)) == d
  {
  }

  /** Every character is a digit of the base. */
  predicate Numeral(s: string, base: nat) {
    forall i :: 0 <= i < |s| ==> 0 <= DigitValue(s[i]) < base
  }

  /** Number(s) or parseInt(s, base) of a numeral. */
  function FromBase(s: string, base: nat): nat
    requires Numeral(s, base)
  {
    if s == [] then 0 else FromBase(s[..|s| - 1], base) * base + DigitValue(s[|s| - 1])
  }

  /** n.toString(base). */
  function ToBase(n: nat, base: nat): (s: string)
    requires 2 <= base <= 16
    decreases n
  {
    if n < base then [DigitChar(n)] else ToBase(n / base, base) + [DigitChar(n % base)]
  }

  /** Printing and reading a number undo each other, and the print has no leading zero. */
  lemma {:induction false} ToBaseSpec(n: nat, base: nat)
    requires 2 <= base <= 16
    ensures ToBase(n, base) != [] && Numeral(ToBase(n, base), base)
    ensures FromBase(ToBase(n, base), base) == n
    ensures n > 0 ==> ToBase(n, base)[0] != '0'
    decreases n
  {
    var s := ToBase(n, base);
    if n < base {
      DigitRoundTrip(n);
      assert s[..|s| - 1] == [];
    } else {
      DivModParts(n, base);
      var q, r := n / base, n % base;
      ToBaseSpec(q, base);
      DigitRoundTrip(r);
      assert s[..|s| - 1] == ToBase(q, base);
      assert s[|s| - 1] == DigitChar(r);
    }
  }

  /** A 16-bit group prints in at most four hexadecimal digits, and a number below 1000 in at most three decimal ones. */
  lemma NumeralLengths(n: nat)
    ensures n < 0x10000 ==> 1 <= |ToBase(n, 16)| <= 4
    ensures n < 1000 ==> 1 <= |ToBase(n, 10)| <= 3
  {
    if n < 0x10000 {
      assert n / 16 < 0x1000 && n / 16 / 16 < 0x100 && n / 16 / 16 / 16 < 16;
      assert |ToBase(n / 16 / 16, 16)| <= 2;
    }
    if n < 1000 {
      assert n / 10 < 100 && n / 10 / 10 < 10;
      assert |ToBase(n / 10, 10)| <= 2;
    }
  }

  /** A numeral without a leading zero is the print of its value. */
  lemma {:induction false} FromBaseCanonical(s: string, base: nat)
    requires 2 <= base <= 16 && s != [] && Numeral(s, base)
    requires |s| > 1 ==> s[0] != '0'
    ensures ToBase(FromBase(s, base), base) == s
    ensures s[0] != '0' ==> FromBase(s, base) > 0
  {
    hide ToBase;
    var front, last := s[..|s| - 1], DigitValue(s[|s| - 1]);
    assert DigitChar(last) == s[|s| - 1];
    assert s == front + [s[|s| - 1]];
    if |s| == 1 {
      assert FromBase(front, base) == 0;
      ToBaseDigit(last, base);
    } else {
      FromBaseCanonical(front, base);
      ToBaseStep(FromBase(front, base), last, base);
    }
  }

  lemma ToBaseDigit(d: nat, base: nat)
    requires d < base && 2 <= base <= 16
    ensures ToBase(d, base) == [DigitChar(d)]
  {
  }

  lemma ToBaseStep(q: nat, d: nat, base: nat)
    requires q > 0 && d < base && 2 <= base <= 16
    ensures q * base + d > 0 && ToBase(q * base + d, base) == ToBase(q, base) + [DigitChar(d)]
  {
    DivModUnique(q, d, base);
  }

  lemma DivModParts(n: nat, b: nat)
    requires 2 <= b
    ensures n == (n / b) * b + n % b && n % b < b
    ensures n >= b ==> 0 < n / b < n
  {
    var q := n / b;
    assert n == q * b + n % b;
    assert q * b >= q * 2;
  }

  lemma DivModUnique(q: nat, r: nat, b: nat)
    requires r < b
    ensures (q * b + r) / b == q && (q * b + r) % b == r
    ensures q > 0 ==> q * b + r >= b
  {
    var n := q * b + r;
    var d := n / b - q;
    assert n == (n / b) * b + n % b;
    assert (n / b) * b == q * b + d * b;
    assert 0 - b < d * b < b;
    assert d >= 1 ==> d * b >= b;
    assert d <= -1 ==> d * b <= 0 - b;
    if q > 0 { assert q * b >= b; }
  }
}
