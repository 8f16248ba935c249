/**
 * OUTBOUND_WEBHOOK_ALLOWLIST as packages/config/src/outbound-allowlist.ts parses it, on big integers, and its agreement
 * with the compiler of packages/shared-core/src/outbound-url.ts, which works on 16-bit groups.
 */
module AllowlistConfig {
  import opened Options
  import opened Text
  import opened Bits
  import opened Ipv6Prefix
  import opened IpAddress
  import opened OutboundGuard

  datatype Allowlist = Allowlist(hosts: seq<string>, hostSuffixes: seq<string>, cidrs: seq<string>)

  datatype EntryError =
    | Url | Brackets | ZoneId | NotCidr | BadPrefix | HostBits(suggestion: string) | Colon | Wildcard
    | NotAscii | EmptyLabel | BadLabel | LongLabel | LongName | NumericLabel

  datatype Entry = Host(name: string) | Suffix(name: string) | CidrEntry(text: string)

  // ---------- addresses as big integers ----------

  function BitsOf(version: nat): nat { if version == 4 then 32 else 128 }

  /** canonicalAddress: the URL parser's spelling of an IPv6 address; a dotted quad stays as it is. */
  function CanonicalAddress(address: string): string {
    if IsIP(address) == 4 || ParseIPv6(address).None? then address else Canonical(ParseIPv6(address).value)
  }

  /** parseInt(group, 16) of every group between colons. */
  function HexGroups(part: string): seq<nat> {
    if part == [] then []
    else
      var groups := Split(part, ":");
      seq(|groups|, i requires 0 <= i < |groups| => if IsHexGroup(groups[i]) then FromBase(groups[i], 16) else 0)
  }

  /** The groups of a canonical text, its "::" filled up with zeros to eight. */
  function FilledGroups(text: string): seq<nat> {
    var halves := Split(text, "::");
    var head := HexGroups(halves[0]);
    if |halves| == 1 then head
    else
      var tail := HexGroups(halves[1]);
      head + Zeros(Max(0, 8 - |head| - |tail|)) + tail
  }

  /** address.split(".").reduce((value, octet) => (value << 8) + octet). */
  function FoldOctets(octets: seq<string>): nat {
    if octets == [] then 0
    else
      var last := octets[|octets| - 1];
      ShiftLeft(FoldOctets(octets[..|octets| - 1]), 8) + if Numeral(last, 10) then FromBase(last, 10) else 0
  }

  function FoldGroups(groups: seq<nat>): nat {
    if groups == [] then 0 else ShiftLeft(FoldGroups(groups[..|groups| - 1]), 16) + groups[|groups| - 1]
  }

  function AddressToBigInt(address: string, version: nat): nat {
    if version == 4 then FoldOctets(Split(address, ".")) else FoldGroups(FilledGroups(CanonicalAddress(address)))
  }

  /** The eight groups of a 128-bit number, most significant first. */
  function GroupsOf(value: nat): (g: Groups) {
    seq(8, i requires 0 <= i < 8 => GroupAt(value, i))
  }

  /** (value >> shift) & 0xffff, for the i-th shift of 112, 96, ... 0. */
  function GroupAt(value: nat, i: nat): (g: nat)
    requires i < 8
    ensures g < 0x10000 && g == value / Pow2(112 - 16 * i) % 0x10000
  {
    Low16(ShiftRight(value, 112 - 16 * i))
  }

  function Low16(y: nat): (g: nat)
    ensures g < 0x10000 && g == y % 0x10000
  {
    LowMask16(y);
    And(y, 0xffff)
  }

  lemma LowMask16(y: nat)
    ensures And(y, 0xffff) == y % 0x10000
  {
    hide And;
    Pow2Values();
    AndLowMask(y, 16);
  }

  function BigIntToAddress(value: nat, version: nat): string
    requires value < Pow2(BitsOf(version))
  {
    Pow2Values();
    if version == 4 then PrintIPv4(value) else CanonicalAddress(PrintGroups(GroupsOf(value)))
  }

  /** The loop of bigIntToAddress: one group per shift, pushed in order. */
  method PushGroups(value: nat) returns (groups: seq<nat>)
    ensures groups == GroupsOf(value)
  {
    groups := [];
    var shift := 112;
    while shift >= 0
      invariant |groups| <= 8 && shift == 112 - 16 * |groups|
      invariant forall i :: 0 <= i < |groups| ==> groups[i] == GroupAt(value, i)
    {
      groups := groups + [GroupAt(value, |groups|)];
      shift := shift - 16;
    }
    hide GroupAt;
    assert groups == GroupsOf(value);
  }

  /** bigIntToAddress and the number agree group by group. */
  lemma {:induction false} ValueOfGroups(value: nat, n: nat)
    requires n <= 8 && value < Pow2(128)
    ensures Value(GroupsOf(value)[..n]) == value / Pow2(128 - 16 * n)
  {
    hide GroupAt, Pow2;
    var g := GroupsOf(value);
    if n == 0 {
      RemainderUnique(value, Pow2(128), 0, value);
    } else {
      ValueOfGroups(value, n - 1);
      var low := Pow2(128 - 16 * n);
      Pow2Values();
      Pow2Add(128 - 16 * n, 16);
      assert g[..n][..n - 1] == g[..n - 1];
      DivDiv(value, low, 0x10000);
      assert 112 - 16 * (n - 1) == 128 - 16 * n;
      var q, d := QuotientParts(value / low, 0x10000);
      assert g[n - 1] == d;
    }
  }

  lemma DivDiv(v: nat, a: nat, b: nat)
    requires a > 0 && b > 0
    ensures a * b > 0 && v / (a * b) == v / a / b
  {
    var y, r := QuotientParts(v, a);
    var q, d := QuotientParts(y, b);
    Regroup(q, d, r, a, b);
    RemainderUnique(v, a * b, q, d * a + r);
  }

  lemma ValueBound(g: Groups)
    ensures Value(g) < Pow2(128)
  {
    assert g[..8] == g;
    PartBound(g, 8);
  }

  lemma {:induction false} PartBound(g: seq<nat>, n: nat)
    requires n <= |g| && GroupSeq(g)
    ensures Value(g[..n]) < Pow2(16 * n)
  {
    if n > 0 {
      PartBound(g, n - 1);
      assert g[..n][..n - 1] == g[..n - 1];
      Pow2Values();
      Pow2Add(16 * (n - 1), 16);
      assert (Value(g[..n - 1]) + 1) * 0x10000 <= Pow2(16 * (n - 1)) * 0x10000;
    }
  }

  /** Groups and 128-bit numbers undo each other. */
  lemma GroupsValue(g: Groups)
    ensures Value(g) < Pow2(128) && GroupsOf(Value(g)) == g
  {
    ValueBound(g);
    ValueOfGroups(Value(g), 8);
    var h := GroupsOf(Value(g));
    assert h[..8] == h;
    DivByOne(Value(g));
    ValueInjective(h, g);
  }

  lemma ValueGroups(value: nat)
    requires value < Pow2(128)
    ensures Value(GroupsOf(value)) == value
  {
    ValueOfGroups(value, 8);
    assert GroupsOf(value)[..8] == GroupsOf(value);
    DivByOne(value);
  }

  // ---------- text and number undo each other ----------

  lemma HexGroupsRead(part: string)
    requires ParseGroups(part).Some?
    ensures HexGroups(part) == ParseGroups(part).value
  {
  }

  lemma HexGroupsPrinted(g: seq<nat>)
    requires GroupSeq(g)
    ensures HexGroups(PrintGroups(g)) == g
  {
    PrintGroupsSpec(g);
    HexGroupsRead(PrintGroups(g));
  }

  /** The config parser's own reading of canonical text finds the eight groups. */
  lemma FilledCanonical(g: Groups)
    ensures FilledGroups(Canonical(g)) == g
  {
    hide HexGroups, PrintGroups, Split;
    var run := LongestRun(g, 0);
    if run.1 - run.0 >= 2 {
      var head, tail := g[..run.0], g[run.1..];
      SplitCompressed(g, run.0, run.1);
      HexGroupsPrinted(head);
      HexGroupsPrinted(tail);
      assert g == head + Zeros(run.1 - run.0) + tail;
    } else {
      ParseFull(g);
      HexGroupsPrinted(g);
    }
  }

  lemma {:induction false} FoldGroupsValue(groups: seq<nat>)
    ensures FoldGroups(groups) == Value(groups)
  {
    Pow2Values();
    if groups != [] { FoldGroupsValue(groups[..|groups| - 1]); }
  }

  lemma FoldQuad(octets: seq<string>)
    requires |octets| == 4
    requires IsOctet(octets[0]) && IsOctet(octets[1]) && IsOctet(octets[2]) && IsOctet(octets[3])
    ensures FoldOctets(octets)
      == Quad(FromBase(octets[0], 10), FromBase(octets[1], 10), FromBase(octets[2], 10), FromBase(octets[3], 10))
  {
    Pow2Values();
    var three, two, one := octets[..3], octets[..2], octets[..1];
    assert three[..2] == two && two[..1] == one && one[..0] == [];
    assert FoldOctets([]) == 0;
    assert FoldOctets(one) == FromBase(octets[0], 10);
    assert FoldOctets(two) == FoldOctets(one) * 256 + FromBase(octets[1], 10);
    assert FoldOctets(three) == FoldOctets(two) * 256 + FromBase(octets[2], 10);
  }

  /** Both packages read the same number from the same well-formed text. */
  lemma BigIntReads(address: string)
    ensures IsIP(address) == 4 ==> ParseIPv4(address) == Some(AddressToBigInt(address, 4))
    ensures IsIP(address) == 6 ==> ParseIPv6(address).Some?
    ensures IsIP(address) == 6 ==> AddressToBigInt(address, 6) == Value(ParseIPv6(address).value)
  {
    if IsIP(address) == 4 {
      FoldQuad(Split(address, "."));
    } else if IsIP(address) == 6 {
      var g := ParseIPv6(address).value;
      FilledCanonical(g);
      FoldGroupsValue(g);
    }
  }

  /** bigIntToAddress undoes addressToBigInt up to canonical spelling, and is undone by it. */
  lemma AddressBigIntRoundTrip(address: string)
    requires IsIP(address) != 0
    ensures var version := IsIP(address);
      && AddressToBigInt(address, version) < Pow2(BitsOf(version))
      && BigIntToAddress(AddressToBigInt(address, version), version) == CanonicalAddress(address)
  {
    Pow2Values();
    BigIntReads(address);
    if IsIP(address) == 4 {
      ParsePrintIPv4(address);
    } else {
      var g := ParseIPv6(address).value;
      GroupsValue(g);
      FullIsIPv6(g);
    }
  }

  lemma FullIsIPv6(g: Groups)
    ensures ParseIPv6(PrintGroups(g)) == Some(g) && IsIP(PrintGroups(g)) == 6
    ensures CanonicalAddress(PrintGroups(g)) == Canonical(g)
  {
    ParseFull(g);
    NoQuad(PrintGroups(g));
  }

  lemma BigIntAddressRoundTrip(value: nat, version: nat)
    requires version in {4, 6} && value < Pow2(BitsOf(version))
    ensures IsIP(BigIntToAddress(value, version)) == version
    ensures AddressToBigInt(BigIntToAddress(value, version), version) == value
  {
    Pow2Values();
    if version == 4 {
      PrintParseIPv4(value);
      BigIntReads(PrintIPv4(value));
    } else {
      var g := GroupsOf(value);
      FullIsIPv6(g);
      CanonicalParses(g);
      BigIntReads(Canonical(g));
      ValueGroups(value);
    }
  }

  // ---------- CIDR entries ----------

  /** /^(?:0|[1-9]\d{0,2})$/: a whole number without a leading zero. */
  predicate IsPlainPrefix(text: string) { IsPrefixText(text) && (|text| > 1 ==> text[0] != '0') }

  function ParseCidr(entry: string): Result<string, EntryError> {
    var parts := Split(entry, "/");
    var address := parts[0];
    var prefixText := if |parts| > 1 then parts[1] else [];
    var version := IsIP(address);
    if |parts| != 2 || version == 0 then Err(NotCidr)
    else
      var bits := BitsOf(version);
      if !IsPlainPrefix(prefixText) || FromBase(prefixText, 10) > bits then Err(BadPrefix)
      else
        var prefix := FromBase(prefixText, 10);
        var value := AddressToBigInt(address, version);
        var hostMask := HostSize(version, prefix) - 1;
        if And(value, hostMask) != 0 then
          AddressBigIntRoundTrip(address);
          Err(HostBits(BigIntToAddress(AndNot(value, hostMask), version) + "/" + ToBase(prefix, 10)))
        else Ok(CanonicalAddress(address) + "/" + ToBase(prefix, 10))
  }

  /** How many addresses share a prefix. */
  function HostSize(version: nat, prefix: nat): (size: nat)
    requires prefix <= BitsOf(version)
    ensures size > 0
  {
    Pow2(BitsOf(version) - prefix)
  }

  /** The address is well formed, and this is its version and its number. */
  predicate Reads(address: string, version: nat, value: nat) {
    version != 0 && IsIP(address) == version && AddressToBigInt(address, version) == value
  }

  /** The entry's address and prefix, when it has exactly the two. */
  predicate HasParts(entry: string, address: string, prefixText: string) {
    Split(entry, "/") == [address, prefixText]
  }

  lemma SlashParts(address: string, prefixText: string)
    requires '/' !in address && '/' !in prefixText
    ensures HasParts(address + "/" + prefixText, address, prefixText)
  {
    SplitJoin([address, prefixText], '/');
    assert Join([address, prefixText], "/") == address + "/" + prefixText;
  }

  lemma PrefixPrint(prefix: nat)
    requires prefix <= 128
    ensures IsPlainPrefix(ToBase(prefix, 10)) && FromBase(ToBase(prefix, 10), 10) == prefix
    ensures '/' !in ToBase(prefix, 10)
  {
    ToBaseSpec(prefix, 10);
    NumeralLengths(prefix);
    assert DigitValue('/') == -1;
  }

  /** The masked test on the big integer and the tests in shared-core ask the same question. */
  lemma HostMaskAgrees(address: string, version: nat, value: nat, prefix: nat)
    requires Reads(address, version, value) && prefix <= BitsOf(version)
    ensures And(value, HostSize(version, prefix) - 1) == value % HostSize(version, prefix)
    ensures version == 4 ==> ParseIPv4(address) == Some(value)
    ensures version == 6 ==> ParseIPv6(address).Some? && Value(ParseIPv6(address).value) == value
  {
    hide IsIP, AddressToBigInt, ParseIPv4, ParseIPv6, And, Pow2, Value;
    BigIntReads(address);
    AndLowMask(value, BitsOf(version) - prefix);
  }

  /** The network a compiled CIDR stands for: version, base number, prefix. */
  function Meaning(c: Cidr): (nat, nat, nat) {
    match c
    case Cidr4(value, prefix) => (4, value, prefix)
    case Cidr6(groups, prefix) => (6, Value(groups), prefix)
  }

  lemma MeaningInjective(c: Cidr, d: Cidr)
    requires Meaning(c) == Meaning(d)
    ensures c == d
  {
    if c.Cidr6? { ValueInjective(c.groups, d.groups); }
  }

  /** What shared-core makes of a two-part entry with a well-formed address and a prefix in range. */
  lemma SharedCoreReads(entry: string, address: string, prefixText: string, version: nat, value: nat, prefix: nat)
    requires HasParts(entry, address, prefixText) && '%' !in address && Reads(address, version, value)
    requires IsPrefixText(prefixText) && FromBase(prefixText, 10) == prefix <= BitsOf(version)
    ensures ParseAllowlistCidr(entry).Ok? <==> value % HostSize(version, prefix) == 0
    ensures ParseAllowlistCidr(entry).Ok? ==> Meaning(ParseAllowlistCidr(entry).value) == (version, value, prefix)
  {
    hide IsIP, AddressToBigInt, ParseIPv4, ParseIPv6, FromBase, Pow2, And, Value, Numeral, Split, ToBase;
    HostMaskAgrees(address, version, value, prefix);
    assert Split(entry, "/") == [address, prefixText];
    if version == 4 {
    } else {
    }
  }

  /** When the config parser takes a two-part entry. */
  lemma ConfigReads(entry: string, address: string, prefixText: string, version: nat, value: nat, prefix: nat)
    requires HasParts(entry, address, prefixText) && Reads(address, version, value)
    requires IsPrefixText(prefixText) && FromBase(prefixText, 10) == prefix
    ensures ParseCidr(entry).Ok? <==>
      IsPlainPrefix(prefixText) && prefix <= BitsOf(version) && value % HostSize(version, prefix) == 0
    ensures ParseCidr(entry).Ok? ==> ParseCidr(entry).value == CanonicalAddress(address) + "/" + ToBase(prefix, 10)
  {
    hide IsIP, AddressToBigInt, ParseIPv4, ParseIPv6, FromBase, Pow2, And, Value, Numeral, Split, CanonicalAddress;
    hide HostSize, BigIntToAddress, AndNot, ToBase;
    assert Split(entry, "/") == [address, prefixText];
    if prefix <= BitsOf(version) { HostMaskAgrees(address, version, value, prefix); }
  }

  lemma NeedsAddress(entry: string, address: string, prefixText: string)
    requires HasParts(entry, address, prefixText) && (ParseAllowlistCidr(entry).Ok? || ParseCidr(entry).Ok?)
    ensures IsIP(address) != 0 && IsPrefixText(prefixText) && FromBase(prefixText, 10) <= BitsOf(IsIP(address))
  {
    hide IsIP, ParseIPv4, ParseIPv6, Pow2, Value, Split;
  }

  /** The two parsers accept the same CIDR entries, but for a prefix written with a leading zero. */
  lemma ParsersAgree(entry: string)
    requires '%' !in entry && |Split(entry, "/")| == 2
    ensures ParseCidr(entry).Ok? <==> ParseAllowlistCidr(entry).Ok? && IsPlainPrefix(Split(entry, "/")[1])
  {
    var address, prefixText := Split(entry, "/")[0], Split(entry, "/")[1];
    assert HasParts(entry, address, prefixText);
    if '%' in address { SplitChars(entry, "/", 0, '%'); }
    if ParseAllowlistCidr(entry).Ok? || ParseCidr(entry).Ok? {
      NeedsAddress(entry, address, prefixText);
      var version, prefix := IsIP(address), FromBase(prefixText, 10);
      var value := AddressToBigInt(address, version);
      SharedCoreReads(entry, address, prefixText, version, value, prefix);
      ConfigReads(entry, address, prefixText, version, value, prefix);
    }
    hide *;
  }

  /** An accepted entry's stored text reads, in shared-core, as the very CIDR the entry does. */
  lemma StoredCidrReads(entry: string, address: string, prefixText: string)
    requires HasParts(entry, address, prefixText) && ParseCidr(entry).Ok?
    ensures IsIP(address) != 0 && IsPrefixText(prefixText)
    ensures ParseAllowlistCidr(ParseCidr(entry).value).Ok?
    ensures Meaning(ParseAllowlistCidr(ParseCidr(entry).value).value)
      == (IsIP(address), AddressToBigInt(address, IsIP(address)), FromBase(prefixText, 10))
    ensures ParseAllowlistCidr(entry) == ParseAllowlistCidr(ParseCidr(entry).value)
  {
    NeedsAddress(entry, address, prefixText);
    var version, prefix := IsIP(address), FromBase(prefixText, 10);
    var value, canonical := AddressToBigInt(address, version), CanonicalAddress(address);
    ConfigReads(entry, address, prefixText, version, value, prefix);
    CanonicalSame(address);
    ForeignToAddress(canonical, '/');
    ForeignToAddress(canonical, '%');
    ForeignToAddress(address, '%');
    PrefixPrint(prefix);
    SlashParts(canonical, ToBase(prefix, 10));
    SharedCoreReads(entry, address, prefixText, version, value, prefix);
    SharedCoreReads(ParseCidr(entry).value, canonical, ToBase(prefix, 10), version, value, prefix);
    MeaningInjective(ParseAllowlistCidr(entry).value, ParseAllowlistCidr(ParseCidr(entry).value).value);
    hide *;
  }

  /** Canonical spelling keeps the version and the number. */
  lemma CanonicalSame(address: string)
    requires IsIP(address) != 0
    ensures IsIP(CanonicalAddress(address)) == IsIP(address)
    ensures AddressToBigInt(CanonicalAddress(address), IsIP(address)) == AddressToBigInt(address, IsIP(address))
    ensures IsIP(address) == 6 ==> ParseIPv6(CanonicalAddress(address)) == ParseIPv6(address)
  {
    BigIntReads(address);
    if IsIP(address) == 6 {
      CanonicalParses(ParseIPv6(address).value);
      BigIntReads(CanonicalAddress(address));
    }
  }

  /** The network suggested for an entry with host bits is itself an accepted entry: the one that holds the address. */
  lemma SuggestionAccepted(entry: string, address: string, prefixText: string)
    requires HasParts(entry, address, prefixText) && ParseCidr(entry).Err? && ParseCidr(entry).error.HostBits?
    ensures var suggestion := ParseCidr(entry).error.suggestion;
      && ParseCidr(suggestion) == Ok(suggestion)
      && ParseAllowlistCidr(suggestion).Ok?
      && IsIP(address) != 0 && IsPrefixText(prefixText) && FromBase(prefixText, 10) <= BitsOf(IsIP(address))
      && (var size := HostSize(IsIP(address), FromBase(prefixText, 10));
          var (version, base, prefix) := Meaning(ParseAllowlistCidr(suggestion).value);
          version == IsIP(address) && prefix == FromBase(prefixText, 10)
          && base <= AddressToBigInt(address, version) < base + size)
  {
    hide IsIP, AddressToBigInt, FromBase, Pow2, And, Numeral, Split, BigIntToAddress, ToBase, ParseCidr, AndNot;
    hide ParseAllowlistCidr, ParseIPv4, ParseIPv6, CanonicalAddress, HostSize;
    HostBitsNeed(entry, address, prefixText);
    PlainIsPrefix(prefixText);
    var version, prefix := IsIP(address), FromBase(prefixText, 10);
    var value, size := AddressToBigInt(address, version), HostSize(version, prefix);
    AddressBigIntRoundTrip(address);
    HostMaskAgrees(address, version, value, prefix);
    AndNotIs(value, size - 1);
    HostBitsSuggest(entry, address, prefixText, version, prefix);
    NetworkEntry(AndNot(value, size - 1), version, prefix, value);
  }

  lemma PlainIsPrefix(text: string)
    requires IsPlainPrefix(text)
    ensures IsPrefixText(text) && Numeral(text, 10)
  {
  }

  /** When an entry is refused for its host bits. */
  lemma HostBitsNeed(entry: string, address: string, prefixText: string)
    requires HasParts(entry, address, prefixText) && ParseCidr(entry).Err? && ParseCidr(entry).error.HostBits?
    ensures IsIP(address) != 0 && IsPlainPrefix(prefixText) && FromBase(prefixText, 10) <= BitsOf(IsIP(address))
  {
    hide IsIP, AddressToBigInt, FromBase, Pow2, And, Split, BigIntToAddress, ToBase, AndNot, HostSize, CanonicalAddress;
    hide Numeral;
  }

  /** And the network the message then suggests. */
  lemma HostBitsSuggest(entry: string, address: string, prefixText: string, version: nat, prefix: nat)
    requires HasParts(entry, address, prefixText) && ParseCidr(entry).Err? && ParseCidr(entry).error.HostBits?
    requires IsIP(address) == version && Numeral(prefixText, 10) && FromBase(prefixText, 10) == prefix <= BitsOf(version)
    requires AndNot(AddressToBigInt(address, version), HostSize(version, prefix) - 1) < Pow2(BitsOf(version))
    ensures ParseCidr(entry).error.suggestion
      == BigIntToAddress(AndNot(AddressToBigInt(address, version), HostSize(version, prefix) - 1), version)
         + "/" + ToBase(prefix, 10)
  {
    hide IsIP, AddressToBigInt, FromBase, Pow2, And, Split, BigIntToAddress, ToBase, AndNot, HostSize, CanonicalAddress;
    hide Numeral;
  }

  lemma AndNotIs(a: nat, b: nat)
    ensures AndNot(a, b) == a - And(a, b) <= a
  {
  }

  lemma BaseOf(value: nat, size: nat)
    requires size > 0
    ensures (value - value % size) % size == 0 && value - value % size <= value < value - value % size + size
  {
    var q, r := QuotientParts(value, size);
    RemainderUnique(value - r, size, q, 0);
  }

  /** The text of a network is an entry stored as it stands. */
  lemma NetworkEntry(base: nat, version: nat, prefix: nat, value: nat)
    requires version in {4, 6} && prefix <= BitsOf(version)
    requires value < Pow2(BitsOf(version)) && base == value - value % HostSize(version, prefix)
    ensures base <= value < base + HostSize(version, prefix)
    ensures var entry := BigIntToAddress(base, version) + "/" + ToBase(prefix, 10);
      && ParseCidr(entry) == Ok(entry)
      && ParseAllowlistCidr(entry).Ok? && Meaning(ParseAllowlistCidr(entry).value) == (version, base, prefix)
  {
    hide IsIP, AddressToBigInt, ParseIPv4, ParseIPv6, FromBase, Pow2, And, Value, Numeral, Split, ToBase;
    hide BigIntToAddress, CanonicalAddress, ParseCidr, ParseAllowlistCidr, Foreign;
    BaseOf(value, HostSize(version, prefix));
    BigIntAddressRoundTrip(base, version);
    var network := BigIntToAddress(base, version);
    AddressBigIntRoundTrip(network);
    SlashPercentForeign();
    ForeignToAddress(network, '/');
    ForeignToAddress(network, '%');
    PrefixPrint(prefix);
    SlashParts(network, ToBase(prefix, 10));
    var entry := network + "/" + ToBase(prefix, 10);
    ConfigReads(entry, network, ToBase(prefix, 10), version, base, prefix);
    SharedCoreReads(entry, network, ToBase(prefix, 10), version, base, prefix);
  }
  /** Whether the compiled range of a CIDR text covers the address numbered x. */
  predicate CoreCovers(text: string, x: nat) {
    match ParseAllowlistCidr(text)
    case Ok(Cidr4(value, prefix)) =>
      var r := CompileCidr4(value, prefix);
      r.start <= x < r.start + r.size
    case Ok(Cidr6(groups, prefix)) =>
      var r := CompileCidr6(groups, prefix);
      SameNetwork(GroupsOf(x), r.groups, r.prefix)
    case Err(_) => false
  }

  /**
   * Config's stored text covers, in shared-core, exactly the addresses that share the prefix with the number the config
   * parser read: a range of numbers for IPv4, the network test on groups for IPv6.
   */
  lemma StoredCidrDenotes(entry: string, address: string, prefixText: string, x: nat)
    requires HasParts(entry, address, prefixText) && ParseCidr(entry).Ok?
    requires x < Pow2(BitsOf(IsIP(address)))
    ensures IsPrefixText(prefixText) && FromBase(prefixText, 10) <= BitsOf(IsIP(address))
    ensures var size := HostSize(IsIP(address), FromBase(prefixText, 10));
      CoreCovers(ParseCidr(entry).value, x) <==> x / size == AddressToBigInt(address, IsIP(address)) / size
  {
    hide IsIP, AddressToBigInt, ParseCidr, ParseAllowlistCidr, FromBase, Numeral, Value, Split;
    StoredCidrReads(entry, address, prefixText);
    NeedsAddress(entry, address, prefixText);
    var version, prefix := IsIP(address), FromBase(prefixText, 10);
    var value := AddressToBigInt(address, version);
    ConfigReads(entry, address, prefixText, version, value, prefix);
    SameBlock(value, x, HostSize(version, prefix));
    ValueGroups128(x, version);
  }

  lemma ValueGroups128(x: nat, version: nat)
    requires x < Pow2(BitsOf(version))
    ensures Value(GroupsOf(x)) == x
  {
    Pow2Monotone(BitsOf(version), 128);
    ValueGroups(x);
  }

  // ---------- names ----------

  /** /^(?:0x[0-9a-f]*|\d+)$/: a label the URL parser would read as part of an IPv4 address. */
  predicate IsNumericLabel(part: string) {
    || (part != [] && Numeral(part, 10))
    || ("0x" <= part && Numeral(part[2..], 16))
  }

  function ParseHostName(name: string): Result<string, EntryError> {
    if exists i :: 0 <= i < |name| && !('!' <= name[i] <= '~') then Err(NotAscii)
    else
      var host := DropDot(Lower(name));
      var labels := Split(host, ".");
      if [] in labels then Err(EmptyLabel)
      else if exists i :: 0 <= i < |labels| && !IsLabel(labels[i]) then Err(BadLabel)
      else if exists i :: 0 <= i < |labels| && |labels[i]| > MAX_LABEL_LENGTH then Err(LongLabel)
      else if |host| > MAX_HOST_NAME_LENGTH then Err(LongName)
      else if IsNumericLabel(labels[|labels| - 1]) then Err(NumericLabel)
      else Ok(host)
  }

  lemma {:induction false} EndsWithDot(s: string)
    requires s != [] && s[|s| - 1] == '.'
    ensures |Split(s, ".")| >= 2 && Split(s, ".")[|Split(s, ".")| - 1] == []
  {
    if |s| > 1 {
      EndsWithDot(s[1..]);
    } else {
      assert s == "." && s[1..] == [];
    }
  }

  /** A name the config parser stores is one shared-core takes unchanged. */
  lemma HostNameCompiles(name: string)
    requires ParseHostName(name).Ok?
    ensures NormaliseName(ParseHostName(name).value) == Ok(ParseHostName(name).value)
  {
    hide Split, Lower, IsLabel, IsNumericLabel;
    var host := ParseHostName(name).value;
    LabelsAreLower(host);
    LowerFixes(host);
    NoFinalDot(host);
  }

  lemma LabelsAreLower(host: string)
    requires forall i :: 0 <= i < |Split(host, ".")| ==> IsLabel(Split(host, ".")[i])
    ensures IsLower(host)
  {
    hide Split;
    JoinSplitAny(host, ".");
    forall i | 0 <= i < |host| ensures LowerChar(host[i]) == host[i] {
      CharInJoin(Split(host, "."), ".", host[i]);
    }
  }

  lemma NoFinalDot(host: string)
    requires [] !in Split(host, ".")
    ensures DropDot(host) == host
  {
    hide Split;
    if host != [] && host[|host| - 1] == '.' { EndsWithDot(host); }
  }

  // ---------- the whole variable ----------

  predicate Contains(s: string, sub: string) { exists i :: 0 <= i <= |s| && sub <= s[i..] }

  function ParseEntry(entry: string): Result<Entry, EntryError> {
    if Contains(entry, "://") then Err(Url)
    else if '[' in entry || ']' in entry then Err(Brackets)
    else if '%' in entry then Err(ZoneId)
    else if '/' in entry then
      match ParseCidr(entry)
      case Err(e) => Err(e)
      case Ok(text) => Ok(CidrEntry(text))
    else if IsIP(entry) != 0 then Ok(CidrEntry(CanonicalAddress(entry) + (if IsIP(entry) == 4 then "/32" else "/128")))
    else if ':' in entry then Err(Colon)
    else if '*' in entry then
      if !("*." <= entry) || '*' in entry[2..] || |entry| == 2 then Err(Wildcard)
      else
        match ParseHostName(entry[2..])
        case Err(e) => Err(e)
        case Ok(name) => Ok(Suffix(name))
    else
      match ParseHostName(entry)
      case Err(e) => Err(e)
      case Ok(name) => Ok(Host(name))
  }

  /** Set.add, in insertion order. */
  function Add(s: seq<string>, x: string): seq<string> { if x in s then s else s + [x] }

  function AddEntry(a: Allowlist, e: Entry): Allowlist {
    match e
    case Host(name) => a.(hosts := Add(a.hosts, name))
    case Suffix(name) => a.(hostSuffixes := Add(a.hostSuffixes, name))
    case CidrEntry(text) => a.(cidrs := Add(a.cidrs, text))
  }

  /** The allowlist of the comma-separated parts, or the first malformed entry with what is wrong with it. */
  function ParseParts(parts: seq<string>): Result<Allowlist, (string, EntryError)> {
    if parts == [] then Ok(Allowlist([], [], []))
    else
      match ParseParts(parts[..|parts| - 1])
      case Err(e) => Err(e)
      case Ok(a) =>
        var entry := Trim(parts[|parts| - 1]);
        if entry == [] then Ok(a)
        else
          match ParseEntry(entry)
          case Err(e) => Err((entry, e))
          case Ok(parsed) => Ok(AddEntry(a, parsed))
  }

  function ParseVariable(value: Option<string>): Result<Allowlist, (string, EntryError)> {
    ParseParts(Split(if value.Some? then value.value else [], ","))
  }

  /** parseOutboundWebhookAllowlist: one pass over the parts, three sets filled as it goes. */
  method ParseOutboundWebhookAllowlist(value: Option<string>) returns (r: Result<Allowlist, (string, EntryError)>)
    ensures r == ParseVariable(value)
  {
    hide ParseEntry, ParseParts, Trim, Add;
    var parts := Split(if value.Some? then value.value else [], ",");
    NoParts(parts);
    var hosts: seq<string>, hostSuffixes: seq<string>, cidrs: seq<string> := [], [], [];
    for i := 0 to |parts|
      invariant ParseParts(parts[..i]) == Ok(Allowlist(hosts, hostSuffixes, cidrs))
    {
      OneMorePart(parts, i);
      var entry := Trim(parts[i]);
      if entry != [] {
        var parsed := ParseEntry(entry);
        match parsed {
          case Err(e) =>
            PartsFailEarly(parts, i + 1);
            return Err((entry, e));
          case Ok(Host(name)) => hosts := Add(hosts, name);
          case Ok(Suffix(name)) => hostSuffixes := Add(hostSuffixes, name);
          case Ok(CidrEntry(text)) => cidrs := Add(cidrs, text);
        }
      }
    }
    assert parts[..|parts|] == parts;
    return Ok(Allowlist(hosts, hostSuffixes, cidrs));
  }

  lemma NoParts(parts: seq<string>)
    ensures ParseParts(parts[..0]) == Ok(Allowlist([], [], []))
  {
  }

  lemma OneMorePart(parts: seq<string>, i: nat)
    requires i < |parts| && ParseParts(parts[..i]).Ok?
    ensures var entry := Trim(parts[i]); var a := ParseParts(parts[..i]).value;
      ParseParts(parts[..i + 1])
      == if entry == [] then Ok(a)
         else if ParseEntry(entry).Err? then Err((entry, ParseEntry(entry).error))
         else Ok(AddEntry(a, ParseEntry(entry).value))
  {
    hide ParseEntry, Trim, AddEntry;
    assert parts[..i + 1][..i] == parts[..i];
  }

  lemma {:induction false} PartsFailEarly(parts: seq<string>, n: nat)
    requires n <= |parts| && ParseParts(parts[..n]).Err?
    ensures ParseParts(parts) == ParseParts(parts[..n])
  {
    if n < |parts| {
      var front := parts[..|parts| - 1];
      assert front[..n] == parts[..n];
      PartsFailEarly(front, n);
    } else {
      assert parts[..n] == parts;
    }
  }

  /** shared-core takes the entry: an address range that parses, or a name it keeps as it stands. */
  predicate Compiles(e: Entry) {
    match e
    case Host(name) => NormaliseName(name) == Ok(name)
    case Suffix(name) => NormaliseName(name) == Ok(name)
    case CidrEntry(text) => ParseAllowlistCidr(text).Ok?
  }

  lemma TwoParts(entry: string)
    requires |Split(entry, "/")| == 2
    ensures HasParts(entry, Split(entry, "/")[0], Split(entry, "/")[1])
  {
    assert Split(entry, "/") == [Split(entry, "/")[0], Split(entry, "/")[1]];
  }

  /** A bare address is stored as the CIDR of exactly that address. */
  lemma BareAddress(address: string)
    requires IsIP(address) != 0
    ensures var text := CanonicalAddress(address) + (if IsIP(address) == 4 then "/32" else "/128");
      && ParseAllowlistCidr(text).Ok?
      && Meaning(ParseAllowlistCidr(text).value)
        == (IsIP(address), AddressToBigInt(address, IsIP(address)), BitsOf(IsIP(address)))
  {
    hide IsIP, AddressToBigInt, ParseIPv4, ParseIPv6, And, Value, Split, CanonicalAddress, ParseAllowlistCidr, Foreign;
    var canonical, bits := CanonicalAddress(address), BitsOf(IsIP(address));
    CanonicalSame(address);
    SlashPercentForeign();
    ForeignToAddress(canonical, '/');
    ForeignToAddress(canonical, '%');
    assert ToBase(32, 10) == "32" && ToBase(128, 10) == "128";
    PrefixPrint(bits);
    SlashParts(canonical, ToBase(bits, 10));
    assert HostSize(IsIP(address), bits) == 1;
    SharedCoreReads(canonical + "/" + ToBase(bits, 10), canonical, ToBase(bits, 10), IsIP(address),
                    AddressToBigInt(address, IsIP(address)), bits);
    assert canonical + "/" + "32" == canonical + "/32" && canonical + "/" + "128" == canonical + "/128";
  }

  lemma EntryCompiles(entry: string)
    requires ParseEntry(entry).Ok?
    ensures Compiles(ParseEntry(entry).value)
  {
    hide ParseCidr, ParseAllowlistCidr, IsIP, CanonicalAddress, NormaliseName, ParseHostName, Split;
    if '/' in entry {
      assert |Split(entry, "/")| == 2 by { CidrHasTwoParts(entry); }
      TwoParts(entry);
      StoredCidrReads(entry, Split(entry, "/")[0], Split(entry, "/")[1]);
    } else if IsIP(entry) != 0 {
      BareAddress(entry);
    } else if '*' in entry {
      HostNameCompiles(entry[2..]);
    } else {
      HostNameCompiles(entry);
    }
  }

  lemma CidrHasTwoParts(entry: string)
    requires ParseCidr(entry).Ok?
    ensures |Split(entry, "/")| == 2
  {
    hide IsIP, AddressToBigInt, FromBase, Pow2, And, Numeral, Split, BigIntToAddress, ToBase, CanonicalAddress;
  }

  /** Every allowlist the config parser returns compiles in shared-core, entry by entry, without error. */
  lemma {:induction false} PartsCompile(parts: seq<string>)
    requires ParseParts(parts).Ok?
    ensures forall x :: x in ParseParts(parts).value.cidrs ==> ParseAllowlistCidr(x).Ok?
    ensures forall x :: x in ParseParts(parts).value.hosts ==> NormaliseName(x) == Ok(x)
    ensures forall x :: x in ParseParts(parts).value.hostSuffixes ==> NormaliseName(x) == Ok(x)
  {
    hide ParseEntry, ParseAllowlistCidr, NormaliseName, Trim;
    if parts != [] {
      PartsCompile(parts[..|parts| - 1]);
      var entry := Trim(parts[|parts| - 1]);
      if entry != [] { EntryCompiles(entry); }
    }
  }

  lemma ParsedCompiles(value: Option<string>)
    requires ParseVariable(value).Ok?
    ensures Compile(ParseVariable(value).value.cidrs).Ok?
    ensures forall x :: x in ParseVariable(value).value.hosts ==> NormaliseName(x) == Ok(x)
    ensures forall x :: x in ParseVariable(value).value.hostSuffixes ==> NormaliseName(x) == Ok(x)
  {
    var parts := Split(if value.Some? then value.value else [], ",");
    PartsCompile(parts);
    CompileSpec(ParseParts(parts).value.cidrs);
    hide Compile, ParseParts, ParseAllowlistCidr, NormaliseName, Split;
  }

  // ---------- what the whole variable allows ----------

  /** What an operator means by an entry: the one address, or those that share the prefix with it. */
  predicate EntryDenotes(entry: string, version: nat, x: nat) {
    if '/' in entry then
      var parts := Split(entry, "/");
      && |parts| == 2 && IsIP(parts[0]) == version && IsPrefixText(parts[1])
      && FromBase(parts[1], 10) <= BitsOf(version)
      && (var size := HostSize(version, FromBase(parts[1], 10));
          x / size == AddressToBigInt(parts[0], version) / size)
    else IsIP(entry) == version && x == AddressToBigInt(entry, version)
  }

  predicate SomeEntryDenotes(parts: seq<string>, version: nat, x: nat) {
    exists i :: 0 <= i < |parts| && Trim(parts[i]) != [] && EntryDenotes(Trim(parts[i]), version, x)
  }

  /** The compiled ranges cover the address of that version numbered x. */
  predicate RangesCover(ranges: Ranges, version: nat, x: nat) {
    if version == 4 then exists r :: r in ranges.v4 && r.start <= x < r.start + r.size
    else exists r :: r in ranges.v6 && SameNetwork(GroupsOf(x), r.groups, r.prefix)
  }

  predicate TextCovers(text: string, version: nat, x: nat) {
    ParseAllowlistCidr(text).Ok? && Meaning(ParseAllowlistCidr(text).value).0 == version && CoreCovers(text, x)
  }

  lemma TextGives(text: string, x: nat)
    ensures TextCovers(text, 4, x) <==> exists r :: Gives4(text, r) && r.start <= x < r.start + r.size
    ensures TextCovers(text, 6, x) <==> exists r :: Gives6(text, r) && SameNetwork(GroupsOf(x), r.groups, r.prefix)
  {
    hide ParseAllowlistCidr, CompileCidr4, CompileCidr6, SameNetwork, GroupsOf;
    match ParseAllowlistCidr(text) {
      case Ok(Cidr4(value, prefix)) => assert Gives4(text, CompileCidr4(value, prefix));
      case Ok(Cidr6(groups, prefix)) => assert Gives6(text, CompileCidr6(groups, prefix));
      case Err(_) =>
    }
  }

  lemma CoverIsSomeText(cidrs: seq<string>, version: nat, x: nat)
    requires Compile(cidrs).Ok? && version in {4, 6}
    ensures RangesCover(Compile(cidrs).value, version, x) <==> exists text :: text in cidrs && TextCovers(text, version, x)
  {
    hide Compile, TextCovers, Gives4, Gives6, SameNetwork, GroupsOf;
    CompileSpec(cidrs);
    var ranges := Compile(cidrs).value;
    forall text | text in cidrs && TextCovers(text, version, x) ensures RangesCover(ranges, version, x) {
      TextGives(text, x);
      var i :| 0 <= i < |cidrs| && cidrs[i] == text;
      if version == 4 {
        var r :| Gives4(text, r) && r.start <= x < r.start + r.size;
        assert Listed4(cidrs, r);
      } else {
        var r :| Gives6(text, r) && SameNetwork(GroupsOf(x), r.groups, r.prefix);
        assert Listed6(cidrs, r);
      }
    }
    if RangesCover(ranges, version, x) {
      if version == 4 {
        var r :| r in ranges.v4 && r.start <= x < r.start + r.size;
        assert Listed4(cidrs, r);
        var i :| 0 <= i < |cidrs| && Gives4(cidrs[i], r);
        TextGives(cidrs[i], x);
      } else {
        var r :| r in ranges.v6 && SameNetwork(GroupsOf(x), r.groups, r.prefix);
        assert Listed6(cidrs, r);
        var i :| 0 <= i < |cidrs| && Gives6(cidrs[i], r);
        TextGives(cidrs[i], x);
      }
    }
  }

  /** The stored CIDR texts are exactly those of the variable's entries. */
  predicate Stores(parts: seq<string>, text: string) {
    exists i :: 0 <= i < |parts| && Trim(parts[i]) != [] && ParseEntry(Trim(parts[i])) == Ok(CidrEntry(text))
  }

  lemma {:induction false} StoredTexts(parts: seq<string>, text: string)
    requires ParseParts(parts).Ok?
    ensures text in ParseParts(parts).value.cidrs <==> Stores(parts, text)
    ensures forall i :: 0 <= i < |parts| && Trim(parts[i]) != [] ==> ParseEntry(Trim(parts[i])).Ok?
  {
    hide ParseEntry, Trim;
    if parts != [] {
      var n := |parts| - 1;
      StoredTexts(parts[..n], text);
      StoresSplit(parts, text);
      assert forall i :: 0 <= i < n ==> parts[..n][i] == parts[i];
    }
  }

  lemma StoresSplit(parts: seq<string>, text: string)
    requires parts != []
    ensures var n := |parts| - 1;
      Stores(parts, text)
      <==> Stores(parts[..n], text) || (Trim(parts[n]) != [] && ParseEntry(Trim(parts[n])) == Ok(CidrEntry(text)))
  {
    hide ParseEntry, Trim;
    var n := |parts| - 1;
    if Stores(parts, text) {
      var i :| 0 <= i < |parts| && Trim(parts[i]) != [] && ParseEntry(Trim(parts[i])) == Ok(CidrEntry(text));
      assert i < n ==> parts[..n][i] == parts[i];
    }
    if Stores(parts[..n], text) {
      var i :| 0 <= i < n && Trim(parts[..n][i]) != [] && ParseEntry(Trim(parts[..n][i])) == Ok(CidrEntry(text));
      assert parts[..n][i] == parts[i];
    }
  }

  /** What an entry is stored as covers, compiled, exactly what the entry denotes. */
  lemma EntryMeansItsText(entry: string, text: string, version: nat, x: nat)
    requires ParseEntry(entry) == Ok(CidrEntry(text)) && version in {4, 6} && x < Pow2(BitsOf(version))
    ensures TextCovers(text, version, x) <==> EntryDenotes(entry, version, x)
  {
    hide IsIP, ParseCidr, ParseHostName, Contains, CoreCovers, AddressToBigInt, Pow2, FromBase, Numeral, CanonicalAddress;
    hide ParseAllowlistCidr, Split, HostSize;
    if '/' in entry {
      CidrHasTwoParts(entry);
      TwoParts(entry);
      var address, prefixText := Split(entry, "/")[0], Split(entry, "/")[1];
      StoredCidrReads(entry, address, prefixText);
      NeedsAddress(entry, address, prefixText);
      if IsIP(address) == version { StoredCidrDenotes(entry, address, prefixText, x); }
    } else {
      BareCovers(entry, text, version, x);
    }
  }

  lemma BareCovers(address: string, text: string, version: nat, x: nat)
    requires IsIP(address) != 0 && version in {4, 6} && x < Pow2(BitsOf(version))
    requires text == CanonicalAddress(address) + (if IsIP(address) == 4 then "/32" else "/128")
    ensures TextCovers(text, version, x) <==> IsIP(address) == version && x == AddressToBigInt(address, version)
  {
    hide IsIP, AddressToBigInt, CanonicalAddress, ParseAllowlistCidr, Value, GroupsOf;
    BareAddress(address);
    DivByOne(0);
    ValueGroups128(x, version);
    match ParseAllowlistCidr(text).value {
      case Cidr4(_, _) =>
      case Cidr6(groups, _) => FullPrefix(GroupsOf(x), groups);
        if Value(GroupsOf(x)) == Value(groups) { ValueInjective(GroupsOf(x), groups); }
    }
  }

  lemma OthersDenoteNothing(entry: string, version: nat, x: nat)
    requires ParseEntry(entry).Ok? && !ParseEntry(entry).value.CidrEntry? && version in {4, 6}
    ensures !EntryDenotes(entry, version, x)
  {
    hide IsIP, ParseCidr, ParseHostName, Contains;
  }

  /**
   * The allowlist of a whole variable, once compiled, covers an address exactly when one of the variable's entries, as it
   * was written, denotes it.
   */
  lemma VariableDenotes(value: Option<string>, version: nat, x: nat)
    requires ParseVariable(value).Ok? && version in {4, 6} && x < Pow2(BitsOf(version))
    ensures Compile(ParseVariable(value).value.cidrs).Ok?
    ensures RangesCover(Compile(ParseVariable(value).value.cidrs).value, version, x)
      <==> SomeEntryDenotes(Split(if value.Some? then value.value else [], ","), version, x)
  {
    hide Compile, ParseParts, Split, Trim, ParseEntry, EntryDenotes, TextCovers, RangesCover, Pow2;
    var parts := Split(if value.Some? then value.value else [], ",");
    var cidrs := ParseVariable(value).value.cidrs;
    ParsedCompiles(value);
    CoverIsSomeText(cidrs, version, x);
    if RangesCover(Compile(cidrs).value, version, x) {
      var text :| text in cidrs && TextCovers(text, version, x);
      StoredTexts(parts, text);
      var i :| 0 <= i < |parts| && Trim(parts[i]) != [] && ParseEntry(Trim(parts[i])) == Ok(CidrEntry(text));
      EntryMeansItsText(Trim(parts[i]), text, version, x);
    }
    if SomeEntryDenotes(parts, version, x) {
      var i :| 0 <= i < |parts| && Trim(parts[i]) != [] && EntryDenotes(Trim(parts[i]), version, x);
      var entry := Trim(parts[i]);
      StoredTexts(parts, []);
      if ParseEntry(entry).value.CidrEntry? {
        var text := ParseEntry(entry).value.text;
        EntryMeansItsText(entry, text, version, x);
        StoredTexts(parts, text);
        assert Stores(parts, text);
        assert text in cidrs && TextCovers(text, version, x);
      } else {
        OthersDenoteNothing(entry, version, x);
      }
    }
  }

  // ---------- the remedy, carried out on the variable ----------

  /** What a bare address is stored as. */
  function StoredText(ip: string): string {
    CanonicalAddress(ip) + if IsIP(ip) == 4 then "/32" else "/128"
  }

  lemma SpaceIsForeign(c: char)
    requires IsSpace(c)
    ensures Foreign(c)
  {
  }

  lemma NotEmpty(ip: string)
    requires IsIP(ip) != 0
    ensures ip != []
  {
    if ip == [] {
      assert Split(ip, ".") == [[]];
      assert Split(ip, "::") == [[]];
    }
  }

  /** A well-formed address needs no trimming, has no comma in it and is an entry. */
  lemma AddressIsEntry(ip: string)
    requires WellFormed(ip)
    ensures ip != [] && Trim(ip) == ip && ',' !in ip
    ensures ParseEntry(ip) == Ok(CidrEntry(StoredText(ip)))
  {
    hide IsIP, Trim, CanonicalAddress, ParseCidr, ParseHostName, Contains;
    NotEmpty(ip);
    forall c | c in {'/', '[', ']', ','} ensures c !in ip { ForeignToAddress(ip, c); }
    forall i | 0 <= i < |ip| ensures !IsSpace(ip[i]) {
      if IsSpace(ip[i]) {
        SpaceIsForeign(ip[i]);
        ForeignToAddress(ip, ip[i]);
      }
    }
    TrimSpec(ip);
    NoScheme(ip);
  }

  lemma NoScheme(text: string)
    requires '/' !in text
    ensures !Contains(text, "://")
  {
    forall i | 0 <= i <= |text| ensures "://" <= text[i..] ==> text[i + 1] == '/' {
      assert "://"[1] == '/';
    }
  }

  /** Stored, it reads as the address itself does. */
  lemma StoredReadsSame(ip: string)
    requires WellFormed(ip)
    ensures ParseAllowlistCidr(StoredText(ip)) == ParseAllowlistCidr(ip)
  {
    hide IsIP, CanonicalAddress, ParseAllowlistCidr, AddressToBigInt, ParseIPv4, ParseIPv6, Value, StripZone;
    BareAddress(ip);
    EntryParses(ip);
    BigIntReads(ip);
    NoZone(ip);
    MeaningInjective(ParseAllowlistCidr(StoredText(ip)).value, ParseAllowlistCidr(ip).value);
  }

  /** Further bare addresses keep what is there and store each of them. */
  lemma {:induction false} AddressesAppend(parts: seq<string>, named: seq<string>) returns (extra: seq<string>)
    requires ParseParts(parts).Ok? && forall i :: 0 <= i < |named| ==> WellFormed(named[i])
    ensures ParseParts(parts + named).Ok?
    ensures ParseParts(parts + named).value.cidrs == ParseParts(parts).value.cidrs + extra
    ensures forall i :: 0 <= i < |named| ==> StoredText(named[i]) in ParseParts(parts + named).value.cidrs
    decreases |named|
  {
    hide ParseEntry, Trim, StoredText, WellFormed;
    if named == [] {
      assert parts + named == parts;
      extra := [];
    } else {
      var n := |named| - 1;
      extra := AddressesAppend(parts, named[..n]);
      AddressIsEntry(named[n]);
      var all := parts + named;
      assert all[..|all| - 1] == parts + named[..n] && all[|all| - 1] == named[n];
      var text := StoredText(named[n]);
      if text !in ParseParts(parts + named[..n]).value.cidrs { extra := extra + [text]; }
      assert forall i :: 0 <= i < n ==> named[..n][i] == named[i];
    }
  }

  /** Appending the addresses to the variable's text appends them to its parts. */
  lemma PartsOfAppended(value: string, named: seq<string>)
    requires named != [] && forall i :: 0 <= i < |named| ==> ',' !in named[i]
    ensures Split(value + "," + Join(named, ","), ",") == Split(value, ",") + named
  {
    var parts := Split(value, ",");
    JoinSplitAny(value, ",");
    JoinAppend(parts, named, ",");
    forall i | 0 <= i < |parts + named| ensures ',' !in (parts + named)[i] {
      if i < |parts| { SplitParts(value, ',', i); }
    }
    SplitJoin(parts + named, ',');
  }

  /** A lookup refused with the remedy passes once the stored addresses are there. */
  lemma StoredLifts(cidrs: seq<string>, extra: seq<string>, answers: seq<Resolved>, named: seq<string>)
    requires Compile(cidrs).Ok? && Compile(cidrs + extra).Ok?
    requires named == RefusedAddresses(answers, Compile(cidrs).value)
    requires forall i :: 0 <= i < |named| ==> WellFormed(named[i]) && AddressRemedy(named[i])
    requires forall i :: 0 <= i < |named| ==> StoredText(named[i]) in cidrs + extra
    ensures RefusedAddresses(answers, Compile(cidrs + extra).value) == []
  {
    hide Compile, ParseAllowlistCidr, AddressRemedy, IsPrivateOrReserved, IsAllowlisted, WellFormed, RefusedAddresses;
    hide StoredText;
    var before, after := Compile(cidrs).value, Compile(cidrs + extra).value;
    RefusedSpec(answers, before);
    RefusedSpec(answers, after);
    forall ip | ip in Addresses(answers) ensures !IsRefused(ip, after) {
      if IsRefused(ip, before) {
        var i :| 0 <= i < |named| && named[i] == ip;
        var k :| 0 <= k < |cidrs + extra| && (cidrs + extra)[k] == StoredText(ip);
        StoredReadsSame(ip);
        SameEntryAdmits(ip, cidrs + extra, k);
      } else if IsPrivateOrReserved(ip) {
        AdmissionGrows(ip, cidrs, extra);
      }
    }
    SomeMember(RefusedAddresses(answers, after));
  }

  /**
   * From the refusal an operator sees to the variable they set: when a lookup under the compiled variable is refused with the
   * "address" remedy, and the addresses it names, none of them zoned, are appended to the variable's text, that text still
   * parses and compiles, and the same answer is no longer refused.
   */
  lemma RemedyInTheVariable(value: string, answers: seq<Resolved>, family: nat, all: bool)
    requires ParseVariable(Some(value)).Ok? && Compile(ParseVariable(Some(value)).value.cidrs).Ok?
    requires var refusal := GuardedLookup(answers, Compile(ParseVariable(Some(value)).value.cidrs).value, family, all);
      refusal.Refused? && refusal.remedy && forall i :: 0 <= i < |refusal.named| ==> '%' !in refusal.named[i]
    ensures var ranges := Compile(ParseVariable(Some(value)).value.cidrs).value;
      var longer := Some(value + "," + Join(GuardedLookup(answers, ranges, family, all).named, ","));
      && ParseVariable(longer).Ok? && Compile(ParseVariable(longer).value.cidrs).Ok?
      && !GuardedLookup(answers, Compile(ParseVariable(longer).value.cidrs).value, family, all).Refused?
  {
    hide Compile, ParseParts, Split, Join, RefusedAddresses, AddressRemedy, WellFormed, OfFamily, StoredText, ParseEntry;
    var cidrs := ParseVariable(Some(value)).value.cidrs;
    var named := RefusedAddresses(answers, Compile(cidrs).value);
    forall i | 0 <= i < |named| ensures WellFormed(named[i]) && ',' !in named[i] {
      RemediableWellFormed(named[i]);
      AddressIsEntry(named[i]);
    }
    PartsOfAppended(value, named);
    var extra := AddressesAppend(Split(value, ","), named);
    ParsedCompiles(Some(value + "," + Join(named, ",")));
    StoredLifts(cidrs, extra, answers, named);
  }

  // ---------- a prefix with a leading zero ----------

  /** 10.0.0.0/08 is a CIDR to shared-core and none to the config parser. */
  lemma LeadingZeroDiffers()
    ensures var entry := PrintIPv4(Quad(10, 0, 0, 0)) + "/08"; ParseAllowlistCidr(entry).Ok? && ParseCidr(entry).Err?
  {
    hide IsDottedQuad, ParseIPv4, AddressToBigInt, ParseAllowlistCidr, ParseCidr, Split, Pow2, PrintIPv4;
    var address := PrintIPv4(Quad(10, 0, 0, 0));
    PrintParseIPv4(Quad(10, 0, 0, 0));
    SlashPercentForeign();
    ForeignToAddress(address, '/');
    ForeignToAddress(address, '%');
    SlashParts(address, "08");
    assert address + "/" + "08" == address + "/08";
    EightText();
    BigIntReads(address);
    Pow2Values();
    SharedCoreReads(address + "/08", address, "08", 4, Quad(10, 0, 0, 0), 8);
    ConfigReads(address + "/08", address, "08", 4, Quad(10, 0, 0, 0), 8);
    RemainderUnique(Quad(10, 0, 0, 0), Pow2(24), 10, 0);
  }

  lemma EightText()
    ensures IsPrefixText("08") && FromBase("08", 10) == 8 && !IsPlainPrefix("08") && '/' !in "08"
  {
    assert "08"[..1] == "0" && "0"[..0] == [];
    assert FromBase("0", 10) == 0;
  }

  // ---------- octets by shifting ----------

  /** (value >> shift) & 0xff for the shifts 24, 16, 8 and 0 is what dividing gives. */
  lemma OctetsByShift(value: nat, i: nat)
    requires value < IPV4_LIMIT && i < 4
    ensures Octets(value)[i] == And(ShiftRight(value, 24 - 8 * i), 0xff)
  {
    hide And, Pow2;
    Pow2Values();
    Pow2Zero();
    AndLowMask(ShiftRight(value, 24 - 8 * i), 8);
  }

  // ---------- exactly which entries the variable takes ----------

  predicate NameChar(c: char) { 'a' <= c <= 'z' || '0' <= c <= '9' || c in {'_', '-'} }

  /** One to sixty-three characters. */
  predicate GoodLabel(l: string) { 1 <= |l| <= 63 && forall i :: 0 <= i < |l| ==> NameChar(l[i]) }

  /** Decimal digits, or 0x and hexadecimal ones: a URL would read a last label like that as an IPv4 number. */
  predicate LooksNumeric(l: string) {
    || (forall i :: 0 <= i < |l| ==> '0' <= l[i] <= '9')
    || (|l| >= 2 && l[..2] == "0x" && forall i :: 2 <= i < |l| ==> '0' <= l[i] <= '9' || 'a' <= l[i] <= 'f')
  }

  ghost predicate GoodLabels(labels: seq<string>) {
    labels != [] && (forall i :: 0 <= i < |labels| ==> GoodLabel(labels[i])) && |Join(labels, ".")| <= 253
  }

  /** The text spells the name of these labels in any letter case, with or without a final dot. */
  ghost predicate Spells(text: string, labels: seq<string>) {
    GoodLabels(labels) && (Lower(text) == Join(labels, ".") || Lower(text) == Join(labels, ".") + ".")
  }

  ghost predicate NameEntry(text: string, name: string) {
    exists labels ::
      Spells(text, labels) && name == Join(labels, ".") && labels != [] && !LooksNumeric(labels[|labels| - 1])
  }

  lemma LabelExactly(l: string)
    ensures GoodLabel(l) <==> IsLabel(l) && |l| <= 63
    ensures l != [] ==> (LooksNumeric(l) <==> IsNumericLabel(l))
    ensures GoodLabel(l) ==> l != [] && '.' !in l && l[|l| - 1] != '.'
  {
    assert "0x" <= l <==> |l| >= 2 && l[..2] == "0x";
    if "0x" <= l { assert forall i :: 2 <= i < |l| ==> l[2..][i - 2] == l[i]; }
  }

  lemma {:induction false} NameChars(labels: seq<string>, i: nat)
    requires forall k :: 0 <= k < |labels| ==> GoodLabel(labels[k])
    requires i < |Join(labels, ".")|
    ensures NameChar(Join(labels, ".")[i]) || Join(labels, ".")[i] == '.'
  {
    if |labels| > 1 && i > |labels[0]| { NameChars(labels[1..], i - |labels[0]| - 1); }
  }

  lemma SpelledOut(text: string, labels: seq<string>)
    requires Spells(text, labels)
    ensures DropDot(Lower(text)) == Join(labels, ".") && Split(Join(labels, "."), ".") == labels
    ensures forall i :: 0 <= i < |labels| ==> IsLabel(labels[i]) && |labels[i]| <= 63 && labels[i] != []
    ensures forall i :: 0 <= i < |text| ==> '!' <= text[i] <= '~'
  {
    hide Join, Split, GoodLabel, IsLabel;
    var name := Join(labels, ".");
    forall i | 0 <= i < |labels| ensures '.' !in labels[i] && IsLabel(labels[i]) && |labels[i]| <= 63 && labels[i] != [] {
      LabelExactly(labels[i]);
    }
    LabelExactly(labels[|labels| - 1]);
    SplitJoin(labels, '.');
    JoinEnd(labels, ".");
    forall i | 0 <= i < |text| ensures '!' <= text[i] <= '~' {
      if i < |name| { NameChars(labels, i); }
      assert Lower(text)[i] == LowerChar(text[i]);
    }
  }

  lemma LabelsOf(text: string, name: string)
    requires name == DropDot(Lower(text)) && |name| <= 253
    requires forall i :: 0 <= i < |Split(name, ".")| ==> IsLabel(Split(name, ".")[i]) && |Split(name, ".")[i]| <= 63
    ensures Spells(text, Split(name, ".")) && name == Join(Split(name, "."), ".")
  {
    hide Join, Split, GoodLabel, IsLabel;
    var labels := Split(name, ".");
    JoinSplitAny(name, ".");
    forall i | 0 <= i < |labels| ensures GoodLabel(labels[i]) { LabelExactly(labels[i]); }
  }

  /** The host names the variable takes, and what each is stored as. */
  lemma NamesExactly(text: string, name: string)
    ensures ParseHostName(text) == Ok(name) <==> NameEntry(text, name)
  {
    hide Join, Split, GoodLabel, LooksNumeric, IsNumericLabel, IsLabel, DropDot, Spells;
    if ParseHostName(text) == Ok(name) {
      var labels := Split(name, ".");
      LabelsOf(text, name);
      LabelExactly(labels[|labels| - 1]);
    }
    if NameEntry(text, name) {
      var labels :|
        Spells(text, labels) && name == Join(labels, ".") && labels != [] && !LooksNumeric(labels[|labels| - 1]);
      SpelledOut(text, labels);
      SpelledShort(text, labels);
      LabelExactly(labels[|labels| - 1]);
    }
  }

  /** shared-core takes the same names, and those that look numeric. */
  lemma CoreNamesExactly(text: string, name: string)
    ensures NormaliseName(text) == Ok(name) <==> exists labels :: Spells(text, labels) && name == Join(labels, ".")
  {
    hide Join, Split, GoodLabel, IsLabel, DropDot, Spells;
    if NormaliseName(text) == Ok(name) { LabelsOf(text, name); }
    if labels :| Spells(text, labels) && name == Join(labels, ".") {
      SpelledOut(text, labels);
      SpelledShort(text, labels);
    }
  }

  lemma SpelledShort(text: string, labels: seq<string>)
    requires Spells(text, labels)
    ensures |Join(labels, ".")| <= 253 && labels != []
  {
  }

  /** A whole number of at most three digits, written without a leading zero. */
  predicate PlainNumber(text: string) {
    && 1 <= |text| <= 3 && (forall i :: 0 <= i < |text| ==> '0' <= text[i] <= '9')
    && (|text| > 1 ==> text[0] != '0')
  }

  lemma PlainExactly(text: string)
    ensures IsPlainPrefix(text) <==> PlainNumber(text)
    ensures PlainNumber(text) ==> Numeral(text, 10) && '/' !in text
  {
    if PlainNumber(text) {
      forall i | 0 <= i < |text| ensures 0 <= DigitValue(text[i]) < 10 { }
    } else if IsPlainPrefix(text) {
      forall i | 0 <= i < |text| ensures '0' <= text[i] <= '9' { assert DigitValue(text[i]) < 10; }
    }
  }

  /** The text is the address, a slash and a prefix length of one to three digits that leaves no bit beyond it. */
  ghost predicate RangeOf(text: string, address: string, digits: string) {
    && text == address + "/" + digits && IsIP(address) != 0
    && 1 <= |digits| <= 3 && Numeral(digits, 10) && FromBase(digits, 10) <= BitsOf(IsIP(address))
    && AddressToBigInt(address, IsIP(address)) % HostSize(IsIP(address), FromBase(digits, 10)) == 0
  }

  lemma RangeParts(text: string, address: string, digits: string)
    requires RangeOf(text, address, digits)
    ensures HasParts(text, address, digits) && '/' in text && '%' !in text && '%' !in address
  {
    hide IsIP, AddressToBigInt, HostSize, Split, FromBase, Foreign;
    forall i | 0 <= i < |digits| ensures digits[i] !in {'/', '%'} { assert 0 <= DigitValue(digits[i]) < 10; }
    SlashPercentForeign();
    ForeignToAddress(address, '/');
    ForeignToAddress(address, '%');
    SlashParts(address, digits);
    assert text[|address|] == '/';
  }

  lemma PartsOf(text: string)
    requires |Split(text, "/")| == 2
    ensures HasParts(text, Split(text, "/")[0], Split(text, "/")[1])
    ensures text == Split(text, "/")[0] + "/" + Split(text, "/")[1]
  {
    TwoParts(text);
    JoinSplitAny(text, "/");
    var address, digits := Split(text, "/")[0], Split(text, "/")[1];
    assert Join([address, digits], "/") == address + "/" + digits;
  }

  /** The ranges the variable takes: those, without a leading zero in the prefix length. */
  ghost predicate RangeEntry(text: string) {
    exists address, digits :: RangeOf(text, address, digits) && (|digits| > 1 ==> digits[0] != '0')
  }

  lemma CidrExactly(text: string)
    ensures ParseCidr(text).Ok? <==> RangeEntry(text)
    ensures RangeEntry(text) ==> '/' in text && '%' !in text
  {
    hide IsIP, AddressToBigInt, HostSize, Split, FromBase, ParseCidr, Numeral;
    if ParseCidr(text).Ok? {
      CidrHasTwoParts(text);
      PartsOf(text);
      var address, digits := Split(text, "/")[0], Split(text, "/")[1];
      NeedsAddress(text, address, digits);
      ConfigReads(text, address, digits, IsIP(address), AddressToBigInt(address, IsIP(address)), FromBase(digits, 10));
      assert RangeOf(text, address, digits);
    }
    if RangeEntry(text) {
      var address, digits :| RangeOf(text, address, digits) && (|digits| > 1 ==> digits[0] != '0');
      RangeParts(text, address, digits);
      ConfigReads(text, address, digits, IsIP(address), AddressToBigInt(address, IsIP(address)), FromBase(digits, 10));
    }
  }

  /** What shared-core takes as a range: an address alone, or any such text, leading zeros included. */
  lemma CoreRangesExactly(text: string)
    ensures ParseAllowlistCidr(text).Ok? <==> IsIP(text) != 0 || exists address, digits :: RangeOf(text, address, digits)
    ensures ParseAllowlistCidr(text).Err? ==> ParseAllowlistCidr(text).error == text
  {
    hide IsIP, AddressToBigInt, HostSize, Split, FromBase, Numeral, Foreign, RangeOf, ParseIPv4, ParseIPv6;
    CoreTakes(text);
    if IsIP(text) != 0 {
      SlashPercentForeign();
      ForeignToAddress(text, '%');
      EntryParses(text);
    }
    if address, digits :| RangeOf(text, address, digits) { RangeCompiles(text, address, digits); }
  }

  lemma RangeCompiles(text: string, address: string, digits: string)
    requires RangeOf(text, address, digits)
    ensures ParseAllowlistCidr(text).Ok?
  {
    hide IsIP, AddressToBigInt, HostSize, Split, FromBase, Numeral, ParseAllowlistCidr;
    RangeParts(text, address, digits);
    SharedCoreReads(text, address, digits, IsIP(address), AddressToBigInt(address, IsIP(address)), FromBase(digits, 10));
  }

  lemma CoreTakes(text: string)
    ensures ParseAllowlistCidr(text).Err? ==> ParseAllowlistCidr(text).error == text
    ensures ParseAllowlistCidr(text).Ok? ==> IsIP(text) != 0 || exists address, digits :: RangeOf(text, address, digits)
  {
    hide IsIP, AddressToBigInt, HostSize, Split, FromBase, Numeral, ParseIPv4, ParseIPv6, Pow2;
    if ParseAllowlistCidr(text).Ok? {
      if |Split(text, "/")| == 1 {
        JoinSplitAny(text, "/");
        assert Join(Split(text, "/"), "/") == Split(text, "/")[0];
      } else {
        PartsOf(text);
        var address, digits := Split(text, "/")[0], Split(text, "/")[1];
        NeedsAddress(text, address, digits);
        SharedCoreReads(text, address, digits, IsIP(address), AddressToBigInt(address, IsIP(address)), FromBase(digits, 10));
        assert RangeOf(text, address, digits);
      }
    }
  }

  // ---------- and what the whole variable makes of them ----------

  /** What a part may be, blank ones aside: an address, a range of them, a name, or all names below one. */
  ghost predicate AddressEntry(text: string) { IsIP(text) != 0 || RangeEntry(text) }

  ghost predicate BelowEntry(text: string, name: string) {
    |text| > 2 && text[..2] == "*." && NameEntry(text[2..], name)
  }

  lemma HasColon(text: string)
    requires IsIP(text) == 6
    ensures ':' in text
  {
    if ':' !in text {
      var lower := Lower(text);
      assert text[0..] == text && lower[0..] == lower;
      forall i | 0 <= i < |lower| ensures lower[i] != ':' && (lower[i] == '.' ==> text[i] == '.') {
        assert text[i] != ':';
      }
      NoCharNone(lower, ':', []);
      assert lower + [] == lower;
      SplitNone(lower, ":");
      assert NoneBefore(lower, "::", |lower|) by {
        forall i | 0 <= i < |lower| ensures !("::" <= lower[i..]) { assert lower[i..][0] == lower[i] && "::"[0] == ':'; }
      }
      SplitNone(lower, "::");
    }
  }

  lemma QuadIsNumeric(text: string, labels: seq<string>)
    requires IsDottedQuad(text) && Spells(text, labels)
    ensures labels != [] && LooksNumeric(labels[|labels| - 1])
  {
    hide Spells, Split, Join, LooksNumeric;
    var parts := Split(text, ".");
    JoinSplitAny(text, ".");
    forall i | 0 <= i < |text| ensures LowerChar(text[i]) == text[i] {
      CharInJoin(parts, ".", text[i]);
      if text[i] !in "." {
        var k :| 0 <= k < |parts| && text[i] in parts[k];
        var j :| 0 <= j < |parts[k]| && parts[k][j] == text[i];
        assert 0 <= DigitValue(parts[k][j]) < 10;
      }
    }
    LowerFixes(text);
    JoinEnd(parts, ".");
    SplitParts(text, '.', 3);
    SpelledOut(text, labels);
    assert DropDot(text) == text;
    assert labels == parts;
    NumeralLooks(parts[3]);
  }

  lemma NumeralLooks(l: string)
    requires Numeral(l, 10)
    ensures LooksNumeric(l)
  {
    forall i | 0 <= i < |l| ensures '0' <= l[i] <= '9' { assert 0 <= DigitValue(l[i]) < 10; }
  }

  /** A name is no address, and none of the characters that say otherwise is in it. */
  lemma NameIsOnlyName(text: string, name: string)
    requires NameEntry(text, name)
    ensures IsIP(text) == 0 && forall c :: c in text ==> c !in {':', '/', '[', ']', '%', '*'}
  {
    hide IsIP, IsDottedQuad, LooksNumeric, Spells;
    var labels :|
      Spells(text, labels) && name == Join(labels, ".") && labels != [] && !LooksNumeric(labels[|labels| - 1]);
    SpelledChars(text, labels);
    if IsIP(text) == 6 { HasColon(text); }
    if IsIP(text) == 4 {
      FourIsQuad(text);
      QuadIsNumeric(text, labels);
    }
  }

  lemma FourIsQuad(text: string)
    requires IsIP(text) == 4
    ensures IsDottedQuad(text)
  {
  }

  lemma SpelledChars(text: string, labels: seq<string>)
    requires Spells(text, labels)
    ensures forall c :: c in text ==> c !in {':', '/', '[', ']', '%', '*'}
  {
    hide Join;
    forall i | 0 <= i < |text| ensures text[i] !in {':', '/', '[', ']', '%', '*'} {
      assert Lower(text)[i] == LowerChar(text[i]);
      if i < |Join(labels, ".")| { NameChars(labels, i); }
    }
  }

  lemma RangeIsOnlyRange(text: string)
    requires RangeEntry(text)
    ensures '/' in text && '%' !in text && '[' !in text && ']' !in text && !Contains(text, "://")
  {
    hide IsIP, AddressToBigInt, HostSize, FromBase, Foreign;
    var address, digits :| RangeOf(text, address, digits) && (|digits| > 1 ==> digits[0] != '0');
    RangeParts(text, address, digits);
    BracketsForeign();
    SlashPercentForeign();
    forall c | c in {'[', ']', '/'} ensures c !in address { ForeignToAddress(address, c); }
    forall i | 0 <= i < |digits| ensures digits[i] !in {'[', ']', '/'} { assert 0 <= DigitValue(digits[i]) < 10; }
    forall k | 0 <= k < |text| && k != |address| ensures text[k] != '/' {
      if k < |address| {
        assert text[k] == address[k] && address[k] in address;
      } else {
        assert text[k] == digits[k - |address| - 1];
      }
    }
    OneSlashNoScheme(text, |address|);
  }

  lemma OneSlashNoScheme(text: string, at: nat)
    requires forall k :: 0 <= k < |text| && text[k] == '/' ==> k == at
    ensures !Contains(text, "://")
  {
    forall i | 0 <= i <= |text| && |text| >= i + 3 ensures text[i..][1] != '/' || text[i..][2] != '/' {
      assert text[i..][1] == text[i + 1] && text[i..][2] == text[i + 2];
    }
    assert "://"[1] == '/' && "://"[2] == '/';
  }

  lemma BracketsForeign()
    ensures Foreign('[') && Foreign(']') && Foreign('*')
  {
  }

  /** Exactly what each part of the variable is taken for. */
  lemma EntriesExactly(text: string)
    ensures ParseEntry(text).Ok? && ParseEntry(text).value.CidrEntry? <==> AddressEntry(text)
    ensures forall name :: ParseEntry(text) == Ok(Host(name)) <==> NameEntry(text, name)
    ensures forall name :: ParseEntry(text) == Ok(Suffix(name)) <==> BelowEntry(text, name)
  {
    hide IsIP, ParseCidr, ParseHostName, CanonicalAddress, Contains, NameEntry, RangeEntry, Foreign;
    CidrExactly(text);
    BracketsForeign();
    SlashPercentForeign();
    if '/' !in text { NoScheme(text); }
    if RangeEntry(text) { RangeIsOnlyRange(text); }
    if IsIP(text) != 0 {
      forall c | c in {'/', '%', '[', ']', '*'} ensures c !in text { ForeignToAddress(text, c); }
    }
    forall name ensures ParseEntry(text) == Ok(Host(name)) <==> NameEntry(text, name) {
      NamesExactly(text, name);
      if NameEntry(text, name) { NameIsOnlyName(text, name); }
    }
    forall name ensures ParseEntry(text) == Ok(Suffix(name)) <==> BelowEntry(text, name) {
      if BelowEntry(text, name) { BelowTaken(text, name); }
      if ParseEntry(text) == Ok(Suffix(name)) { NamesExactly(text[2..], name); }
    }
  }

  lemma BelowTaken(text: string, name: string)
    requires BelowEntry(text, name)
    ensures ParseEntry(text) == Ok(Suffix(name))
  {
    hide IsIP, ParseCidr, ParseHostName, CanonicalAddress, Contains, NameEntry, Foreign;
    var rest := text[2..];
    NamesExactly(rest, name);
    NameIsOnlyName(rest, name);
    assert text == "*." + rest;
    NoScheme(text);
    BracketsForeign();
    if IsIP(text) != 0 { ForeignToAddress(text, '*'); }
    assert text[0] == '*' && "*." <= text;
  }

  /** What the parts say, trimmed, blank ones aside. */
  function Said(parts: seq<string>): (texts: set<string>)
    ensures forall text :: text in texts <==> text != [] && exists i :: 0 <= i < |parts| && text == Trim(parts[i])
  {
    set i | 0 <= i < |parts| && Trim(parts[i]) != [] :: Trim(parts[i])
  }

  lemma SaidMore(parts: seq<string>)
    requires parts != []
    ensures var n := |parts| - 1;
      Said(parts) == Said(parts[..n]) + if Trim(parts[n]) != [] then {Trim(parts[n])} else {}
  {
    hide Trim;
    var n := |parts| - 1;
    assert forall i :: 0 <= i < n ==> parts[..n][i] == parts[i];
  }

  predicate NoneTwice(names: seq<string>) { forall i, j :: 0 <= i < j < |names| ==> names[i] != names[j] }

  lemma AddOnce(names: seq<string>, x: string)
    requires NoneTwice(names)
    ensures NoneTwice(Add(names, x)) && forall n :: n in Add(names, x) <==> n in names || n == x
  {
  }

  lemma {:induction false} PartsExactly(parts: seq<string>)
    ensures ParseParts(parts).Ok? <==> forall text :: text in Said(parts) ==> ParseEntry(text).Ok?
    ensures ParseParts(parts).Ok? ==> var a := ParseParts(parts).value;
      && NoneTwice(a.hosts) && NoneTwice(a.hostSuffixes) && NoneTwice(a.cidrs)
      && (forall name :: name in a.hosts <==> exists text :: text in Said(parts) && ParseEntry(text) == Ok(Host(name)))
      && (forall name :: name in a.hostSuffixes <==>
            exists text :: text in Said(parts) && ParseEntry(text) == Ok(Suffix(name)))
  {
    hide ParseEntry, Trim, Said, Add, NoneTwice;
    if parts == [] {
      assert Said(parts) == {};
      assert NoneTwice([]) by { NothingTwice(); }
    } else {
      var n := |parts| - 1;
      PartsExactly(parts[..n]);
      SaidMore(parts);
      if ParseParts(parts).Ok? {
        var a, text := ParseParts(parts[..n]).value, Trim(parts[n]);
        if text != [] {
          match ParseEntry(text).value {
            case Host(name) => AddOnce(a.hosts, name);
            case Suffix(name) => AddOnce(a.hostSuffixes, name);
            case CidrEntry(cidr) => AddOnce(a.cidrs, cidr);
          }
        }
      }
    }
  }

  lemma NothingTwice()
    ensures NoneTwice([])
  {
  }

  ghost predicate Taken(text: string) {
    AddressEntry(text) || (exists name :: NameEntry(text, name)) || exists name :: BelowEntry(text, name)
  }

  lemma TakenExactly(text: string)
    ensures ParseEntry(text).Ok? <==> Taken(text)
  {
    hide NameEntry, BelowEntry, AddressEntry, ParseEntry;
    EntriesExactly(text);
    if ParseEntry(text).Ok? {
      match ParseEntry(text).value {
        case Host(name) => assert ParseEntry(text) == Ok(Host(name));
        case Suffix(name) => assert ParseEntry(text) == Ok(Suffix(name));
        case CidrEntry(_) =>
      }
    }
  }

  /**
   * The variable is accepted exactly when every part that is not blank is an address, a range, a name or all names below
   * one. Then the names it holds are exactly those its parts spell, each once.
   */
  lemma VariableExactly(value: Option<string>)
    ensures var said, r := Said(Split(if value.Some? then value.value else [], ",")), ParseVariable(value);
      && (r.Ok? <==> forall text :: text in said ==> Taken(text))
      && (r.Ok? ==> NoneTwice(r.value.hosts) && NoneTwice(r.value.hostSuffixes) && NoneTwice(r.value.cidrs))
      && (r.Ok? ==> forall name ::
            && (name in r.value.hosts <==> exists text :: text in said && NameEntry(text, name))
            && (name in r.value.hostSuffixes <==> exists text :: text in said && BelowEntry(text, name)))
  {
    hide NameEntry, BelowEntry, Taken, ParseEntry, Said, Split, ParseParts, NoneTwice;
    PartsExactly(Split(if value.Some? then value.value else [], ","));
    forall text ensures ParseEntry(text).Ok? <==> Taken(text) { TakenExactly(text); }
    forall text, name ensures ParseEntry(text) == Ok(Host(name)) <==> NameEntry(text, name) { EntriesExactly(text); }
    forall text, name ensures ParseEntry(text) == Ok(Suffix(name)) <==> BelowEntry(text, name) { EntriesExactly(text); }
  }
}
