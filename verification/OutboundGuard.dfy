/**
 * The outbound address policy (packages/shared-core/src/outbound-url.ts): what is private or reserved, the hard floor
 * no allowlist opens, the compiled operator allowlist, and the decision a guarded lookup makes on a DNS answer.
 */
module OutboundGuard {
  import opened Options
  import opened Text
  import opened Bits
  import opened Ipv6Prefix
  import opened IpAddress

  const MAX_HOST_NAME_LENGTH := 253
  const MAX_LABEL_LENGTH := 63
  const MAX_NAMED_ADDRESSES := 8

  const BLOCKED_IPV4_RANGES: seq<(nat, nat)> := [
    (Quad(0, 0, 0, 0), 8), (Quad(10, 0, 0, 0), 8), (Quad(100, 64, 0, 0), 10), (Quad(127, 0, 0, 0), 8),
    (Quad(169, 254, 0, 0), 16), (Quad(172, 16, 0, 0), 12), (Quad(192, 0, 0, 0), 24), (Quad(192, 0, 2, 0), 24),
    (Quad(192, 88, 99, 0), 24), (Quad(192, 168, 0, 0), 16), (Quad(198, 18, 0, 0), 15), (Quad(198, 51, 100, 0), 24),
    (Quad(203, 0, 113, 0), 24), (Quad(224, 0, 0, 0), 4), (Quad(240, 0, 0, 0), 4)
  ]

  const HARD_FLOOR_IPV4_RANGES: seq<(nat, nat)> := [
    (Quad(0, 0, 0, 0), 8), (Quad(169, 254, 0, 0), 16), (Quad(224, 0, 0, 0), 4), (Quad(240, 0, 0, 0), 4),
    (Quad(100, 100, 100, 200), 32), (Quad(192, 0, 0, 192), 32)
  ]

  /** The IPv6 cloud-metadata endpoints: fd00:ec2::254, fd20:ce::254, fd00:c1::a9fe:a9fe. */
  const HARD_FLOOR_IPV6_ADDRESSES: seq<Groups> := [
    [0xfd00, 0xec2, 0, 0, 0, 0, 0, 0x254],
    [0xfd20, 0xce, 0, 0, 0, 0, 0, 0x254],
    [0xfd00, 0xc1, 0, 0, 0, 0, 0xa9fe, 0xa9fe]
  ]

  const IPV4_LOOPBACK_START: nat := 127 * 0x1000000
  const IPV4_LOOPBACK_END: nat := 128 * 0x1000000
  const IPV6_LOOPBACK: Groups := [0, 0, 0, 0, 0, 0, 0, 1]

  type Prefix = p: nat | p <= 128
  datatype Form = Form(groups: Groups, prefix: Prefix)

  const IPV6_TRANSITION_PREFIXES: seq<Form> := [
    Form([0, 0, 0, 0, 0, 0xffff, 0, 0], 96),
    Form([0, 0, 0, 0, 0xffff, 0, 0, 0], 96),
    Form([0, 0, 0, 0, 0, 0, 0, 0], 96),
    Form([0x64, 0xff9b, 0, 0, 0, 0, 0, 0], 96),
    Form([0x64, 0xff9b, 1, 0, 0, 0, 0, 0], 48),
    Form([0x2002, 0, 0, 0, 0, 0, 0, 0], 16)
  ]

  // ---------- address classes ----------

  /** What a text names once a zone is cut off: an IPv4 number, IPv6 groups, or no address. */
  datatype Address = V4(value: nat) | V6(groups: Groups) | Malformed

  function StripZone(ip: string): string {
    if ip == [] || ip[0] == '%' then [] else [ip[0]] + StripZone(ip[1..])
  }

  function Read(ip: string): (a: Address)
    ensures a.V4? ==> a.value < IPV4_LIMIT
  {
    var address := StripZone(ip);
    if IsIP(address) == 4 && ParseIPv4(address).Some? then V4(ParseIPv4(address).value)
    else if IsIP(address) == 6 && ParseIPv6(address).Some? then V6(ParseIPv6(address).value)
    else Malformed
  }

  predicate InRange(value: nat, range: (nat, nat)) {
    range.1 <= 32 && range.0 <= value < range.0 + Pow2(32 - range.1)
  }

  predicate InRanges(value: nat, ranges: seq<(nat, nat)>) {
    exists i :: 0 <= i < |ranges| && InRange(value, ranges[i])
  }

  predicate IsBlockedIPv4(value: nat) { InRanges(value, BLOCKED_IPV4_RANGES) }

  predicate IsBlockedIPv6(g: Groups) {
    if g[0] == 0x64 && g[1] == 0xff9b && g[2] == 0 && g[3] == 0 && g[4] == 0 && g[5] == 0 then
      IsBlockedIPv4(g[6] * 65536 + g[7])
    else if And(g[0], 0xe000) != 0x2000 then true
    else if g[0] == 0x2001 && g[1] < 0x0200 then true
    else if g[0] == 0x2001 && g[1] == 0x0db8 then true
    else if g[0] == 0x3fff && And(g[1], 0xf000) == 0 then true
    else if g[0] == 0x2002 then IsBlockedIPv4(g[1] * 65536 + g[2])
    else false
  }

  /** The IPv4 address an IPv6 transition form carries (section 2.1 of RFC 6052, section 2 of RFC 3056). */
  function EmbeddedIPv4(g: Groups): (r: Option<nat>)
    ensures r.Some? ==> r.value < IPV4_LIMIT
  {
    var tail := g[6] * 65536 + g[7];
    var zeroPrefix := g[0] == 0 && g[1] == 0 && g[2] == 0 && g[3] == 0;
    if zeroPrefix && g[4] == 0 && (g[5] == 0xffff || g[5] == 0) then
      if g[5] == 0 && tail == 1 then None else Some(tail)
    else if zeroPrefix && g[4] == 0xffff && g[5] == 0 then Some(tail)
    else if g[0] == 0x64 && g[1] == 0xff9b && ((g[2] == 0 && g[3] == 0 && g[4] == 0 && g[5] == 0) || g[2] == 1) then
      Some(tail)
    else if g[0] == 0x2002 then Some(g[1] * 65536 + g[2])
    else None
  }

  predicate IsPrivateOrReserved(ip: string) {
    match Read(ip)
    case V4(value) => IsBlockedIPv4(value)
    case V6(g) => IsBlockedIPv6(g)
    case Malformed => true
  }

  predicate HardBlockedGroups(g: Groups) {
    || And(g[0], 0xffc0) == 0xfe80
    || And(g[0], 0xff00) == 0xff00
    || g in HARD_FLOOR_IPV6_ADDRESSES
    || (EmbeddedIPv4(g).Some? && InRanges(EmbeddedIPv4(g).value, HARD_FLOOR_IPV4_RANGES))
  }

  predicate IsHardBlocked(ip: string) {
    match Read(ip)
    case V4(value) => InRanges(value, HARD_FLOOR_IPV4_RANGES)
    case V6(g) => HardBlockedGroups(g)
    case Malformed => true
  }

  predicate IsIPv4Loopback(value: nat) { IPV4_LOOPBACK_START <= value < IPV4_LOOPBACK_END }

  predicate EmbedsLoopback(g: Groups) { EmbeddedIPv4(g).Some? && IsIPv4Loopback(EmbeddedIPv4(g).value) }

  predicate IsEmbeddedIPv4Loopback(ip: string) { Read(ip).V6? && EmbedsLoopback(Read(ip).groups) }

  // ---------- the compiled allowlist ----------

  datatype Cidr = Cidr4(value: nat, prefix: nat) | Cidr6(groups: Groups, prefix6: Prefix)

  datatype Range4 = Range4(start: nat, size: nat, loopbackOnly: bool)
  datatype Range6 = Range6(groups: Groups, prefix: Prefix, loopbackOnly: bool)
  datatype Ranges = Ranges(v4: seq<Range4>, v6: seq<Range6>)

  predicate IsPrefixText(text: string) { 1 <= |text| <= 3 && Numeral(text, 10) }

  /** parseAllowlistCidr; the error names the entry. */
  function ParseAllowlistCidr(entry: string): (r: Result<Cidr, string>)
    ensures r.Ok? && r.value.Cidr4? ==> r.value.value < IPV4_LIMIT && r.value.prefix <= 32
  {
    var parts := Split(entry, "/");
    var address := parts[0];
    var version := if '%' in address then 0 else IsIP(address);
    var bits := if version == 4 then 32 else 128;
    var prefixText := if |parts| > 1 then parts[1] else ToBase(bits, 10);
    if version == 0 || |parts| > 2 || !IsPrefixText(prefixText) || FromBase(prefixText, 10) > bits then Err(entry)
    else
      var prefix := FromBase(prefixText, 10);
      if version == 4 then
        match ParseIPv4(address)
        case None => Err(entry)
        case Some(value) => if value % Pow2(32 - prefix) != 0 then Err(entry) else Ok(Cidr4(value, prefix))
      else
        match ParseIPv6(address)
        case None => Err(entry)
        case Some(groups) => if !NoHostBits(groups, prefix) then Err(entry) else Ok(Cidr6(groups, prefix))
  }

  function CompileCidr4(value: nat, prefix: nat): Range4
    requires prefix <= 32
  {
    var size := Pow2(32 - prefix);
    Range4(value, size, value >= IPV4_LOOPBACK_START && value + size <= IPV4_LOOPBACK_END)
  }

  function CompileCidr6(groups: Groups, prefix: Prefix): Range6 {
    Range6(groups, prefix, prefix == 128 && groups == IPV6_LOOPBACK)
  }

  /** The ranges of every entry, in order, or the first malformed entry. */
  function Compile(cidrs: seq<string>): Result<Ranges, string> {
    if cidrs == [] then Ok(Ranges([], []))
    else
      match Compile(cidrs[..|cidrs| - 1])
      case Err(entry) => Err(entry)
      case Ok(ranges) =>
        match ParseAllowlistCidr(cidrs[|cidrs| - 1])
        case Err(entry) => Err(entry)
        case Ok(Cidr4(value, prefix)) => Ok(ranges.(v4 := ranges.v4 + [CompileCidr4(value, prefix)]))
        case Ok(Cidr6(groups, prefix)) => Ok(ranges.(v6 := ranges.v6 + [CompileCidr6(groups, prefix)]))
  }

  /** The loop of compileAllowlist over the CIDR entries. */
  method CompileCidrs(cidrs: seq<string>) returns (r: Result<Ranges, string>)
    ensures r == Compile(cidrs)
  {
    var v4: seq<Range4>, v6: seq<Range6> := [], [];
    for i := 0 to |cidrs|
      invariant Compile(cidrs[..i]) == Ok(Ranges(v4, v6))
    {
      assert cidrs[..i + 1][..i] == cidrs[..i];
      var cidr := ParseAllowlistCidr(cidrs[i]);
      match cidr {
        case Err(entry) =>
          CompileFailsEarly(cidrs, i + 1);
          return Err(entry);
        case Ok(Cidr4(value, prefix)) => v4 := v4 + [CompileCidr4(value, prefix)];
        case Ok(Cidr6(groups, prefix)) => v6 := v6 + [CompileCidr6(groups, prefix)];
      }
    }
    assert cidrs[..|cidrs|] == cidrs;
    return Ok(Ranges(v4, v6));
  }

  lemma {:induction false} CompileFailsEarly(cidrs: seq<string>, n: nat)
    requires n <= |cidrs| && Compile(cidrs[..n]).Err?
    ensures Compile(cidrs) == Compile(cidrs[..n])
  {
    if n < |cidrs| {
      var front := cidrs[..|cidrs| - 1];
      assert front[..n] == cidrs[..n];
      CompileFailsEarly(front, n);
    } else {
      assert cidrs[..n] == cidrs;
    }
  }

  /** The entry's own range is r. */
  predicate Gives4(entry: string, r: Range4) {
    match ParseAllowlistCidr(entry)
    case Ok(Cidr4(value, prefix)) => r == CompileCidr4(value, prefix)
    case _ => false
  }

  predicate Gives6(entry: string, r: Range6) {
    match ParseAllowlistCidr(entry)
    case Ok(Cidr6(groups, prefix)) => r == CompileCidr6(groups, prefix)
    case _ => false
  }

  predicate Listed4(cidrs: seq<string>, r: Range4) { exists i :: 0 <= i < |cidrs| && Gives4(cidrs[i], r) }
  predicate Listed6(cidrs: seq<string>, r: Range6) { exists i :: 0 <= i < |cidrs| && Gives6(cidrs[i], r) }

  /** Compiling succeeds exactly when every entry parses, and then holds exactly the ranges of the entries. */
  lemma {:induction false} CompileSpec(cidrs: seq<string>)
    ensures Compile(cidrs).Ok? <==> forall i :: 0 <= i < |cidrs| ==> ParseAllowlistCidr(cidrs[i]).Ok?
    ensures Compile(cidrs).Ok? ==> forall r :: r in Compile(cidrs).value.v4 <==> Listed4(cidrs, r)
    ensures Compile(cidrs).Ok? ==> forall r :: r in Compile(cidrs).value.v6 <==> Listed6(cidrs, r)
  {
    hide ParseAllowlistCidr, CompileCidr4, CompileCidr6;
    if cidrs != [] {
      var n := |cidrs| - 1;
      var front, last := cidrs[..n], cidrs[n];
      CompileSpec(front);
      assert forall i :: 0 <= i < n ==> front[i] == cidrs[i];
      forall r: Range4 ensures Listed4(cidrs, r) <==> Listed4(front, r) || Gives4(last, r) {
        if Listed4(cidrs, r) { var i :| 0 <= i < |cidrs| && Gives4(cidrs[i], r); assert i < n ==> front[i] == cidrs[i]; }
      }
      forall r: Range6 ensures Listed6(cidrs, r) <==> Listed6(front, r) || Gives6(last, r) {
        if Listed6(cidrs, r) { var i :| 0 <= i < |cidrs| && Gives6(cidrs[i], r); assert i < n ==> front[i] == cidrs[i]; }
      }
    }
  }

  // ---------- host names ----------

  predicate IsLabelChar(c: char) { 'a' <= c <= 'z' || '0' <= c <= '9' || c == '_' || c == '-' }

  /** One or more of the characters a host-name label may hold. */
  predicate IsLabel(part: string) { part != [] && forall i :: 0 <= i < |part| ==> IsLabelChar(part[i]) }

  /** One trailing dot is tolerated. */
  function DropDot(name: string): string {
    if name != [] && name[|name| - 1] == '.' then name[..|name| - 1] else name
  }

  /** normaliseAllowlistedName; the error names the entry. */
  function NormaliseName(entry: string): Result<string, string> {
    var name := DropDot(Lower(entry));
    var labels := Split(name, ".");
    if !(forall i :: 0 <= i < |labels| ==> IsLabel(labels[i])) then Err(entry)
    else if |name| > MAX_HOST_NAME_LENGTH || exists i :: 0 <= i < |labels| && |labels[i]| > MAX_LABEL_LENGTH then
      Err(entry)
    else Ok(name)
  }

  // ---------- admission ----------

  /** IPV6_TRANSITION_PREFIXES.find: the first form, from index i on, whose prefix holds the address. */
  function FindForm(g: Groups, i: nat): (r: Option<Form>)
    requires i <= |IPV6_TRANSITION_PREFIXES|
    ensures r.Some? ==> r.value in IPV6_TRANSITION_PREFIXES && SameNetwork(g, r.value.groups, r.value.prefix)
    decreases |IPV6_TRANSITION_PREFIXES| - i
  {
    if i == |IPV6_TRANSITION_PREFIXES| then None
    else
      var form := IPV6_TRANSITION_PREFIXES[i];
      if SameNetwork(g, form.groups, form.prefix) then Some(form) else FindForm(g, i + 1)
  }

  function Transition(g: Groups): Option<Form> {
    if EmbeddedIPv4(g).None? then None else FindForm(g, 0)
  }

  predicate Admits4(value: nat, range: Range4) {
    range.start <= value < range.start + range.size && (IsIPv4Loopback(value) ==> range.loopbackOnly)
  }

  predicate Admits6(g: Groups, range: Range6) {
    && SameNetwork(g, range.groups, range.prefix)
    && (g == IPV6_LOOPBACK || EmbedsLoopback(g) ==> range.loopbackOnly)
    && (var form := Transition(g);
        form.Some? ==>
          range.prefix >= form.value.prefix && SameNetwork(range.groups, form.value.groups, form.value.prefix))
  }

  /** isAllowlistedAddress, on the compiled address ranges. */
  predicate IsAllowlisted(ip: string, ranges: Ranges) {
    && !IsHardBlocked(ip)
    && match Read(ip)
       case V4(value) => exists i :: 0 <= i < |ranges.v4| && Admits4(value, ranges.v4[i])
       case V6(g) => exists i :: 0 <= i < |ranges.v6| && Admits6(g, ranges.v6[i])
       case Malformed => false
  }

  /** Whether the "address" remedy is offered for one refused address. */
  predicate AddressRemedy(ip: string) { !IsHardBlocked(ip) && !IsEmbeddedIPv4Loopback(ip) }

  /** The address decision of a guarded lookup. */
  predicate IsRefused(ip: string, ranges: Ranges) { IsPrivateOrReserved(ip) && !IsAllowlisted(ip, ranges) }

  // ---------- the guarded lookup ----------

  datatype Resolved = Resolved(address: string, family: nat)

  datatype LookupResult =
    | Refused(named: seq<string>, unnamed: nat, remedy: bool)
    | NotFound
    | Connect(addresses: seq<Resolved>)

  /** The refused addresses of an answer, each once, in the order they first appear. */
  function RefusedAddresses(answers: seq<Resolved>, ranges: Ranges): seq<string> {
    if answers == [] then []
    else
      var n := |answers| - 1;
      var before, ip := RefusedAddresses(answers[..n], ranges), answers[n].address;
      if IsRefused(ip, ranges) && ip !in before then before + [ip] else before
  }

  function Addresses(answers: seq<Resolved>): set<string> {
    set a | a in answers :: a.address
  }

  /** Exactly the refused addresses of the answer, each once. */
  lemma {:induction false} RefusedSpec(answers: seq<Resolved>, ranges: Ranges)
    ensures var b := RefusedAddresses(answers, ranges);
      && (forall ip :: ip in b <==> ip in Addresses(answers) && IsRefused(ip, ranges))
      && (forall i, j :: 0 <= i < j < |b| ==> b[i] != b[j])
  {
    hide IsRefused;
    if answers != [] {
      var n := |answers| - 1;
      RefusedSpec(answers[..n], ranges);
      assert answers == answers[..n] + [answers[n]];
      assert Addresses(answers) == Addresses(answers[..n]) + {answers[n].address};
    }
  }

  function OfFamily(answers: seq<Resolved>, family: nat): (u: seq<Resolved>)
    ensures forall a :: a in u <==> a in answers && a.family == family
  {
    if answers == [] then []
    else if answers[0].family == family then [answers[0]] + OfFamily(answers[1..], family)
    else OfFamily(answers[1..], family)
  }

  /** Filtering keeps the order: it can be done part by part. */
  lemma {:induction false} FamilyInOrder(a: seq<Resolved>, b: seq<Resolved>, family: nat)
    ensures OfFamily(a + b, family) == OfFamily(a, family) + OfFamily(b, family)
  {
    if a == [] {
      assert a + b == b;
    } else {
      FamilyInOrder(a[1..], b, family);
      assert (a + b)[0] == a[0] && (a + b)[1..] == a[1..] + b;
    }
  }

  /** Some answer has the one address, and no answer up to it has the other. */
  ghost predicate AppearsFirst(answers: seq<Resolved>, ip: string, later: string) {
    exists k :: 0 <= k < |answers| && answers[k].address == ip && later !in Addresses(answers[..k + 1])
  }

  /** The refused addresses come in the order in which they first appear. */
  lemma {:induction false} RefusedInOrder(answers: seq<Resolved>, ranges: Ranges, i: nat, j: nat)
    requires i < j < |RefusedAddresses(answers, ranges)|
    ensures var b := RefusedAddresses(answers, ranges); AppearsFirst(answers, b[i], b[j])
  {
    hide IsRefused, Addresses;
    var n := |answers| - 1;
    var front := RefusedAddresses(answers[..n], ranges);
    if j < |front| {
      RefusedInOrder(answers[..n], ranges, i, j);
      var k :| 0 <= k < n && answers[..n][k].address == front[i] && front[j] !in Addresses(answers[..n][..k + 1]);
      assert answers[..n][..k + 1] == answers[..k + 1];
    } else {
      RefusedSpec(answers[..n], ranges);
      assert IsRefused(answers[n].address, ranges) && answers[n].address !in front;
      var k := Appearance(answers[..n], front[i]);
      AppearsEarlier(answers, k, n);
    }
  }

  lemma Appearance(answers: seq<Resolved>, ip: string) returns (k: nat)
    requires ip in Addresses(answers)
    ensures k < |answers| && answers[k].address == ip
  {
    var a :| a in answers && a.address == ip;
    k :| k < |answers| && answers[k] == a;
  }

  lemma AppearsEarlier(answers: seq<Resolved>, k: nat, n: nat)
    requires k < n < |answers| && answers[n].address !in Addresses(answers[..n])
    ensures AppearsFirst(answers, answers[k].address, answers[n].address)
  {
    assert forall a :: a in answers[..k + 1] ==> a in answers[..n];
    assert answers[n].address !in Addresses(answers[..k + 1]);
  }

  function BlockedAnswer(blocked: seq<string>): LookupResult {
    var named := if |blocked| <= MAX_NAMED_ADDRESSES then blocked else blocked[..MAX_NAMED_ADDRESSES];
    var unnamed := |blocked| - |named|;
    Refused(named, unnamed, unnamed == 0 && forall i :: 0 <= i < |blocked| ==> AddressRemedy(blocked[i]))
  }

  /** What createGuardedLookup answers once the name has resolved; family 0 asks for either. */
  function GuardedLookup(answers: seq<Resolved>, ranges: Ranges, family: nat, all: bool): LookupResult {
    var blocked := RefusedAddresses(answers, ranges);
    if blocked != [] then BlockedAnswer(blocked)
    else
      var usable := if family == 0 then answers else OfFamily(answers, family);
      if usable == [] then NotFound else if all then Connect(usable) else Connect([usable[0]])
  }

  /** The first answer of the family asked for. */
  predicate FirstFit(answers: seq<Resolved>, family: nat, i: int) {
    && 0 <= i < |answers| && (family == 0 || answers[i].family == family)
    && forall k :: 0 <= k < i ==> family != 0 && answers[k].family != family
  }

  lemma {:induction false} FirstOfFamily(answers: seq<Resolved>, family: nat)
    requires family != 0 && OfFamily(answers, family) != []
    ensures exists i :: FirstFit(answers, family, i) && answers[i] == OfFamily(answers, family)[0]
  {
    if answers[0].family == family {
      assert FirstFit(answers, family, 0);
    } else {
      var more := answers[1..];
      FirstOfFamily(more, family);
      var i :| FirstFit(more, family, i) && more[i] == OfFamily(more, family)[0];
      assert answers[i + 1] == more[i] && forall k :: 0 < k < i + 1 ==> answers[k] == more[k - 1];
      assert FirstFit(answers, family, i + 1);
    }
  }

  /** The addresses of an answer that are refused. */
  function RefusedSet(answers: seq<Resolved>, ranges: Ranges): set<string> {
    set a | a in answers && IsRefused(a.address, ranges) :: a.address
  }

  lemma {:induction false} DistinctSize(names: seq<string>)
    requires forall i, j :: 0 <= i < j < |names| ==> names[i] != names[j]
    ensures |set n | n in names| == |names|
  {
    if names != [] {
      DistinctSize(names[1..]);
      assert (set n | n in names) == (set n | n in names[1..]) + {names[0]};
    }
  }

  lemma RefusedSize(answers: seq<Resolved>, ranges: Ranges)
    ensures (set ip | ip in RefusedAddresses(answers, ranges)) == RefusedSet(answers, ranges)
    ensures |RefusedAddresses(answers, ranges)| == |RefusedSet(answers, ranges)|
  {
    hide IsRefused;
    RefusedSpec(answers, ranges);
    DistinctSize(RefusedAddresses(answers, ranges));
  }

  /**
   * A lookup connects exactly when no address of the answer is refused and one is of the family asked for, and then gives
   * the first such, or all of them; with none of that family nothing is found. Otherwise it names up to eight of the refused
   * addresses, counts the rest, and offers the remedy exactly when none is left out and each may be listed.
   */
  lemma LookupExactly(answers: seq<Resolved>, ranges: Ranges, family: nat, all: bool)
    ensures var r, refused := GuardedLookup(answers, ranges, family, all), RefusedSet(answers, ranges);
      var fits := (a: Resolved) => family == 0 || a.family == family;
      if refused == {} then
        && (r.Connect? <==> exists a :: a in answers && fits(a)) && (r.NotFound? <==> !r.Connect?)
        && (r.Connect? && all ==> forall a :: a in r.addresses <==> a in answers && fits(a))
        && (r.Connect? && !all ==>
              |r.addresses| == 1 && exists i :: FirstFit(answers, family, i) && r.addresses[0] == answers[i])
      else
        && r.Refused? && |r.named| + r.unnamed == |refused| && |r.named| == (if |refused| < 8 then |refused| else 8)
        && (forall ip :: ip in r.named ==> ip in refused)
        && (forall i, j :: 0 <= i < j < |r.named| ==> r.named[i] != r.named[j])
        && (r.remedy <==> |refused| <= 8 && forall ip :: ip in refused ==> !IsHardBlocked(ip) && !IsEmbeddedIPv4Loopback(ip))
  {
    hide IsRefused, IsHardBlocked, IsEmbeddedIPv4Loopback, RefusedAddresses, RefusedSet;
    RefusedSize(answers, ranges);
    RefusedSpec(answers, ranges);
    var blocked := RefusedAddresses(answers, ranges);
    if blocked == [] {
      if family != 0 && OfFamily(answers, family) != [] {
        assert OfFamily(answers, family)[0] in answers;
        FirstOfFamily(answers, family);
      } else if family == 0 && answers != [] {
        assert FirstFit(answers, family, 0) && answers[0] in answers;
      } else {
        assert family != 0 ==> forall a :: a in answers && a.family == family ==> a in OfFamily(answers, family);
      }
    } else {
      assert blocked[0] in RefusedSet(answers, ranges);
    }
  }

  // ---------- what the policy promises ----------

  lemma HighBits(g: nat)
    requires g < 0x10000
    ensures And(g, 0xe000) == 0x2000 <==> 0x2000 <= g < 0x4000
    ensures And(g, 0xffc0) == 0xfe80 <==> 0xfe80 <= g < 0xfec0
    ensures And(g, 0xff00) == 0xff00 <==> 0xff00 <= g
  {
    hide And;
    Masked(g, 13, 0x2000);
    Masked(g, 6, 0x40);
    Masked(g, 8, 0x100);
  }

  lemma Masked(g: nat, k: nat, p: nat)
    requires g < 0x10000 && k <= 16 && p == Pow2(k)
    ensures p <= 0x10000 && And(g, 0x10000 - p) == g - g % p
  {
    Pow2Values();
    AndHighMask(g, k, 16);
  }

  lemma RangeSizes()
    ensures Pow2(0) == 1 && Pow2(8) == 0x100 && Pow2(16) == 0x10000 && Pow2(20) == 0x100000
    ensures Pow2(22) == 0x400000 && Pow2(24) == 0x1000000 && Pow2(28) == 0x10000000
  {
    assert Pow2(12) == 0x1000;
    assert Pow2(20) == 0x100000;
  }

  /** Every IPv4 address of the hard floor is blocked space. */
  lemma HardFloorIPv4Blocked(value: nat)
    requires InRanges(value, HARD_FLOOR_IPV4_RANGES)
    ensures IsBlockedIPv4(value)
  {
    RangeSizes();
    var k :| 0 <= k < |HARD_FLOOR_IPV4_RANGES| && InRange(value, HARD_FLOOR_IPV4_RANGES[k]);
    var home := [0, 4, 13, 14, 2, 6];
    assert InRange(value, BLOCKED_IPV4_RANGES[home[k]]);
  }

  lemma HardFloorIPv6Blocked(g: Groups)
    requires HardBlockedGroups(g)
    ensures IsBlockedIPv6(g)
  {
    hide And, InRanges;
    HighBits(g[0]);
    if EmbeddedIPv4(g).Some? && InRanges(EmbeddedIPv4(g).value, HARD_FLOOR_IPV4_RANGES) {
      HardFloorIPv4Blocked(EmbeddedIPv4(g).value);
    }
  }

  /** The hard floor lies inside what is refused without an allowlist, in both families and every embedding. */
  lemma HardFloorReserved(ip: string)
    requires IsHardBlocked(ip)
    ensures IsPrivateOrReserved(ip)
  {
    hide Read, HardBlockedGroups, IsBlockedIPv6, IsBlockedIPv4, InRanges;
    match Read(ip) {
      case V4(value) => HardFloorIPv4Blocked(value);
      case V6(g) => HardFloorIPv6Blocked(g);
      case Malformed =>
    }
  }

  lemma {:induction false} ValueInjective(a: seq<nat>, b: seq<nat>)
    requires |a| == |b| && GroupSeq(a) && GroupSeq(b) && Value(a) == Value(b)
    ensures a == b
  {
    if a != [] {
      var n := |a| - 1;
      TwoDigits(Value(a[..n]), a[n], Value(b[..n]), b[n], 0x10000);
      ValueInjective(a[..n], b[..n]);
      assert a == a[..n] + [a[n]] && b == b[..n] + [b[n]];
    }
  }

  lemma FullPrefix(a: Groups, b: Groups)
    ensures SameNetwork(a, b, 128) <==> a == b
    ensures NoHostBits(a, 128)
  {
    assert Pow2(0) == 1;
    if SameNetwork(a, b, 128) {
      DivByOne(Value(a));
      DivByOne(Value(b));
      ValueInjective(a, b);
    }
  }

  /** No allowlist that compiles admits the hard floor or an IPv6 spelling of an IPv4 loopback address. */
  lemma NeverAdmitted(ip: string, cidrs: seq<string>)
    requires Compile(cidrs).Ok?
    requires IsHardBlocked(ip) || IsEmbeddedIPv4Loopback(ip)
    ensures !IsAllowlisted(ip, Compile(cidrs).value)
  {
    hide *;
    if IsHardBlocked(ip) {
      HardFloorNot(ip, Compile(cidrs).value);
    } else {
      EmbeddedRead(ip);
      forall r | r in Compile(cidrs).value.v6 ensures !Admits6(Read(ip).groups, r) {
        FromEntry(cidrs, r);
        LoopbackOnlyItself(cidrs, r, Read(ip).groups);
      }
      NoRangeAdmits(ip, Compile(cidrs).value);
    }
  }

  lemma HardFloorNot(ip: string, ranges: Ranges)
    requires IsHardBlocked(ip)
    ensures !IsAllowlisted(ip, ranges)
  {
  }

  lemma EmbeddedRead(ip: string)
    requires IsEmbeddedIPv4Loopback(ip)
    ensures Read(ip).V6? && EmbedsLoopback(Read(ip).groups)
  {
  }

  lemma FromEntry(cidrs: seq<string>, r: Range6)
    requires Compile(cidrs).Ok? && r in Compile(cidrs).value.v6
    ensures Listed6(cidrs, r)
  {
    hide Compile, Listed6;
    CompileSpec(cidrs);
  }

  lemma NoRangeAdmits(ip: string, ranges: Ranges)
    requires Read(ip).V6? && forall r :: r in ranges.v6 ==> !Admits6(Read(ip).groups, r)
    ensures !IsAllowlisted(ip, ranges)
  {
    hide Read, Admits6, Admits4, IsHardBlocked;
  }

  /** A listed range that may admit loopback holds the one address ::1, which embeds no IPv4 address. */
  lemma LoopbackOnlyItself(cidrs: seq<string>, r: Range6, g: Groups)
    requires Listed6(cidrs, r) && EmbedsLoopback(g)
    ensures !Admits6(g, r)
  {
    hide ParseAllowlistCidr, SameNetwork;
    if Admits6(g, r) { FullPrefix(g, IPV6_LOOPBACK); }
  }

  // ---------- admission, from the entries alone ----------

  /** The entry's network holds the address, of its own family. */
  predicate EntryCovers(c: Cidr, a: Address) {
    match (c, a)
    case (Cidr4(value, prefix), V4(x)) => prefix <= 32 && x / Pow2(32 - prefix) == value / Pow2(32 - prefix)
    case (Cidr6(groups, prefix), V6(g)) => SameNetwork(g, groups, prefix)
    case _ => false
  }

  /** 127.0.0.0/8, ::1, and every IPv6 spelling of the former. */
  predicate IsLoopback(a: Address) {
    match a
    case V4(x) => x / 0x1000000 == 127
    case V6(g) => g == IPV6_LOOPBACK || (EmbeddedIPv4(g).Some? && EmbeddedIPv4(g).value / 0x1000000 == 127)
    case Malformed => false
  }

  /** The entry is about loopback and nothing else: it lies in 127.0.0.0/8, or is ::1/128. */
  predicate LoopbackEntry(c: Cidr) {
    match c
    case Cidr4(value, prefix) => prefix >= 8 && value / 0x1000000 == 127
    case Cidr6(groups, prefix) => prefix == 128 && groups == IPV6_LOOPBACK
  }

  /** Where an address carries an IPv4 one, the entry names that transition form and not a wider network. */
  predicate WithinForm(c: Cidr, a: Address) {
    a.V6? && Transition(a.groups).Some? ==>
      var form := Transition(a.groups).value;
      c.Cidr6? && c.prefix6 >= form.prefix && SameNetwork(c.groups, form.groups, form.prefix)
  }

  predicate EntryAdmits(c: Cidr, a: Address) {
    EntryCovers(c, a) && (IsLoopback(a) ==> LoopbackEntry(c)) && WithinForm(c, a)
  }

  /** A block of addresses ends inside 127.0.0.0/8 exactly when it starts there and is no larger. */
  lemma BlockInLoopback(value: nat, prefix: nat)
    requires prefix <= 32 && value % Pow2(32 - prefix) == 0
    ensures value >= IPV4_LOOPBACK_START && value + Pow2(32 - prefix) <= IPV4_LOOPBACK_END
      <==> prefix >= 8 && value / 0x1000000 == 127
  {
    hide Pow2;
    Pow2Values();
    var size := Pow2(32 - prefix);
    if prefix >= 8 {
      Pow2Add(32 - prefix, prefix - 8);
      var q, r := QuotientParts(value, size);
      var more := Pow2(prefix - 8);
      BlockEnds(q, size, 128 * more, value);
      assert 128 * more * size == 0x80000000 by { Associate(more, 128, size); }
    } else {
      Pow2Monotone(25, 32 - prefix);
      Pow2Step(25);
    }
  }

  lemma BlockEnds(q: nat, size: nat, m: nat, value: nat)
    requires size > 0 && value == size * q
    ensures value < m * size <==> value + size <= m * size
  {
    if q < m { Monotone(q + 1, m, size); } else { Monotone(m, q, size); }
  }

  lemma Cidr4Aligned(entry: string)
    ensures var c := ParseAllowlistCidr(entry);
      c.Ok? && c.value.Cidr4? ==> c.value.prefix <= 32 && c.value.value % Pow2(32 - c.value.prefix) == 0
  {
    hide IsIP, ParseIPv4, ParseIPv6, Split, ToBase, FromBase, Pow2;
  }

  /** A range that reaches beyond loopback opens no loopback address, however wide it is. */
  lemma LoopbackStaysClosed(value: nat, base: nat, prefix: nat)
    requires prefix <= 32 && 127 * 0x1000000 <= value < 128 * 0x1000000
    ensures Admits4(value, CompileCidr4(base, prefix)) ==>
      127 * 0x1000000 <= base && base + Pow2(32 - prefix) <= 128 * 0x1000000
  {
    hide Pow2;
  }

  lemma Admits4Exactly(x: nat, entry: string)
    requires ParseAllowlistCidr(entry).Ok? && ParseAllowlistCidr(entry).value.Cidr4?
    ensures var c := ParseAllowlistCidr(entry).value;
      Admits4(x, CompileCidr4(c.value, c.prefix)) <==> EntryAdmits(c, V4(x))
  {
    hide ParseAllowlistCidr, Pow2;
    Cidr4Aligned(entry);
    var c := ParseAllowlistCidr(entry).value;
    SameBlock(c.value, x, Pow2(32 - c.prefix));
    BlockInLoopback(c.value, c.prefix);
  }

  lemma Admits6Exactly(g: Groups, c: Cidr)
    requires c.Cidr6?
    ensures Admits6(g, CompileCidr6(c.groups, c.prefix6)) <==> EntryAdmits(c, V6(g))
  {
    hide SameNetwork, Transition, EmbeddedIPv4;
  }

  /**
   * An address is allowlisted exactly when it is not on the hard floor and some entry of its own family covers it, which, if
   * it is a loopback address, is about loopback alone, and, if it carries an IPv4 address, names that form.
   */
  lemma AdmittedExactly(ip: string, cidrs: seq<string>)
    requires Compile(cidrs).Ok?
    ensures IsAllowlisted(ip, Compile(cidrs).value) <==>
      !IsHardBlocked(ip)
      && exists i :: 0 <= i < |cidrs| && ParseAllowlistCidr(cidrs[i]).Ok?
                     && EntryAdmits(ParseAllowlistCidr(cidrs[i]).value, Read(ip))
  {
    hide Compile, ParseAllowlistCidr, Admits4, Admits6, CompileCidr4, CompileCidr6, IsHardBlocked, Read, EntryAdmits;
    CompileSpec(cidrs);
    var ranges, a := Compile(cidrs).value, Read(ip);
    forall i | 0 <= i < |cidrs| && ParseAllowlistCidr(cidrs[i]).Ok?
      ensures EntryAdmits(ParseAllowlistCidr(cidrs[i]).value, a) ==>
        (a.V4? && exists r :: r in ranges.v4 && Admits4(a.value, r))
        || (a.V6? && exists r :: r in ranges.v6 && Admits6(a.groups, r))
    {
      EntryReaches(cidrs, i, a);
    }
    if a.V4? {
      forall r | r in ranges.v4 && Admits4(a.value, r)
        ensures exists i :: 0 <= i < |cidrs| && ParseAllowlistCidr(cidrs[i]).Ok?
                            && EntryAdmits(ParseAllowlistCidr(cidrs[i]).value, a)
      {
        var i :| 0 <= i < |cidrs| && Gives4(cidrs[i], r);
        Admits4Exactly(a.value, cidrs[i]);
      }
    } else if a.V6? {
      forall r | r in ranges.v6 && Admits6(a.groups, r)
        ensures exists i :: 0 <= i < |cidrs| && ParseAllowlistCidr(cidrs[i]).Ok?
                            && EntryAdmits(ParseAllowlistCidr(cidrs[i]).value, a)
      {
        var i :| 0 <= i < |cidrs| && Gives6(cidrs[i], r);
        Admits6Exactly(a.groups, ParseAllowlistCidr(cidrs[i]).value);
      }
    }
  }

  lemma EntryReaches(cidrs: seq<string>, i: nat, a: Address)
    requires Compile(cidrs).Ok? && i < |cidrs| && ParseAllowlistCidr(cidrs[i]).Ok?
    ensures EntryAdmits(ParseAllowlistCidr(cidrs[i]).value, a) ==>
      (a.V4? && exists r :: r in Compile(cidrs).value.v4 && Admits4(a.value, r))
      || (a.V6? && exists r :: r in Compile(cidrs).value.v6 && Admits6(a.groups, r))
  {
    hide Compile, ParseAllowlistCidr, Admits4, Admits6, CompileCidr4, CompileCidr6, IsLoopback, LoopbackEntry, WithinForm;
    hide SameNetwork, Pow2;
    CompileSpec(cidrs);
    var ranges := Compile(cidrs).value;
    match ParseAllowlistCidr(cidrs[i]).value {
      case Cidr4(value, prefix) =>
        var r := CompileCidr4(value, prefix);
        assert Gives4(cidrs[i], r) && Listed4(cidrs, r) && r in ranges.v4;
        if a.V4? { Admits4Exactly(a.value, cidrs[i]); }
      case Cidr6(groups, prefix) =>
        var r := CompileCidr6(groups, prefix);
        assert Gives6(cidrs[i], r) && Listed6(cidrs, r) && r in ranges.v6;
        if a.V6? { Admits6Exactly(a.groups, ParseAllowlistCidr(cidrs[i]).value); }
    }
  }

  // ---------- the address classes, octet by octet and group by group ----------

  lemma InRangesAt(value: nat, ranges: seq<(nat, nat)>, i: nat)
    requires i < |ranges| && InRange(value, ranges[i])
    ensures InRanges(value, ranges)
  {
  }

  /** What is refused in IPv4 without an allowlist, by the octets. */
  lemma BlockedIPv4Exactly(a: nat, b: nat, c: nat, d: nat)
    requires a < 256 && b < 256 && c < 256 && d < 256
    ensures IsBlockedIPv4(Quad(a, b, c, d)) <==>
      || a in {0, 10, 127} || a >= 224
      || (a == 100 && 64 <= b < 128) || (a == 169 && b == 254) || (a == 172 && 16 <= b < 32)
      || (a == 192 && b == 0 && c in {0, 2}) || (a == 192 && b == 88 && c == 99) || (a == 192 && b == 168)
      || (a == 198 && b in {18, 19}) || (a == 198 && b == 51 && c == 100) || (a == 203 && b == 0 && c == 113)
  {
    hide InRange, InRanges;
    BlockedRanges(a, b, c, d);
    var v, r := Quad(a, b, c, d), BLOCKED_IPV4_RANGES;
    assert InRanges(v, r) <==> exists i :: 0 <= i < |r| && InRange(v, r[i]) by { InRangesIs(v, r); }
    assert InRange(v, r[0]) || InRange(v, r[1]) || InRange(v, r[2]) || InRange(v, r[3]) || InRange(v, r[4])
      || InRange(v, r[5]) || InRange(v, r[6]) || InRange(v, r[7]) || InRange(v, r[8]) || InRange(v, r[9])
      || InRange(v, r[10]) || InRange(v, r[11]) || InRange(v, r[12]) || InRange(v, r[13]) || InRange(v, r[14])
      <==> exists i :: 0 <= i < |r| && InRange(v, r[i]);
  }

  lemma InRangesIs(value: nat, ranges: seq<(nat, nat)>)
    ensures InRanges(value, ranges) <==> exists i :: 0 <= i < |ranges| && InRange(value, ranges[i])
  {
  }

  lemma MoreRangeSizes()
    ensures Pow2(17) == 0x20000 && Pow2(20) == 0x100000 && Pow2(22) == 0x400000
  {
    Pow2Values();
    Pow2Step(17);
    RangeSizes();
  }

  lemma BlockedRanges(a: nat, b: nat, c: nat, d: nat)
    requires a < 256 && b < 256 && c < 256 && d < 256
    ensures var v, r := Quad(a, b, c, d), BLOCKED_IPV4_RANGES;
      && |r| == 15
      && (InRange(v, r[0]) <==> a == 0) && (InRange(v, r[1]) <==> a == 10)
      && (InRange(v, r[2]) <==> a == 100 && 64 <= b < 128) && (InRange(v, r[3]) <==> a == 127)
      && (InRange(v, r[4]) <==> a == 169 && b == 254) && (InRange(v, r[5]) <==> a == 172 && 16 <= b < 32)
      && (InRange(v, r[6]) <==> a == 192 && b == 0 && c == 0) && (InRange(v, r[7]) <==> a == 192 && b == 0 && c == 2)
      && (InRange(v, r[8]) <==> a == 192 && b == 88 && c == 99) && (InRange(v, r[9]) <==> a == 192 && b == 168)
      && (InRange(v, r[10]) <==> a == 198 && b in {18, 19}) && (InRange(v, r[11]) <==> a == 198 && b == 51 && c == 100)
      && (InRange(v, r[12]) <==> a == 203 && b == 0 && c == 113) && (InRange(v, r[13]) <==> 224 <= a < 240)
      && (InRange(v, r[14]) <==> a >= 240)
  {
    hide InRange;
    var v, r := Quad(a, b, c, d), BLOCKED_IPV4_RANGES;
    Range8(a, b, c, d, 0);
    Range8(a, b, c, d, 10);
    Range8(a, b, c, d, 127);
    Range16(a, b, c, d, 169, 254);
    Range16(a, b, c, d, 192, 168);
    Range24(a, b, c, d, 192, 0, 0);
    Range24(a, b, c, d, 192, 0, 2);
    Range24(a, b, c, d, 192, 88, 99);
    Range24(a, b, c, d, 198, 51, 100);
    Range24(a, b, c, d, 203, 0, 113);
    OddRanges(a, b, c, d);
  }

  lemma Range8(a: nat, b: nat, c: nat, d: nat, x: nat)
    requires a < 256 && b < 256 && c < 256 && d < 256
    ensures InRange(Quad(a, b, c, d), (Quad(x, 0, 0, 0), 8)) <==> a == x
  {
    hide Pow2;
    RangeSizes();
  }

  lemma Range16(a: nat, b: nat, c: nat, d: nat, x: nat, y: nat)
    requires a < 256 && b < 256 && c < 256 && d < 256 && y < 256
    ensures InRange(Quad(a, b, c, d), (Quad(x, y, 0, 0), 16)) <==> a == x && b == y
  {
    hide Pow2;
    RangeSizes();
  }

  lemma Range24(a: nat, b: nat, c: nat, d: nat, x: nat, y: nat, z: nat)
    requires a < 256 && b < 256 && c < 256 && d < 256 && y < 256 && z < 256
    ensures InRange(Quad(a, b, c, d), (Quad(x, y, z, 0), 24)) <==> a == x && b == y && c == z
  {
    hide Pow2;
    RangeSizes();
  }

  lemma OddRanges(a: nat, b: nat, c: nat, d: nat)
    requires a < 256 && b < 256 && c < 256 && d < 256
    ensures InRange(Quad(a, b, c, d), (Quad(100, 64, 0, 0), 10)) <==> a == 100 && 64 <= b < 128
    ensures InRange(Quad(a, b, c, d), (Quad(172, 16, 0, 0), 12)) <==> a == 172 && 16 <= b < 32
    ensures InRange(Quad(a, b, c, d), (Quad(198, 18, 0, 0), 15)) <==> a == 198 && b in {18, 19}
    ensures InRange(Quad(a, b, c, d), (Quad(224, 0, 0, 0), 4)) <==> 224 <= a < 240
    ensures InRange(Quad(a, b, c, d), (Quad(240, 0, 0, 0), 4)) <==> a >= 240
  {
    hide Pow2;
    RangeSizes();
    MoreRangeSizes();
  }


  /** And which of it no allowlist opens. */
  lemma HardFloorIPv4Exactly(a: nat, b: nat, c: nat, d: nat)
    requires a < 256 && b < 256 && c < 256 && d < 256
    ensures InRanges(Quad(a, b, c, d), HARD_FLOOR_IPV4_RANGES) <==>
      a == 0 || (a == 169 && b == 254) || a >= 224 || (a == 100 && b == 100 && c == 100 && d == 200)
      || (a == 192 && b == 0 && c == 0 && d == 192)
  {
    hide Pow2, InRanges;
    RangeSizes();
    var v, r := Quad(a, b, c, d), HARD_FLOOR_IPV4_RANGES;
    InRangesIs(v, r);
    assert (exists i :: 0 <= i < |r| && InRange(v, r[i])) <==>
      (InRange(v, r[0]) || InRange(v, r[1]) || InRange(v, r[2]) || InRange(v, r[3]) || InRange(v, r[4]) || InRange(v, r[5]));
  }

  // ---------- the same for IPv6, by its networks ----------

  lemma NetworkByGroups(a: Groups, b: Groups, prefix: Prefix)
    ensures SameNetwork(a, b, prefix) <==> forall i :: 0 <= i < 8 ==> GroupMatches(a, b, i, prefix)
  {
    hide GroupMatches, Value, Pow2;
    assert a[..8] == a && b[..8] == b;
    MatchByGroups(a, b, 8, prefix);
  }

  /** Whole groups below the prefix's must be equal, those beyond it do not matter. */
  lemma GroupAtPrefix(a: Groups, b: Groups, i: nat, prefix: Prefix)
    requires i < 8
    ensures 16 * i + 16 <= prefix ==> (GroupMatches(a, b, i, prefix) <==> a[i] == b[i])
    ensures 16 * i >= prefix ==> GroupMatches(a, b, i, prefix)
  {
    hide Pow2;
    Pow2Zero();
    Pow2Values();
    var h := HostBits(i, prefix);
    if h == 16 {
      RemainderUnique(a[i], 0x10000, 0, a[i]);
      RemainderUnique(b[i], 0x10000, 0, b[i]);
    }
  }

  lemma WholeNetwork(a: Groups, b: Groups, n: nat)
    requires n <= 8
    ensures SameNetwork(a, b, 16 * n) <==> forall i :: 0 <= i < n ==> a[i] == b[i]
  {
    hide SameNetwork, GroupMatches;
    NetworkByGroups(a, b, 16 * n);
    forall i | 0 <= i < 8 ensures GroupMatches(a, b, i, 16 * n) <==> (i < n ==> a[i] == b[i]) {
      GroupAtPrefix(a, b, i, 16 * n);
    }
  }

  lemma GroupInPrefix(a: Groups, b: Groups, n: nat, bits: nat)
    requires n < 8 && 0 < bits < 16
    ensures GroupMatches(a, b, n, 16 * n + bits) <==> a[n] / Pow2(16 - bits) == b[n] / Pow2(16 - bits)
  {
    hide Pow2;
    assert HostBits(n, 16 * n + bits) == 16 - bits;
  }

  lemma PartNetwork(a: Groups, b: Groups, n: nat, bits: nat)
    requires n < 8 && 0 < bits < 16
    ensures SameNetwork(a, b, 16 * n + bits) <==>
      (forall i :: 0 <= i < n ==> a[i] == b[i]) && a[n] / Pow2(16 - bits) == b[n] / Pow2(16 - bits)
  {
    hide SameNetwork, Pow2, GroupMatches;
    var prefix := 16 * n + bits;
    NetworkByGroups(a, b, prefix);
    forall i | 0 <= i < 8
      ensures GroupMatches(a, b, i, prefix) <==>
        if i < n then a[i] == b[i] else i == n ==> a[n] / Pow2(16 - bits) == b[n] / Pow2(16 - bits)
    {
      if i == n { GroupInPrefix(a, b, n, bits); } else { GroupAtPrefix(a, b, i, prefix); }
    }
    assert GroupMatches(a, b, n, prefix) <==> a[n] / Pow2(16 - bits) == b[n] / Pow2(16 - bits);
  }

  function Net(a: nat, b: nat, c: nat): Groups
    requires a < 0x10000 && b < 0x10000 && c < 0x10000
  {
    [a, b, c, 0, 0, 0, 0, 0]
  }

  const NAT64: Groups := [0x64, 0xff9b, 0, 0, 0, 0, 0, 0]

  /**
   * What is refused in IPv6 without an allowlist: everything but global unicast 2000::/3, and in it 2001::/23,
   * 2001:db8::/32, 3fff::/20 and the 6to4 addresses that carry a refused IPv4 one; so is the NAT64 network 64:ff9b::/96.
   */
  lemma BlockedIPv6Exactly(g: Groups)
    ensures IsBlockedIPv6(g) <==>
      if SameNetwork(g, NAT64, 96) then IsBlockedIPv4(g[6] * 0x10000 + g[7])
      else
        || !SameNetwork(g, Net(0x2000, 0, 0), 3) || SameNetwork(g, Net(0x2001, 0, 0), 23)
        || SameNetwork(g, Net(0x2001, 0xdb8, 0), 32) || SameNetwork(g, Net(0x3fff, 0, 0), 20)
        || (SameNetwork(g, Net(0x2002, 0, 0), 16) && IsBlockedIPv4(g[1] * 0x10000 + g[2]))
  {
    hide SameNetwork, IsBlockedIPv4, And, Pow2;
    WholeNetwork(g, NAT64, 6);
    PartNetwork(g, Net(0x2000, 0, 0), 0, 3);
    PartNetwork(g, Net(0x2001, 0, 0), 1, 7);
    WholeNetwork(g, Net(0x2001, 0xdb8, 0), 2);
    PartNetwork(g, Net(0x3fff, 0, 0), 1, 4);
    WholeNetwork(g, Net(0x2002, 0, 0), 1);
    PowersInGroup();
    HighBits(g[0]);
    DocumentationBits(g[1]);
  }

  lemma PowersInGroup()
    ensures Pow2(13) == 0x2000 && Pow2(9) == 0x200 && Pow2(12) == 0x1000 && Pow2(6) == 0x40 && Pow2(8) == 0x100
  {
    assert Pow2(6) == 0x40;
    assert Pow2(9) == 0x200;
    assert Pow2(12) == 0x1000;
  }

  lemma DocumentationBits(g: nat)
    requires g < 0x10000
    ensures And(g, 0xf000) == 0 <==> g < 0x1000
  {
    PowersInGroup();
    Masked(g, 12, 0x1000);
  }

  /** The hard floor in IPv6: fe80::/10, ff00::/8, the metadata addresses, and what carries an IPv4 address of the floor. */
  lemma HardFloorIPv6Exactly(g: Groups)
    ensures HardBlockedGroups(g) <==>
      || SameNetwork(g, Net(0xfe80, 0, 0), 10) || SameNetwork(g, Net(0xff00, 0, 0), 8) || g in HARD_FLOOR_IPV6_ADDRESSES
      || (EmbeddedIPv4(g).Some? && InRanges(EmbeddedIPv4(g).value, HARD_FLOOR_IPV4_RANGES))
  {
    hide SameNetwork, InRanges, EmbeddedIPv4, And, Pow2;
    PartNetwork(g, Net(0xfe80, 0, 0), 0, 10);
    PartNetwork(g, Net(0xff00, 0, 0), 0, 8);
    PowersInGroup();
    HighBits(g[0]);
  }

  /** Which networks carry an IPv4 address, and where: ::ffff:0:0/96, ::/96 but for ::1, ::ffff:0:0:0/96, NAT64, 6to4. */
  lemma EmbeddedExactly(g: Groups)
    ensures EmbeddedIPv4(g) ==
      if SameNetwork(g, Net(0x2002, 0, 0), 16) then Some(g[1] * 0x10000 + g[2])
      else if g != IPV6_LOOPBACK
        && (SameNetwork(g, Net(0, 0, 0), 96) || SameNetwork(g, [0, 0, 0, 0, 0, 0xffff, 0, 0], 96)
            || SameNetwork(g, [0, 0, 0, 0, 0xffff, 0, 0, 0], 96)
            || SameNetwork(g, NAT64, 96) || SameNetwork(g, Net(0x64, 0xff9b, 1), 48))
      then Some(g[6] * 0x10000 + g[7])
      else None
  {
    hide SameNetwork;
    WholeNetwork(g, Net(0x2002, 0, 0), 1);
    WholeNetwork(g, Net(0, 0, 0), 6);
    WholeNetwork(g, [0, 0, 0, 0, 0, 0xffff, 0, 0], 6);
    WholeNetwork(g, [0, 0, 0, 0, 0xffff, 0, 0, 0], 6);
    WholeNetwork(g, NAT64, 6);
    WholeNetwork(g, Net(0x64, 0xff9b, 1), 3);
    if g == IPV6_LOOPBACK {
      assert g[0] == 0;
    } else if g[0] == 0 && g[1] == 0 && g[2] == 0 && g[3] == 0 && g[4] == 0 && g[5] == 0 {
      assert g[6] == 0 ==> g[7] != 1 by { assert g == [g[0], g[1], g[2], g[3], g[4], g[5], g[6], g[7]]; }
    }
  }

  /** The form an allowlist entry must name is there exactly for the addresses that carry one. */
  lemma FormExactly(g: Groups)
    ensures Transition(g).Some? <==> EmbeddedIPv4(g).Some?
    ensures Transition(g).Some? ==>
      Transition(g).value in IPV6_TRANSITION_PREFIXES
      && SameNetwork(g, Transition(g).value.groups, Transition(g).value.prefix)
  {
    hide SameNetwork, EmbeddedIPv4;
    EmbeddedExactly(g);
    var forms := IPV6_TRANSITION_PREFIXES;
    if EmbeddedIPv4(g).Some? {
      FormFound(g, 0);
      var i := if SameNetwork(g, Net(0x2002, 0, 0), 16) then 5
               else if SameNetwork(g, [0, 0, 0, 0, 0, 0xffff, 0, 0], 96) then 0
               else if SameNetwork(g, [0, 0, 0, 0, 0xffff, 0, 0, 0], 96) then 1
               else if SameNetwork(g, Net(0, 0, 0), 96) then 2
               else if SameNetwork(g, NAT64, 96) then 3 else 4;
      assert SameNetwork(g, forms[i].groups, forms[i].prefix);
    }
  }

  lemma {:induction false} FormFound(g: Groups, from: nat)
    requires from <= |IPV6_TRANSITION_PREFIXES|
    ensures FindForm(g, from).None? ==> forall i :: from <= i < |IPV6_TRANSITION_PREFIXES| ==>
      !SameNetwork(g, IPV6_TRANSITION_PREFIXES[i].groups, IPV6_TRANSITION_PREFIXES[i].prefix)
    decreases |IPV6_TRANSITION_PREFIXES| - from
  {
    hide SameNetwork;
    if from < |IPV6_TRANSITION_PREFIXES| { FormFound(g, from + 1); }
  }

  // ---------- the remedy ----------

  /** A well-formed address without a zone. */
  predicate WellFormed(ip: string) { '%' !in ip && IsIP(ip) != 0 }

  lemma {:induction false} NoZone(ip: string)
    requires '%' !in ip
    ensures StripZone(ip) == ip
  {
    if ip != [] { NoZone(ip[1..]); }
  }

  lemma ReadsAsVersion(ip: string)
    ensures IsIP(ip) == 4 ==> ParseIPv4(ip).Some?
    ensures IsIP(ip) == 6 ==> ParseIPv6(ip).Some?
  {
    if IsDottedQuad(ip) { ParsePrintIPv4(ip); }
  }

  /** A well-formed address is an allowlist entry for exactly itself. */
  lemma EntryParses(ip: string)
    requires WellFormed(ip)
    ensures Read(ip).V4? || Read(ip).V6?
    ensures Read(ip).V4? ==> ParseAllowlistCidr(ip) == Ok(Cidr4(Read(ip).value, 32))
    ensures Read(ip).V6? ==> ParseAllowlistCidr(ip) == Ok(Cidr6(Read(ip).groups, 128))
  {
    hide IsIP, ParseIPv4, ParseIPv6, Split, ToBase, FromBase, Pow2;
    hide StripZone, NoneBefore, SameNetwork, NoHostBits, IsDottedQuad;
    NoZone(ip);
    ReadsAsVersion(ip);
    ForeignToAddress(ip, '/');
    NoCharNone(ip, '/', []);
    assert ip + [] == ip;
    SplitNone(ip, "/");
    ToBaseSpec(32, 10);
    ToBaseSpec(128, 10);
    NumeralLengths(32);
    NumeralLengths(128);
    assert Pow2(32 - 32) == 1 by { DivByOne(0); }
    if Read(ip).V4? {
      RemainderUnique(Read(ip).value, 1, Read(ip).value, 0);
    }
    if Read(ip).V6? { FullPrefix(Read(ip).groups, IPV6_LOOPBACK); }
  }

  /** The address's own entry admits it, when the remedy is offered for it. */
  lemma OwnEntryAdmits(ip: string)
    requires WellFormed(ip) && AddressRemedy(ip)
    ensures Read(ip).V4? ==> Admits4(Read(ip).value, CompileCidr4(Read(ip).value, 32))
    ensures Read(ip).V6? ==> Admits6(Read(ip).groups, CompileCidr6(Read(ip).groups, 128))
  {
    DivByOne(0);
    if Read(ip).V6? {
      var g := Read(ip).groups;
      FullPrefix(g, g);
    }
  }

  /** Any entry that reads as the address's own does. */
  lemma SameEntryAdmits(ip: string, cidrs: seq<string>, i: nat)
    requires Compile(cidrs).Ok? && i < |cidrs| && ParseAllowlistCidr(cidrs[i]) == ParseAllowlistCidr(ip)
    requires WellFormed(ip) && AddressRemedy(ip)
    ensures IsAllowlisted(ip, Compile(cidrs).value)
  {
    hide Compile, ParseAllowlistCidr, Admits4, Admits6, IsHardBlocked, Read, CompileCidr4, CompileCidr6;
    EntryParses(ip);
    OwnEntryAdmits(ip);
    CompileSpec(cidrs);
    var ranges := Compile(cidrs).value;
    if Read(ip).V4? {
      var r := CompileCidr4(Read(ip).value, 32);
      assert Gives4(cidrs[i], r) && r in ranges.v4;
    } else {
      var r := CompileCidr6(Read(ip).groups, 128);
      assert Gives6(cidrs[i], r) && r in ranges.v6;
    }
  }

  lemma ListedAdmits(ip: string, cidrs: seq<string>, i: nat)
    requires Compile(cidrs).Ok? && i < |cidrs| && cidrs[i] == ip
    requires WellFormed(ip) && AddressRemedy(ip)
    ensures IsAllowlisted(ip, Compile(cidrs).value)
  {
    hide *;
    SameEntryAdmits(ip, cidrs, i);
  }

  predicate AdmitsAll(cidrs: seq<string>, ips: seq<string>) {
    Compile(cidrs).Ok? && forall i :: 0 <= i < |ips| ==> IsAllowlisted(ips[i], Compile(cidrs).value)
  }

  /** The refusal offers "address" exactly when it could name every address and some allowlist admits them all. */
  lemma RemedyExact(blocked: seq<string>)
    requires forall i :: 0 <= i < |blocked| ==> WellFormed(blocked[i])
    ensures BlockedAnswer(blocked).remedy
      <==> |blocked| <= MAX_NAMED_ADDRESSES && exists cidrs :: AdmitsAll(cidrs, blocked)
  {
    if |blocked| <= MAX_NAMED_ADDRESSES {
      if BlockedAnswer(blocked).remedy {
        forall i | 0 <= i < |blocked| ensures ParseAllowlistCidr(blocked[i]).Ok? { EntryParses(blocked[i]); }
        CompileSpec(blocked);
        forall i | 0 <= i < |blocked| ensures IsAllowlisted(blocked[i], Compile(blocked).value) {
          ListedAdmits(blocked[i], blocked, i);
        }
        assert AdmitsAll(blocked, blocked);
      } else if cidrs :| AdmitsAll(cidrs, blocked) {
        var i :| 0 <= i < |blocked| && !AddressRemedy(blocked[i]);
        NeverAdmitted(blocked[i], cidrs);
      }
    }
  }

  lemma ListedGrows(cidrs: seq<string>, more: seq<string>)
    ensures forall r :: Listed4(cidrs, r) ==> Listed4(cidrs + more, r)
    ensures forall r :: Listed6(cidrs, r) ==> Listed6(cidrs + more, r)
  {
    hide Gives4, Gives6;
    forall r: Range4 | Listed4(cidrs, r) ensures Listed4(cidrs + more, r) {
      var i :| 0 <= i < |cidrs| && Gives4(cidrs[i], r);
      assert (cidrs + more)[i] == cidrs[i];
    }
    forall r: Range6 | Listed6(cidrs, r) ensures Listed6(cidrs + more, r) {
      var i :| 0 <= i < |cidrs| && Gives6(cidrs[i], r);
      assert (cidrs + more)[i] == cidrs[i];
    }
  }

  /** Adding entries withdraws nothing. */
  lemma AdmissionGrows(ip: string, cidrs: seq<string>, more: seq<string>)
    requires Compile(cidrs).Ok? && Compile(cidrs + more).Ok? && IsAllowlisted(ip, Compile(cidrs).value)
    ensures IsAllowlisted(ip, Compile(cidrs + more).value)
  {
    CompileSpec(cidrs);
    CompileSpec(cidrs + more);
    ListedGrows(cidrs, more);
    hide Compile, Listed4, Listed6, Admits4, Admits6, IsHardBlocked, Read;
    var old_, new_ := Compile(cidrs).value, Compile(cidrs + more).value;
    match Read(ip) {
      case V4(value) =>
        var i :| 0 <= i < |old_.v4| && Admits4(value, old_.v4[i]);
        assert old_.v4[i] in new_.v4;
      case V6(g) =>
        var i :| 0 <= i < |old_.v6| && Admits6(g, old_.v6[i]);
        assert old_.v6[i] in new_.v6;
      case Malformed =>
    }
  }

  lemma RemediableWellFormed(ip: string)
    requires AddressRemedy(ip)
    ensures IsIP(StripZone(ip)) != 0
    ensures '%' !in ip ==> WellFormed(ip)
  {
    if '%' !in ip { NoZone(ip); }
  }

  /** '%' stays in the first part of an entry whose text before it holds no '/'. */
  lemma {:induction false} ZoneInFirstPart(ip: string)
    requires '%' in ip && '/' !in StripZone(ip)
    ensures '%' in Split(ip, "/")[0]
  {
    if ip[0] != '%' {
      assert ip == [ip[0]] + ip[1..];
      ZoneInFirstPart(ip[1..]);
      assert StripZone(ip)[0] == ip[0];
      assert !("/" <= ip);
    } else {
      assert !("/" <= ip);
    }
  }

  /** An address written with a zone is never a well-formed entry. */
  lemma ZonedEntryFails(ip: string)
    requires AddressRemedy(ip) && '%' in ip
    ensures ParseAllowlistCidr(ip).Err?
  {
    RemediableWellFormed(ip);
    ForeignToAddress(StripZone(ip), '/');
    ZoneInFirstPart(ip);
  }

  lemma RemedyCompiles(cidrs: seq<string>, named: seq<string>)
    requires Compile(cidrs).Ok?
    requires forall i :: 0 <= i < |named| ==> AddressRemedy(named[i])
    ensures Compile(cidrs + named).Ok? <==> forall i :: 0 <= i < |named| ==> '%' !in named[i]
  {
    forall i | 0 <= i < |named| ensures ParseAllowlistCidr(named[i]).Ok? <==> '%' !in named[i] {
      if '%' in named[i] { ZonedEntryFails(named[i]); } else { RemediableWellFormed(named[i]); EntryParses(named[i]); }
    }
    CompileSpec(cidrs);
    CompileSpec(cidrs + named);
    hide Compile, ParseAllowlistCidr, AddressRemedy;
    assert forall i :: 0 <= i < |named| ==> (cidrs + named)[|cidrs| + i] == named[i];
    assert forall i :: 0 <= i < |cidrs| ==> (cidrs + named)[i] == cidrs[i];
  }

  lemma SomeMember(s: seq<string>)
    ensures s != [] ==> exists ip :: ip in s
  {
    if s != [] { assert s[0] in s; }
  }

  lemma RemedyLifts(cidrs: seq<string>, answers: seq<Resolved>, named: seq<string>)
    requires Compile(cidrs).Ok? && Compile(cidrs + named).Ok?
    requires named == RefusedAddresses(answers, Compile(cidrs).value)
    requires forall i :: 0 <= i < |named| ==> AddressRemedy(named[i]) && '%' !in named[i]
    ensures RefusedAddresses(answers, Compile(cidrs + named).value) == []
  {
    hide Compile, ParseAllowlistCidr, AddressRemedy, IsPrivateOrReserved, IsAllowlisted, Read, WellFormed, RefusedAddresses;
    var before, after := Compile(cidrs).value, Compile(cidrs + named).value;
    RefusedSpec(answers, before);
    RefusedSpec(answers, after);
    forall ip | ip in Addresses(answers) ensures !IsRefused(ip, after) {
      if IsRefused(ip, before) {
        var k :| 0 <= k < |named| && named[k] == ip;
        RemediableWellFormed(ip);
        ListedAdmits(ip, cidrs + named, |cidrs| + k);
      } else if IsPrivateOrReserved(ip) {
        AdmissionGrows(ip, cidrs, named);
      }
    }
    SomeMember(RefusedAddresses(answers, after));
  }

  /**
   * When a refusal offers "address", adding the addresses it names to the allowlist compiles exactly when none of them
   * carries a zone id, and then the same answer is no longer refused.
   */
  lemma RemedyWorks(cidrs: seq<string>, answers: seq<Resolved>, family: nat, all: bool)
    requires Compile(cidrs).Ok?
    requires var refusal := GuardedLookup(answers, Compile(cidrs).value, family, all); refusal.Refused? && refusal.remedy
    ensures var named := GuardedLookup(answers, Compile(cidrs).value, family, all).named;
      && (Compile(cidrs + named).Ok? <==> forall i :: 0 <= i < |named| ==> '%' !in named[i])
      && (Compile(cidrs + named).Ok? ==> !GuardedLookup(answers, Compile(cidrs + named).value, family, all).Refused?)
  {
    hide Compile, RefusedAddresses, AddressRemedy, OfFamily;
    var named := RefusedAddresses(answers, Compile(cidrs).value);
    RemedyCompiles(cidrs, named);
    if Compile(cidrs + named).Ok? { RemedyLifts(cidrs, answers, named); }
  }

  lemma {:induction false} ZoneIsCut(address: string, zone: string)
    requires '%' !in address
    ensures StripZone(address + "%" + zone) == address
  {
    var text := address + "%" + zone;
    if address != [] {
      ZoneIsCut(address[1..], zone);
      assert text[1..] == address[1..] + "%" + zone;
    }
  }

  /**
   * A zone id makes any refused private address one whose remedy does not compile. (The resolver the platform uses by
   * default prints no zone ids; one that is injected may.)
   */
  lemma ZonedRemedyFails(ip: string, zone: string, family: nat)
    requires WellFormed(ip) && IsPrivateOrReserved(ip) && AddressRemedy(ip)
    ensures var zoned := ip + "%" + zone;
      && GuardedLookup([Resolved(zoned, family)], Ranges([], []), 0, false) == Refused([zoned], 0, true)
      && Compile([zoned]).Err?
  {
    hide IsIP, ParseIPv4, ParseIPv6, StripZone, ParseAllowlistCidr, HardBlockedGroups, IsBlockedIPv6, IsBlockedIPv4, InRanges;
    hide EmbedsLoopback;
    var zoned := ip + "%" + zone;
    ZoneIsCut(ip, zone);
    NoZone(ip);
    assert Read(zoned) == Read(ip);
    assert AddressRemedy(zoned) && IsRefused(zoned, Ranges([], []));
    assert zoned[|ip|] == '%';
    ZonedEntryFails(zoned);
    OneRefused(Resolved(zoned, family), Ranges([], []));
    assert [zoned][..0] == [];
  }

  lemma OneRefused(answer: Resolved, ranges: Ranges)
    requires IsRefused(answer.address, ranges)
    ensures RefusedAddresses([answer], ranges) == [answer.address]
  {
    hide IsRefused;
    assert [answer][..0] == [];
  }

  const LOCAL_EXAMPLE: Groups := [0xfd00, 0, 0, 0, 0, 0, 0, 1]

  /** fd00::1 with any zone id is such an address. */
  lemma ZonedExample(zone: string)
    ensures var zoned := Canonical(LOCAL_EXAMPLE) + "%" + zone;
      && GuardedLookup([Resolved(zoned, 6)], Ranges([], []), 0, false) == Refused([zoned], 0, true)
      && Compile([zoned]).Err?
  {
    hide IsIP, ParseIPv6, Canonical, StripZone, And, InRanges, GuardedLookup, Compile;
    var ip := Canonical(LOCAL_EXAMPLE);
    CanonicalParses(LOCAL_EXAMPLE);
    SlashPercentForeign();
    ForeignToAddress(ip, '%');
    NoZone(ip);
    assert Read(ip) == V6(LOCAL_EXAMPLE);
    HighBits(0xfd00);
    assert EmbeddedIPv4(LOCAL_EXAMPLE) == None;
    ZonedRemedyFails(ip, zone, 6);
  }

  lemma SlashPercentForeign()
    ensures Foreign('/') && Foreign('%')
  {
  }

  lemma HardFloorRefused(ip: string, cidrs: seq<string>)
    requires Compile(cidrs).Ok?
    ensures IsHardBlocked(ip) ==> IsRefused(ip, Compile(cidrs).value)
  {
    hide Compile, IsHardBlocked, IsPrivateOrReserved, IsAllowlisted;
    if IsHardBlocked(ip) {
      HardFloorReserved(ip);
      NeverAdmitted(ip, cidrs);
    }
  }

  /** A socket is only ever handed vetted addresses, and never one of the hard floor: one bad address refuses the answer. */
  lemma ConnectIsVetted(cidrs: seq<string>, answers: seq<Resolved>, family: nat, all: bool)
    requires Compile(cidrs).Ok? && GuardedLookup(answers, Compile(cidrs).value, family, all).Connect?
    ensures var given := GuardedLookup(answers, Compile(cidrs).value, family, all).addresses;
      && given != []
      && (forall a :: a in given ==> a in answers && (family == 0 || a.family == family))
      && (forall a :: a in answers ==> !IsHardBlocked(a.address))
      && (forall a :: a in answers ==> !IsRefused(a.address, Compile(cidrs).value))
  {
    hide Compile, IsRefused, IsHardBlocked, RefusedAddresses;
    var ranges := Compile(cidrs).value;
    RefusedSpec(answers, ranges);
    forall a | a in answers ensures !IsRefused(a.address, ranges) && !IsHardBlocked(a.address) {
      assert a.address in Addresses(answers);
      assert a.address !in RefusedAddresses(answers, ranges);
      HardFloorRefused(a.address, cidrs);
    }
  }

  // ---------- the classes of an address as written ----------

  lemma {:induction false} ZoneCut(text: string, zone: string)
    requires '%' !in text
    ensures StripZone(text + "%" + zone) == text && StripZone(text) == text
  {
    if text == [] {
      assert text + "%" + zone == "%" + zone;
    } else {
      ZoneCut(text[1..], zone);
      assert (text + "%" + zone)[1..] == text[1..] + "%" + zone;
    }
  }

  /** A text and the same text with a zone id are judged alike. */
  lemma ZoneIgnored(text: string, zone: string)
    requires '%' !in text
    ensures IsPrivateOrReserved(text + "%" + zone) <==> IsPrivateOrReserved(text)
    ensures IsHardBlocked(text + "%" + zone) <==> IsHardBlocked(text)
    ensures IsIP(text) == 0 ==> IsPrivateOrReserved(text) && IsHardBlocked(text)
  {
    hide IsIP, ParseIPv4, ParseIPv6, IsBlockedIPv4, IsBlockedIPv6, HardBlockedGroups, InRanges;
    ZoneCut(text, zone);
  }

  /** A dotted quad is refused, and for good, exactly by its octets. */
  lemma QuadExactly(a: nat, b: nat, c: nat, d: nat)
    requires a < 256 && b < 256 && c < 256 && d < 256
    ensures var ip := PrintIPv4(Quad(a, b, c, d));
      && (IsPrivateOrReserved(ip) <==>
            || a in {0, 10, 127} || a >= 224
            || (a == 100 && 64 <= b < 128) || (a == 169 && b == 254) || (a == 172 && 16 <= b < 32)
            || (a == 192 && b == 0 && c in {0, 2}) || (a == 192 && b == 88 && c == 99) || (a == 192 && b == 168)
            || (a == 198 && b in {18, 19}) || (a == 198 && b == 51 && c == 100) || (a == 203 && b == 0 && c == 113))
      && (IsHardBlocked(ip) <==>
            || a == 0 || (a == 169 && b == 254) || a >= 224 || (a == 100 && b == 100 && c == 100 && d == 200)
            || (a == 192 && b == 0 && c == 0 && d == 192))
  {
    hide IsIP, ParseIPv4, IsBlockedIPv4, InRanges, PrintIPv4;
    QuadReads(Quad(a, b, c, d));
    BlockedIPv4Exactly(a, b, c, d);
    HardFloorIPv4Exactly(a, b, c, d);
  }

  lemma QuadReads(value: nat)
    requires value < IPV4_LIMIT
    ensures Read(PrintIPv4(value)) == V4(value)
  {
    hide IsDottedQuad, ParseIPv4, ParseIPv6, PrintIPv4;
    PrintParseIPv4(value);
    ForeignToAddress(PrintIPv4(value), '%');
    ZoneCut(PrintIPv4(value), []);
  }

  /** And an IPv6 text by its groups. */
  lemma GroupsExactly(g: Groups)
    ensures Read(Canonical(g)) == V6(g)
    ensures IsPrivateOrReserved(Canonical(g)) <==> IsBlockedIPv6(g)
    ensures IsHardBlocked(Canonical(g)) <==> HardBlockedGroups(g)
  {
    hide IsIP, ParseIPv4, ParseIPv6, Canonical, IsBlockedIPv6, HardBlockedGroups;
    CanonicalParses(g);
    ForeignToAddress(Canonical(g), '%');
    ZoneCut(Canonical(g), []);
  }
}
