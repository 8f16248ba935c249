/** The IPv6 prefix test (packages/shared-core/src/outbound-url.ts): a mask per 16-bit group, against 128-bit arithmetic. */
module Ipv6Prefix {
  import opened Bits

  /** The eight 16-bit groups of an IPv6 address. */
  type Groups = g: seq<nat> | |g| == 8 && forall i :: 0 <= i < 8 ==> g[i] < 0x10000
    witness [0, 0, 0, 0, 0, 0, 0, 0]

  predicate GroupSeq(g: seq<nat>) { forall i :: 0 <= i < |g| ==> g[i] < 0x10000 }

  /** The number whose base-65536 digits the groups are. */
  function Value(g: seq<nat>): nat {
    if g == [] then 0 else Value(g[..|g| - 1]) * 0x10000 + g[|g| - 1]
  }

  /** Both 128-bit addresses agree above the host bits of the prefix (section 2.3 of RFC 4291). */
  predicate SameNetwork(a: Groups, b: Groups, prefix: nat)
    requires prefix <= 128
  {
    Value(a) / Pow2(128 - prefix) == Value(b) / Pow2(128 - prefix)
  }

  /** No bit of the 128-bit address is set below the prefix. */
  predicate NoHostBits(a: Groups, prefix: nat)
    requires prefix <= 128
  {
    Value(a) % Pow2(128 - prefix) == 0
  }

  function Min(a: int, b: int): int { if a < b then a else b }
  function Max(a: int, b: int): int { if a > b then a else b }

  /** How many bits of group `index` lie below the prefix, and how many of the first n groups together. */
  function HostBits(index: nat, prefix: nat): (h: nat)
    ensures h <= 16
  {
    16 - Min(16, Max(0, prefix - index * 16))
  }

  function HostBitsOf(n: nat, prefix: nat): nat { Max(0, 16 * n - prefix) }

  predicate GroupMatches(a: seq<nat>, b: seq<nat>, index: nat, prefix: nat)
    requires index < |a| && index < |b|
  {
    a[index] / Pow2(HostBits(index, prefix)) == b[index] / Pow2(HostBits(index, prefix))
  }

  predicate GroupClear(a: seq<nat>, index: nat, prefix: nat)
    requires index < |a|
  {
    a[index] % Pow2(HostBits(index, prefix)) == 0
  }

  /** The network part of the first n groups is equal exactly when each group's own network part is. */
  lemma {:induction false} MatchByGroups(a: seq<nat>, b: seq<nat>, n: nat, prefix: nat)
    requires n <= |a| && n <= |b| && GroupSeq(a) && GroupSeq(b)
    ensures (forall i :: 0 <= i < n ==> GroupMatches(a, b, i, prefix))
      <==> Value(a[..n]) / Pow2(HostBitsOf(n, prefix)) == Value(b[..n]) / Pow2(HostBitsOf(n, prefix))
  {
    if n > 0 {
      var m := n - 1;
      MatchByGroups(a, b, m, prefix);
      assert a[..n][..m] == a[..m] && b[..n][..m] == b[..m];
      MatchStep(Value(a[..m]), a[m], Value(b[..m]), b[m], m, prefix);
      assert GroupMatches(a, b, m, prefix)
        <==> a[m] / Pow2(HostBits(m, prefix)) == b[m] / Pow2(HostBits(m, prefix));
    }
  }

  lemma MatchStep(x: nat, d: nat, y: nat, e: nat, m: nat, prefix: nat)
    requires d < 0x10000 && e < 0x10000
    ensures x / Pow2(HostBitsOf(m, prefix)) == y / Pow2(HostBitsOf(m, prefix))
      && d / Pow2(HostBits(m, prefix)) == e / Pow2(HostBits(m, prefix))
      <==> (x * 0x10000 + d) / Pow2(HostBitsOf(m + 1, prefix)) == (y * 0x10000 + e) / Pow2(HostBitsOf(m + 1, prefix))
  {
    var h, above, next := HostBits(m, prefix), HostBitsOf(m, prefix), HostBitsOf(m + 1, prefix);
    Pow2Values();
    if h == 16 {
      Pow2Add(16, above);
      assert Pow2(next) == 0x10000 * Pow2(above);
      StepBelow(x, d, y, e, Pow2(above));
    } else {
      Pow2Add(16 - h, h);
      assert next == h && above == 0;
      StepAcross(x, d, y, e, Pow2(16 - h), Pow2(h));
      DivByOne(x);
      DivByOne(y);
    }
  }

  lemma DivByOne(x: nat)
    ensures Pow2(0) == 1 && x / Pow2(0) == x && x % Pow2(0) == 0
  {
  }

  lemma StepBelow(x: nat, d: nat, y: nat, e: nat, m: nat)
    requires d < 0x10000 && e < 0x10000 && m > 0
    ensures d / 0x10000 == e / 0x10000
    ensures x / m == y / m <==> (x * 0x10000 + d) / (0x10000 * m) == (y * 0x10000 + e) / (0x10000 * m)
  {
    DropAll(x, d, 0x10000, m);
    DropAll(y, e, 0x10000, m);
  }

  lemma StepAcross(x: nat, d: nat, y: nat, e: nat, high: nat, m: nat)
    requires m > 0 && high * m == 0x10000 && d < 0x10000 && e < 0x10000
    ensures x == y && d / m == e / m <==> (x * 0x10000 + d) / m == (y * 0x10000 + e) / m
  {
    DropPart(x, d, high, m);
    DropPart(y, e, high, m);
    QuotientBelow(d, high, m);
    QuotientBelow(e, high, m);
    TwoDigits(x, d / m, y, e / m, high);
  }

  lemma QuotientBelow(d: nat, high: nat, m: nat)
    requires m > 0 && d < high * m
    ensures d / m < high
  {
    var q, r := QuotientParts(d, m);
    assert q >= high ==> m * q >= m * high;
  }

  /** The first n groups have no host bit exactly when none of the groups has one. */
  lemma {:induction false} ClearByGroups(a: seq<nat>, n: nat, prefix: nat)
    requires n <= |a| && GroupSeq(a)
    ensures (forall i :: 0 <= i < n ==> GroupClear(a, i, prefix))
      <==> Value(a[..n]) % Pow2(HostBitsOf(n, prefix)) == 0
  {
    hide Pow2;
    if n > 0 {
      var m := n - 1;
      ClearByGroups(a, m, prefix);
      assert a[..n][..m] == a[..m];
      ClearStep(Value(a[..m]), a[m], m, prefix);
      assert GroupClear(a, m, prefix) <==> a[m] % Pow2(HostBits(m, prefix)) == 0;
    }
  }

  lemma ClearStep(x: nat, d: nat, m: nat, prefix: nat)
    requires d < 0x10000
    ensures x % Pow2(HostBitsOf(m, prefix)) == 0 && d % Pow2(HostBits(m, prefix)) == 0
      <==> (x * 0x10000 + d) % Pow2(HostBitsOf(m + 1, prefix)) == 0
  {
    var h, above, next := HostBits(m, prefix), HostBitsOf(m, prefix), HostBitsOf(m + 1, prefix);
    Pow2Values();
    if h == 16 {
      Pow2Add(16, above);
      assert Pow2(next) == 0x10000 * Pow2(above);
      RemainderBelow(x, d, 0x10000, Pow2(above));
      assert d % 0x10000 == d;
    } else {
      Pow2Add(16 - h, h);
      assert next == h && above == 0;
      RemainderAcross(x, d, Pow2(16 - h), Pow2(h));
      DivByOne(x);
    }
  }

  lemma RemainderBelow(x: nat, d: nat, low: nat, m: nat)
    requires d < low && m > 0
    ensures low * m > 0
    ensures (x * low + d) % (low * m) == 0 <==> x % m == 0 && d == 0
  {
    var q, r := QuotientParts(x, m);
    Regroup(q, r, d, low, m);
    RemainderUnique(x * low + d, low * m, q, r * low + d);
  }

  lemma RemainderAcross(x: nat, d: nat, high: nat, m: nat)
    requires m > 0 && high * m == 0x10000
    ensures (x * 0x10000 + d) % m == d % m
  {
    var q, r := QuotientParts(d, m);
    assert x * (high * m) + d == m * (x * high + q) + r by {
      assert x * (high * m) == m * (x * high);
      assert m * (x * high + q) == m * (x * high) + m * q;
    }
    RemainderUnique(x * 0x10000 + d, m, x * high + q, r);
  }

  /** The mask the loop builds for a group keeps exactly its network bits, and its complement the host bits. */
  function Mask(index: nat, prefix: nat): nat {
    var networkBits := Min(16, Max(0, prefix - index * 16));
    if networkBits == 0 then 0 else And(ShiftLeft(0xffff, 16 - networkBits), 0xffff)
  }

  lemma MaskSpec(index: nat, prefix: nat, value: nat)
    requires value < 0x10000
    ensures Mask(index, prefix) < Pow2(16) == 0x10000
    ensures And(value, Mask(index, prefix)) == value - value % Pow2(HostBits(index, prefix))
    ensures And(And(value, Not(Mask(index, prefix), 16)), 0xffff) == value % Pow2(HostBits(index, prefix))
  {
    hide And, Pow2, Mask, HostBits;
    Pow2Values();
    var h := HostBits(index, prefix);
    MaskValue(index, prefix);
    AndHighMask(value, h, 16);
    AndLowMask(value, h);
    var kept := value % Pow2(h);
    AndLowMask(kept, 16);
    RemainderUnique(kept, 0x10000, 0, kept);
  }

  lemma MaskValue(index: nat, prefix: nat)
    ensures Pow2(HostBits(index, prefix)) <= 0x10000
    ensures Mask(index, prefix) == 0x10000 - Pow2(HostBits(index, prefix))
  {
    Pow2Values();
    var h := HostBits(index, prefix);
    Pow2Monotone(h, 16);
    if h < 16 {
      var p := Pow2(h);
      AndLowMask(0xffff * p, 16);
      RemainderUnique(0xffff * p, 0x10000, p - 1, 0x10000 - p);
    }
  }

  lemma SameQuotient(a: nat, b: nat, m: nat)
    requires m > 0
    ensures a - a % m == b - b % m <==> a / m == b / m
  {
    var q, r := QuotientParts(a, m);
    var s, t := QuotientParts(b, m);
    if m * q == m * s {
      RemainderUnique(m * q, m, q, 0);
      RemainderUnique(m * q, m, s, 0);
    }
  }

  /** The test the loop makes on one group. */
  predicate GroupPasses(groups: Groups, base: Groups, index: nat, prefix: nat, requireZeroHostBits: bool)
    requires index < 8
  {
    MaskValue(index, prefix);
    Pow2Values();
    var mask, value := Mask(index, prefix), groups[index];
    if requireZeroHostBits then And(And(value, Not(mask, 16)), 0xffff) == 0
    else And(value, mask) == And(base[index], mask)
  }

  lemma GroupPassesSpec(groups: Groups, base: Groups, index: nat, prefix: nat, requireZeroHostBits: bool)
    requires index < 8
    ensures GroupPasses(groups, base, index, prefix, requireZeroHostBits)
      <==> if requireZeroHostBits then GroupClear(groups, index, prefix) else GroupMatches(groups, base, index, prefix)
  {
    MaskSpec(index, prefix, groups[index]);
    MaskSpec(index, prefix, base[index]);
    SameQuotient(groups[index], base[index], Pow2(HostBits(index, prefix)));
  }

  /**
   * True when `groups` lies in base/prefix; with `requireZeroHostBits`, when `groups` itself has no bit below the
   * prefix.
   */
  method Ipv6InPrefix(groups: Groups, base: Groups, prefix: nat, requireZeroHostBits: bool) returns (r: bool)
    requires prefix <= 128
    ensures r <==> if requireZeroHostBits then NoHostBits(groups, prefix) else SameNetwork(groups, base, prefix)
  {
    hide *;
    PassAll(groups, base, prefix, requireZeroHostBits);
    var index := 0;
    while index < 8
      invariant 0 <= index <= 8
      invariant forall i :: 0 <= i < index ==> GroupPasses(groups, base, i, prefix, requireZeroHostBits)
    {
      if !GroupPasses(groups, base, index, prefix, requireZeroHostBits) {
        return false;
      }
      index := index + 1;
    }
    return true;
  }

  /** All eight group tests together decide the 128-bit question. */
  lemma PassAll(groups: Groups, base: Groups, prefix: nat, requireZeroHostBits: bool)
    requires prefix <= 128
    ensures (forall i :: 0 <= i < 8 ==> GroupPasses(groups, base, i, prefix, requireZeroHostBits))
      <==> if requireZeroHostBits then NoHostBits(groups, prefix) else SameNetwork(groups, base, prefix)
  {
    hide GroupPasses, GroupClear, GroupMatches, Value, Pow2;
    assert groups[..8] == groups && base[..8] == base;
    MatchByGroups(groups, base, 8, prefix);
    ClearByGroups(groups, 8, prefix);
    forall i | 0 <= i < 8
      ensures GroupPasses(groups, base, i, prefix, requireZeroHostBits)
        <==> if requireZeroHostBits then GroupClear(groups, i, prefix) else GroupMatches(groups, base, i, prefix)
    {
      GroupPassesSpec(groups, base, i, prefix, requireZeroHostBits);
    }
  }
}
