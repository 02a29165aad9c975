/** IPv4 prefixes of the net package. Addresses are 32-bit words, lengths are bytes; the
    meaning of a prefix is the sequence of its leading bits. */
module Prefixes {
  import opened Words

  datatype Prefix = Prefix(addr: uint32, len: uint8)

  const ADDRESS_BITS := 32

  /** uint32 doubling drops the top bit. */
  function Double(x: uint32): (r: uint32) {
    if x < 0x8000_0000 then 2 * x else 2 * x - 0x1_0000_0000
  }

  // A shift by n is n shifts by one; from 32 on nothing is left of the word.

  function Shl(x: uint32, n: nat): (r: uint32)
    decreases n
  {
    if n == 0 then x else Shl(Double(x), n - 1)
  }

  function Shr(x: nat, n: nat): (r: nat)
    ensures r <= x
    decreases n
  {
    if n == 0 then x else Shr(x / 2, n - 1)
  }

  /** Bitwise conjunction. */
  function And(x: nat, y: nat): (r: nat) {
    if x == 0 || y == 0 then 0
    else 2 * And(x / 2, y / 2) + (if x % 2 == 1 && y % 2 == 1 then 1 else 0)
  }

  // ---------------------------------------------------------------- operations

  function BitAtPosition(addr: uint32, pos: nat): (r: bool) {
    pos <= ADDRESS_BITS && And(addr, Shl(1, ADDRESS_BITS - pos)) != 0
  }

  function Contains(p: Prefix, x: Prefix): (r: bool) {
    p.len < x.len &&
    var mask := Shl(MAX_UINT32, SubU8(ADDRESS_BITS, p.len));
    And(p.addr, mask) == And(x.addr, mask)
  }

  /** No bit is set after the first `len`. */
  function Valid(p: Prefix): (r: bool) {
    Shl(p.addr, SubU8(ADDRESS_BITS, SubU8(ADDRESS_BITS, p.len))) == 0
  }

  function BaseAddr(p: Prefix): (r: uint32) {
    Shl(Shr(p.addr, SubU8(ADDRESS_BITS, p.len)), SubU8(ADDRESS_BITS, p.len))
  }

  /** What the routing table accepts: an IPv4 length and no host bits. */
  predicate WellFormed(p: Prefix) {
    p.len <= ADDRESS_BITS && Valid(p)
  }

  // ---------------------------------------------------------------- meaning

  /** The leading bits of a prefix, most significant first. */
  function Key(p: Prefix): (bits: seq<bool>)
    ensures |bits| == p.len
  {
    seq(p.len, (i: nat) => BitAtPosition(p.addr, i + 1))
  }

  /** The longest sequence both `s` and `t` start with. */
  function CommonPrefix(s: seq<bool>, t: seq<bool>): (r: seq<bool>)
    ensures r <= s && r <= t
    ensures |r| < |s| && |r| < |t| ==> s[|r|] != t[|r|]
  {
    if s == [] || t == [] || s[0] != t[0] then []
    else [s[0]] + CommonPrefix(s[1..], t[1..])
  }

  /** How many leading bits `p` and `x` share, not counting the last bit of either. */
  function Overlap(p: Prefix, x: Prefix): (n: uint8)
    requires 1 <= p.len && 1 <= x.len
    ensures n < p.len && n < x.len
  {
    |CommonPrefix(Key(p)[..p.len - 1], Key(x)[..x.len - 1])|
  }

  /** The longest prefix shorter than both `p` and `x` that contains both. */
  function SupernetOf(p: Prefix, x: Prefix): (r: Prefix)
    requires 1 <= p.len <= ADDRESS_BITS && 1 <= x.len <= ADDRESS_BITS
  {
    var n := Overlap(p, x);
    Prefix(BaseAddr(Prefix(p.addr, n)), n)
  }

  /** GetSupernet on every pair of IPv4 lengths: from length zero the length wraps around. */
  function GetSupernet(p: Prefix, x: Prefix): (r: Prefix)
    requires p.len <= ADDRESS_BITS && x.len <= ADDRESS_BITS
  {
    if 1 <= p.len && 1 <= x.len then SupernetOf(p, x) else Prefix(0, 255)
  }

  // ---------------------------------------------------------------- shifts

  function Pow2(n: nat): (r: nat)
    ensures r > 0
  {
    if n == 0 then 1 else 2 * Pow2(n - 1)
  }

  /** A shift to the left without a width. */
  function Up(x: nat, n: nat): (r: nat)
    ensures r >= x
    ensures r == 0 <==> x == 0
  {
    if n == 0 then x else 2 * Up(x, n - 1)
  }

  lemma Pow2Of32()
    ensures Pow2(32) == 0x1_0000_0000
  {
    assert Pow2(8) == 256;
    assert Pow2(16) == 0x1_0000;
    assert Pow2(24) == 0x100_0000;
  }

  lemma {:induction false} Pow2Bound(m: nat, n: nat)
    requires m <= n
    ensures Pow2(m) <= Pow2(n) && Pow2(32) == 0x1_0000_0000
    decreases n
  {
    Pow2Of32();
    if m < n {
      Pow2Bound(m, n - 1);
    }
  }

  lemma {:induction false} UpShift(x: nat, n: nat)
    ensures Up(2 * x, n) == 2 * Up(x, n)
  {
    if n > 0 {
      UpShift(x, n - 1);
    }
  }

  lemma {:induction false} ShlIsUp(x: uint32, n: nat)
    requires Up(x, n) < 0x1_0000_0000
    ensures Shl(x, n) == Up(x, n)
    decreases n
  {
    if n > 0 {
      UpShift(x, n - 1);
      ShlIsUp(2 * x, n - 1);
    }
  }

  lemma {:induction false} UpInjective(x: nat, y: nat, n: nat)
    ensures Up(x, n) == Up(y, n) <==> x == y
  {
    if n > 0 {
      UpInjective(x, y, n - 1);
    }
  }

  lemma {:induction false} ShrUp(x: nat, n: nat)
    ensures Shr(Up(x, n), n) == x
  {
    if n > 0 {
      assert Up(x, n) / 2 == Up(x, n - 1);
      ShrUp(x, n - 1);
    }
  }

  lemma {:induction false} ShrSucc(x: nat, n: nat)
    ensures Shr(x, n + 1) == Shr(x, n) / 2
    decreases n
  {
    if n > 0 {
      ShrSucc(x / 2, n - 1);
    }
  }

  lemma {:induction false} ShrOut(x: nat, n: nat)
    requires x < Pow2(n)
    ensures Shr(x, n) == 0
  {
    if n > 0 {
      ShrOut(x / 2, n - 1);
    }
  }

  lemma {:induction false} OneUp(n: nat)
    ensures Up(1, n) == Pow2(n)
  {
    if n > 0 {
      OneUp(n - 1);
    }
  }

  lemma {:induction false} ShlOne(n: nat)
    requires n <= 31
    ensures Shl(1, n) == Pow2(n)
  {
    OneUp(n);
    Pow2Bound(n, 31);
    Pow2Bound(31, 32);
    ShlIsUp(1, n);
  }

  lemma {:induction false} ShlSucc(x: uint32, n: nat)
    ensures Shl(x, n + 1) == Double(Shl(x, n))
    decreases n
  {
    if n > 0 {
      ShlSucc(Double(x), n - 1);
    }
  }

  /** A mask of ones without its low n bits. */
  lemma {:induction false} MaskValue(n: nat)
    requires n <= 32
    ensures Pow2(n) <= 0x1_0000_0000 && Shl(MAX_UINT32, n) == 0x1_0000_0000 - Pow2(n)
  {
    Pow2Bound(n, 32);
    if n > 0 {
      MaskValue(n - 1);
      ShlSucc(MAX_UINT32, n - 1);
    }
  }

  lemma {:induction false} AndOnes(x: nat, n: nat)
    requires x < Pow2(n)
    ensures And(x, Pow2(n) - 1) == x
  {
    if n > 0 {
      AndOnes(x / 2, n - 1);
    }
  }

  lemma AndSplits(x: nat, y: nat)
    requires x > 0 && y > 0 && y % 2 == 0
    ensures And(x, y) == 2 * And(x / 2, y / 2)
  {
  }

  lemma AndEven(x: nat, m: nat)
    ensures And(x, 2 * m) == 2 * And(x / 2, m)
  {
    if x > 0 && m > 0 {
      AndSplits(x, 2 * m);
      assert 2 * m / 2 == m;
    }
  }

  lemma {:induction false} AndMask(x: nat, m: nat, n: nat)
    requires n <= m && x < Pow2(m) && Pow2(n) <= Pow2(m)
    ensures And(x, Pow2(m) - Pow2(n)) == Up(Shr(x, n), n)
  {
    hide And;
    if n == 0 {
      AndOnes(x, m);
    } else {
      AndEven(x, Pow2(m - 1) - Pow2(n - 1));
      AndMask(x / 2, m - 1, n - 1);
    }
  }

  lemma {:induction false} AndPow2(x: nat, n: nat)
    ensures And(x, Pow2(n)) != 0 <==> Shr(x, n) % 2 == 1
  {
    if n == 0 {
      assert And(x, 1) == if x % 2 == 1 then 1 else 0 by {
        if x > 0 {
          assert And(x / 2, 0) == 0;
        }
      }
    } else {
      AndEven(x, Pow2(n - 1));
      AndPow2(x / 2, n - 1);
    }
  }

  /** A bit test with a shifted one reads the low bit of the shifted word. */
  lemma BitByShift(a: uint32, pos: nat)
    requires 1 <= pos <= 32
    ensures BitAtPosition(a, pos) <==> Shr(a, 32 - pos) % 2 == 1
  {
    ShlOne(32 - pos);
    AndPow2(a, 32 - pos);
  }

  /** Comparing under a mask of leading ones compares the words without their low bits. */
  lemma MaskByShift(a: uint32, b: uint32, n: nat)
    requires n <= 32
    ensures And(a, Shl(MAX_UINT32, n)) == And(b, Shl(MAX_UINT32, n)) <==> Shr(a, n) == Shr(b, n)
  {
    MaskValue(n);
    Pow2Bound(n, 32);
    AndMask(a, 32, n);
    AndMask(b, 32, n);
    UpInjective(Shr(a, n), Shr(b, n), n);
  }

  ghost predicate SameBits(a: uint32, b: uint32, n: nat) {
    forall pos: nat :: 1 <= pos <= n ==> BitAtPosition(a, pos) == BitAtPosition(b, pos)
  }

  /** Equal leading bits and equal words after the shift are the same thing. */
  lemma {:induction false} BitsByShift(a: uint32, b: uint32, n: nat)
    requires n <= 32
    ensures Shr(a, 32 - n) == Shr(b, 32 - n) <==> SameBits(a, b, n)
  {
    if n == 0 {
      Pow2Bound(32, 32);
      ShrOut(a, 32);
      ShrOut(b, 32);
    } else {
      BitsByShift(a, b, n - 1);
      ShrSucc(a, 32 - n);
      ShrSucc(b, 32 - n);
      BitByShift(a, n);
      BitByShift(b, n);
      assert SameBits(a, b, n) <==> SameBits(a, b, n - 1) && BitAtPosition(a, n) == BitAtPosition(b, n);
    }
  }

  /** The low n bits are zero. */
  predicate LowZero(x: nat, n: nat) {
    n == 0 || (x % 2 == 0 && LowZero(x / 2, n - 1))
  }

  lemma {:induction false} LowZeroAll(x: nat, n: nat)
    requires x < Pow2(n)
    ensures LowZero(x, n) <==> x == 0
  {
    if n > 0 {
      LowZeroAll(x / 2, n - 1);
    }
  }

  lemma {:induction false} LowZeroPlus(x: nat, m: nat, n: nat)
    requires n <= m
    ensures LowZero(x + Pow2(m), n) <==> LowZero(x, n)
    decreases n
  {
    if n > 0 {
      assert (x + Pow2(m)) / 2 == x / 2 + Pow2(m - 1);
      LowZeroPlus(x / 2, m - 1, n - 1);
    }
  }

  lemma {:induction false} LowZeroUp(x: nat, n: nat)
    ensures Up(Shr(x, n), n) <= x
    ensures LowZero(x, n) <==> Up(Shr(x, n), n) == x
  {
    if n > 0 {
      LowZeroUp(x / 2, n - 1);
    }
  }

  lemma DoubleDrops(x: uint32, m: nat)
    requires m == 31
    ensures Double(x) == 2 * if x < Pow2(m) then x as int else x - Pow2(m)
  {
    Pow2Bound(m, m + 1);
  }

  lemma LowZeroTwice(x: nat, n: nat)
    ensures LowZero(2 * x, n + 1) <==> LowZero(x, n)
  {
  }

  lemma DoubleLowZero(x: uint32, m: nat, n: nat)
    requires n <= m == 31
    ensures LowZero(Double(x), n + 1) <==> LowZero(x, n)
  {
    hide LowZero, Pow2;
    DoubleDrops(x, m);
    if x < Pow2(m) {
      LowZeroTwice(x, n);
    } else {
      LowZeroTwice(x - Pow2(m), n);
      LowZeroPlus(x - Pow2(m), m, n);
    }
  }

  /** Shifting a word out to the left tells whether the remaining low bits are zero. */
  lemma {:induction false} ShlZero(x: uint32, n: nat, rest: nat)
    requires n + rest == 32
    ensures Shl(x, n) == 0 <==> LowZero(x, rest)
    decreases n
  {
    if n == 0 {
      Pow2Bound(rest, rest);
      LowZeroAll(x, rest);
    } else {
      ShlZero(Double(x), n - 1, rest + 1);
      DoubleLowZero(x, n + rest - 1, rest);
    }
  }

  lemma ClearLow(x: uint32, n: nat)
    ensures Shl(Shr(x, n), n) == Up(Shr(x, n), n) <= x
    ensures Shr(Shl(Shr(x, n), n), n) == Shr(x, n)
  {
    LowZeroUp(x, n);
    ShlIsUp(Shr(x, n), n);
    ShrUp(Shr(x, n), n);
  }

  // ---------------------------------------------------------------- theorems

  lemma KeyBits(p: Prefix, q: Prefix, n: nat)
    requires n <= p.len && n <= q.len
    ensures Key(p)[..n] == Key(q)[..n] <==> SameBits(p.addr, q.addr, n)
  {
    if Key(p)[..n] == Key(q)[..n] {
      forall pos: nat | 1 <= pos <= n
        ensures BitAtPosition(p.addr, pos) == BitAtPosition(q.addr, pos)
      {
        assert Key(p)[..n][pos - 1] == Key(q)[..n][pos - 1];
      }
    }
  }

  /** A prefix has no host bits exactly when it is its own base address. */
  lemma ValidIffBase(p: Prefix)
    requires p.len <= 32
    ensures Valid(p) <==> BaseAddr(p) == p.addr
  {
    ShlZero(p.addr, p.len, 32 - p.len);
    LowZeroUp(p.addr, 32 - p.len);
    ClearLow(p.addr, 32 - p.len);
  }

  /** The base address is free of host bits and keeps the key. */
  lemma BaseAddrKeepsKey(p: Prefix)
    requires p.len <= 32
    ensures WellFormed(Prefix(BaseAddr(p), p.len))
    ensures Key(Prefix(BaseAddr(p), p.len)) == Key(p)
  {
    ClearLow(p.addr, 32 - p.len);
    ClearLow(BaseAddr(p), 32 - p.len);
    BitsByShift(BaseAddr(p), p.addr, p.len);
    KeyBits(Prefix(BaseAddr(p), p.len), p, p.len);
    ValidIffBase(Prefix(BaseAddr(p), p.len));
  }

  /** Well-formed prefixes are equal exactly when their bits are. */
  lemma EqualIffSameKey(p: Prefix, q: Prefix)
    requires WellFormed(p) && WellFormed(q)
    ensures p == q <==> Key(p) == Key(q)
  {
    if Key(p) == Key(q) {
      KeyBits(p, q, p.len);
      BitsByShift(p.addr, q.addr, p.len);
      ValidIffBase(p);
      ValidIffBase(q);
    }
  }

  /** Containment is the strict prefix order on bits. */
  lemma ContainsIffStrictPrefix(p: Prefix, x: Prefix)
    requires p.len <= 32
    ensures Contains(p, x) <==> Key(p) < Key(x)
  {
    MaskByShift(p.addr, x.addr, 32 - p.len);
    BitsByShift(p.addr, x.addr, p.len);
    if p.len < x.len {
      KeyBits(p, x, p.len);
      assert Key(p)[..p.len] == Key(p);
    }
  }

  lemma KeyTake(addr: uint32, n: uint8, m: uint8)
    requires n <= m
    ensures Key(Prefix(addr, n)) == Key(Prefix(addr, m))[..n]
  {
  }

  lemma {:induction false} CommonPrefixLongest(s: seq<bool>, t: seq<bool>, z: seq<bool>)
    requires z <= s && z <= t
    ensures z <= CommonPrefix(s, t)
    decreases |s|
  {
    if z != [] {
      CommonPrefixLongest(s[1..], t[1..], z[1..]);
      assert z == [z[0]] + z[1..];
    }
  }

  /** The supernet is well formed, contains both prefixes, and every prefix that contains
      both is at most as long. */
  lemma SupernetIsLongest(p: Prefix, x: Prefix, z: Prefix)
    requires 1 <= p.len <= 32 && 1 <= x.len <= 32
    ensures var r := SupernetOf(p, x);
            && WellFormed(r) && Contains(r, p) && Contains(r, x)
            && (Contains(z, p) && Contains(z, x) ==> z.len <= r.len && (z == r || Key(z) == Key(r) || Contains(z, r)))
  {
    var r := SupernetOf(p, x);
    var c := CommonPrefix(Key(p)[..p.len - 1], Key(x)[..x.len - 1]);
    BaseAddrKeepsKey(Prefix(p.addr, r.len));
    KeyTake(p.addr, r.len, p.len);
    assert Key(r) == c;
    ContainsIffStrictPrefix(r, p);
    ContainsIffStrictPrefix(r, x);
    if Contains(z, p) && Contains(z, x) {
      ContainsIffStrictPrefix(z, p);
      ContainsIffStrictPrefix(z, x);
      CommonPrefixLongest(Key(p)[..p.len - 1], Key(x)[..x.len - 1], Key(z));
      ContainsIffStrictPrefix(z, r);
    }
  }

  lemma LastBitDiffers(s: seq<bool>, t: seq<bool>, c: seq<bool>)
    requires c <= s && c <= t && |s| == |c| + 1 <= |t| && !(s <= t)
    ensures s[|c|] != t[|c|]
  {
    assert s == c + [s[|c|]];
  }

  /** Prefixes neither of which contains the other part ways right after their supernet. */
  lemma SupernetSeparates(p: Prefix, x: Prefix)
    requires WellFormed(p) && WellFormed(x)
    requires p != x && !Contains(p, x) && !Contains(x, p)
    ensures 1 <= p.len && 1 <= x.len
    ensures var r := SupernetOf(p, x);
            && WellFormed(r) && Key(r) < Key(p) && Key(r) < Key(x)
            && BitAtPosition(p.addr, r.len + 1) != BitAtPosition(x.addr, r.len + 1)
  {
    EqualIffSameKey(p, x);
    ContainsIffStrictPrefix(p, x);
    ContainsIffStrictPrefix(x, p);
    assert p.len == 0 ==> Key(p) <= Key(x);
    assert x.len == 0 ==> Key(x) <= Key(p);
    var r := SupernetOf(p, x);
    SupernetIsLongest(p, x, r);
    ContainsIffStrictPrefix(r, p);
    ContainsIffStrictPrefix(r, x);
    BaseAddrKeepsKey(Prefix(p.addr, r.len));
    KeyTake(p.addr, r.len, p.len);
    if r.len + 1 < p.len && r.len + 1 < x.len {
      assert Key(p)[..p.len - 1][r.len] != Key(x)[..x.len - 1][r.len];
    } else if r.len + 1 == p.len {
      LastBitDiffers(Key(p), Key(x), Key(r));
    } else {
      LastBitDiffers(Key(x), Key(p), Key(r));
    }
  }

  /** The variables of the shifting loop while no common part of `n` bits has been found. */
  ghost predicate Shifting(p: Prefix, x: Prefix, a: nat, b: nat, n: nat)
    requires 1 <= p.len <= 32 && 1 <= x.len <= 32
  {
    && n < p.len && n < x.len
    && a == Shr(p.addr, 32 - n) && b == Shr(x.addr, 32 - n)
    && Overlap(p, x) <= n
  }

  lemma OverlapMatches(p: Prefix, x: Prefix, n: nat)
    requires 1 <= p.len <= 32 && 1 <= x.len <= 32 && Overlap(p, x) <= n < p.len && n < x.len
    ensures Shr(p.addr, 32 - n) == Shr(x.addr, 32 - n) <==> Overlap(p, x) == n
  {
    var s, t := Key(p)[..p.len - 1], Key(x)[..x.len - 1];
    var c := CommonPrefix(s, t);
    BitsByShift(p.addr, x.addr, n);
    KeyBits(p, x, n);
    assert Key(p)[..n] == s[..n] && Key(x)[..n] == t[..n];
    if s[..n] == t[..n] {
      CommonPrefixLongest(s, t, s[..n]);
    } else {
      assert c == s[..|c|] && c == t[..|c|];
    }
  }

  lemma ShiftingKeeps(p: Prefix, x: Prefix, a: nat, b: nat, n: nat)
    requires 1 <= p.len <= 32 && 1 <= x.len <= 32 && Shifting(p, x, a, b, n)
    ensures a != b ==> 1 <= n && Shifting(p, x, Shr(a, 1), Shr(b, 1), n - 1)
    ensures a == b ==> Prefix(Shl(a, 32 - n), n) == SupernetOf(p, x)
  {
    OverlapMatches(p, x, n);
    if a != b {
      ShrSucc(p.addr, 32 - n);
      ShrSucc(x.addr, 32 - n);
    }
  }

  lemma ShiftedOut(x: uint32, n: nat)
    requires n >= 32
    ensures Shr(x, n) == 0 && Shl(0, n) == 0
  {
    Pow2Bound(32, n);
    ShrOut(x, n);
    ShlIsUp(0, n);
  }

  /** The shifting loop computes the supernet of prefixes of length at least one. A length of
      zero wraps around to a "prefix" of length 255. */
  method Supernet(p: Prefix, x: Prefix) returns (r: Prefix)
    requires p.len <= 32 && x.len <= 32
    ensures r == GetSupernet(p, x)
  {
    var maxPfxLen := SubU8(if p.len < x.len then p.len else x.len, 1);
    var a := Shr(p.addr, SubU8(32, maxPfxLen));
    var b := Shr(x.addr, SubU8(32, maxPfxLen));
    ghost var wrapped := p.len == 0 || x.len == 0;
    if wrapped {
      ShiftedOut(p.addr, SubU8(32, maxPfxLen));
      ShiftedOut(x.addr, SubU8(32, maxPfxLen));
    }
    while a != b
      invariant wrapped ==> a == 0 && b == 0 && maxPfxLen == 255
      invariant !wrapped ==> Shifting(p, x, a, b, maxPfxLen)
      decreases maxPfxLen
    {
      ShiftingKeeps(p, x, a, b, maxPfxLen);
      a := Shr(a, 1);
      b := Shr(b, 1);
      maxPfxLen := SubU8(maxPfxLen, 1);
    }
    if !wrapped {
      ShiftingKeeps(p, x, a, b, maxPfxLen);
    }
    r := Prefix(Shl(a, SubU8(32, maxPfxLen)), maxPfxLen);
  }
}
