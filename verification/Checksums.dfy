/** The Fletcher checksum of IS-IS link state PDUs (section 7.3.11 of ISO/IEC 10589). */
module Checksums {
  import opened Words

  const MODX := 5802

  // ---------------------------------------------------------------- the two sums

  function C0(s: seq<byte>): (r: nat) {
    if s == [] then 0 else C0(s[..|s| - 1]) + s[|s| - 1]
  }

  /** The sum of all running sums: byte i counts |s| - i times. */
  function C1(s: seq<byte>): (r: nat) {
    if s == [] then 0 else C1(s[..|s| - 1]) + C0(s)
  }

  /** A receiver accepts a PDU when both sums vanish modulo 255. */
  predicate Verifies(s: seq<byte>) {
    C0(s) % 255 == 0 && C1(s) % 255 == 0
  }

  lemma OneMore(k: int, d: int)
    ensures (k + 1) * d == k * d + d
  {
  }

  lemma {:induction false} UpdateSums(s: seq<byte>, i: nat, v: byte)
    requires i < |s|
    ensures C0(s[i := v]) == C0(s) + v - s[i]
    ensures C1(s[i := v]) == C1(s) + (|s| - i) * (v - s[i])
    decreases |s|
  {
    var n := |s| - 1;
    var t := s[i := v];
    if i == n {
      assert t[..n] == s[..n];
    } else {
      UpdateSums(s[..n], i, v);
      assert t[..n] == s[..n][i := v];
      OneMore(n - i, v - s[i]);
    }
  }

  // ---------------------------------------------------------------- the computation

  /** Go's remainder takes the sign of the dividend. */
  function TruncatedMod(z: int, m: nat): (r: int)
    requires m > 0
  {
    if z >= 0 then z % m else -((-z) % m)
  }

  /** The bytes the summing loop reads: its index starts over for every chunk. */
  function Read(input: seq<byte>, left: nat): (r: seq<byte>)
    requires left <= |input|
  {
    if left == 0 then []
    else
      var n := if left < MODX then left else MODX;
      input[..n] + Read(input, left - n)
  }

  /** The two check octets for sums c0 and c1 over a PDU of length n. */
  function CheckOctets(n: nat, c0: nat, c1: nat): (r: (byte, byte))
    requires c0 < 255 && c1 < 255
  {
    var z := (n - 13) * c0 - c1;
    var x := TruncatedMod(z, 255);
    var x := if x < 0 then x + 255 else x;
    var y := 510 - c0 - x;
    var y := if y > 255 then y - 255 else y;
    (x, y)
  }

  function Csum(input: seq<byte>): (r: (byte, byte)) {
    var bytes := Read(input, |input|);
    CheckOctets(|input|, C0(bytes) % 255, C1(bytes) % 255)
  }

  /** The octets at the checksum's offsets. */
  function Stamp(s: seq<byte>, octets: (byte, byte)): (r: seq<byte>)
    requires |s| >= 14
  {
    s[12 := octets.0][13 := octets.1]
  }

  lemma AppendSums(s: seq<byte>, b: byte)
    ensures C0(s + [b]) == C0(s) + b
    ensures C1(s + [b]) == C1(s) + C0(s) + b
  {
    assert (s + [b])[..|s|] == s;
  }

  predicate Congruent(a: int, b: int) {
    a % 255 == b % 255
  }

  lemma SumsMod(a: int, b: int, c: int, d: int)
    requires Congruent(a, b) && Congruent(c, d)
    ensures Congruent(a + c, b + d)
  {
  }

  lemma Reduced(a: int, b: int)
    ensures Congruent(a, a)
    ensures Congruent(a, b) ==> a % 255 == b % 255 < 255
  {
  }

  /** Adds one chunk to the running sums and reduces them. */
  method SumChunk(input: seq<byte>, partialLen: nat, sum0: nat, sum1: nat, ghost done: seq<byte>)
    returns (c0: nat, c1: nat)
    requires partialLen <= |input| && Congruent(sum0, C0(done)) && Congruent(sum1, C1(done))
    ensures c0 < 255 && c0 == C0(done + input[..partialLen]) % 255
    ensures c1 < 255 && c1 == C1(done + input[..partialLen]) % 255
  {
    hide C0, C1, Congruent;
    c0, c1 := sum0, sum1;
    assert done + input[..0] == done;
    for i := 0 to partialLen
      invariant Congruent(c0, C0(done + input[..i])) && Congruent(c1, C1(done + input[..i]))
    {
      AppendSums(done + input[..i], input[i]);
      assert done + input[..i + 1] == done + input[..i] + [input[i]];
      Reduced(input[i], 0);
      SumsMod(c0, C0(done + input[..i]), input[i], input[i]);
      c0 := c0 + input[i];
      SumsMod(c1, C1(done + input[..i]), c0, C0(done + input[..i]) + input[i]);
      c1 := c1 + c0;
    }
    Reduced(c0, C0(done + input[..partialLen]));
    Reduced(c1, C1(done + input[..partialLen]));
    c0, c1 := c0 % 255, c1 % 255;
  }

  lemma EmptySums()
    ensures C0([]) == 0 && C1([]) == 0
  {
  }

  /** csum: chunk after chunk, each read from the start of the input. */
  method ComputeCsum(input: seq<byte>) returns (checksum: nat)
    ensures checksum == Csum(input).0 * 256 + Csum(input).1
  {
    hide C0, C1, CheckOctets;
    EmptySums();
    var c0, c1 := 0, 0;
    var left: nat := |input|;
    ghost var done: seq<byte> := [];
    while left != 0
      invariant left <= |input|
      invariant done + Read(input, left) == Read(input, |input|)
      invariant c0 < 255 && c1 < 255 && c0 == C0(done) % 255 && c1 == C1(done) % 255
      decreases left
    {
      var partialLen := if left < MODX then left else MODX;
      c0, c1 := SumChunk(input, partialLen, c0, c1, done);
      assert done + input[..partialLen] + Read(input, left - partialLen) == done + Read(input, left);
      done := done + input[..partialLen];
      left := left - partialLen;
    }
    assert done == Read(input, |input|);
    var octets := CheckOctets(|input|, c0, c1);
    checksum := octets.0 * 256 + octets.1;
  }

  // ---------------------------------------------------------------- correctness

  lemma CheckOctetsAre(n: nat, c0: nat, c1: nat) returns (q: int, e: int)
    requires n >= 14 && c0 < 255 && c1 < 255
    ensures var (x, y) := CheckOctets(n, c0, c1);
            (n - 13) * c0 - c1 == 255 * q + x && y == 255 * e - c0 - x
  {
    var z := (n - 13) * c0 - c1;
    var (x, y) := CheckOctets(n, c0, c1);
    q := z / 255;
    assert x == z % 255;
    e := if 510 - c0 - x > 255 then 1 else 2;
  }

  lemma Balance(m: int, c0: int, c1: int, x: int, y: int, q: int, e: int, b: int)
    requires m * c0 - c1 == 255 * q + x && y == 255 * e - c0 - x
    ensures c1 + 255 * b + (m + 1) * x + m * y == 255 * (b - q + m * e)
  {
    calc {
      m * y;
      m * (255 * e - c0 - x);
      255 * (m * e) - m * c0 - m * x;
    }
  }

  lemma MultipleOf255(k: int)
    ensures 255 * k % 255 == 0
  {
  }

  lemma CheckOctetsBalance(n: nat, s0: nat, s1: nat)
    requires n >= 14
    ensures var (x, y) := CheckOctets(n, s0 % 255, s1 % 255);
            && (s0 + x + y) % 255 == 0
            && (s1 + (n - 12) * x + (n - 13) * y) % 255 == 0
  {
    var c0, c1 := s0 % 255, s1 % 255;
    var (x, y) := CheckOctets(n, c0, c1);
    var q, e := CheckOctetsAre(n, c0, c1);
    Balance(n - 13, c0, c1, x, y, q, e, s1 / 255);
    MultipleOf255(s0 / 255 + e);
    MultipleOf255(s1 / 255 - q + (n - 13) * e);
  }

  lemma ReadAll(s: seq<byte>)
    requires |s| <= MODX
    ensures Read(s, |s|) == s
  {
    assert s[..|s|] == s;
  }

  lemma Distribute(k: int, a: int, b: int)
    ensures k * (a - b) == k * a - k * b
  {
  }

  lemma TwoUpdates(s: seq<byte>, i: nat, j: nat, v: byte, w: byte)
    requires i < j < |s|
    ensures C0(s[i := v][j := w]) == C0(s) + v + w - s[i] - s[j]
    ensures C1(s[i := v][j := w]) ==
            C1(s) + (|s| - i) * v + (|s| - j) * w - ((|s| - i) * s[i] + (|s| - j) * s[j])
  {
    var t := s[i := v];
    UpdateSums(s, i, v);
    UpdateSums(t, j, w);
    assert |t| == |s| && t[j] == s[j];
    Distribute(|s| - i, v, s[i]);
    Distribute(|s| - j, w, s[j]);
  }

  lemma DifferenceMod(a: int, b: int)
    requires a % 255 == 0
    ensures (a - b) % 255 == 0 <==> b % 255 == 0
  {
    var q := a / 255;
    if b % 255 == 0 {
      MultipleOf255(q - b / 255);
      assert a - b == 255 * (q - b / 255);
    }
    if (a - b) % 255 == 0 {
      MultipleOf255(q - (a - b) / 255);
      assert b == 255 * (q - (a - b) / 255);
    }
  }

  lemma MultipleMod(m: int, k: int, r: int)
    ensures (r + m * (255 * k)) % 255 == r % 255
  {
    assert m * (255 * k) == 255 * (m * k);
  }

  /** Taking the former octets out of balanced sums keeps them balanced only if they are zero modulo 255. */
  lemma FormerFieldMatters(m: nat, s0: int, s1: int, hi: byte, lo: byte)
    requires s0 % 255 == 0 && s1 % 255 == 0
    ensures (s0 - hi - lo) % 255 == 0 && (s1 - ((m + 1) * hi + m * lo)) % 255 == 0 <==>
            hi in {0, 255} && lo in {0, 255}
  {
    DifferenceMod(s0, hi + lo);
    DifferenceMod(s1, (m + 1) * hi + m * lo);
    assert (m + 1) * hi + m * lo == hi + m * (hi + lo);
    if (hi + lo) % 255 == 0 {
      var k := (hi + lo) / 255;
      assert hi + lo == 255 * k;
      MultipleMod(m, k, hi);
    }
  }

  /** When do the octets computed over a PDU verify? Exactly when each octet that stood in the
      checksum field is 0 or 255: the field is summed with the rest, not zeroed first. */
  lemma StampVerifiesIff(s: seq<byte>)
    requires 14 <= |s| <= MODX
    ensures Verifies(Stamp(s, Csum(s))) <==> s[12] in {0, 255} && s[13] in {0, 255}
  {
    var octets := Csum(s);
    ReadAll(s);
    CheckOctetsBalance(|s|, C0(s), C1(s));
    TwoUpdates(s, 12, 13, octets.0, octets.1);
    FormerFieldMatters(|s| - 13, C0(s) + octets.0 + octets.1,
                       C1(s) + (|s| - 12) * octets.0 + (|s| - 13) * octets.1, s[12], s[13]);
  }

  lemma {:induction false} ZeroSums(n: nat)
    ensures C0(Zeros(n)) == 0 && C1(Zeros(n)) == 0
  {
    if n > 0 {
      ZeroSums(n - 1);
      assert Zeros(n)[..n - 1] == Zeros(n - 1);
    }
  }

  lemma {:induction false} ReadsOnlyHead(s: seq<byte>, left: nat)
    requires left <= |s| && forall i :: 0 <= i < |s| && i < MODX ==> s[i] == 0
    ensures forall i :: 0 <= i < |Read(s, left)| ==> Read(s, left)[i] == 0
    decreases left
  {
    if left > 0 {
      var n := if left < MODX then left else MODX;
      ReadsOnlyHead(s, left - n);
    }
  }

  /** A PDU the loop never reads the last byte of. */
  lemma LongFails(n: nat)
    requires n > MODX
    ensures var s := Zeros(n)[n - 1 := 1]; !Verifies(Stamp(s, Csum(s)))
  {
    var s := Zeros(n)[n - 1 := 1];
    ReadsOnlyHead(s, n);
    var bytes := Read(s, n);
    assert bytes == Zeros(|bytes|);
    ZeroSums(|bytes|);
    assert Csum(s) == (0, 255);
    TwoUpdates(s, 12, 13, 0, 255);
    ZeroSums(n);
    UpdateSums(Zeros(n), n - 1, 1);
  }

  ghost predicate ZeroField(s: seq<byte>) {
    |s| >= 14 && s[12] == 0 && s[13] == 0
  }

  /** Exactly up to which length do the computed octets verify for every PDU with a zeroed field? */
  lemma CsumCorrectIff(n: nat)
    requires n >= 14
    ensures (forall s: seq<byte> :: |s| == n && ZeroField(s) ==> Verifies(Stamp(s, Csum(s)))) <==> n <= 5802
  {
    if n <= MODX {
      forall s: seq<byte> | |s| == n && ZeroField(s)
        ensures Verifies(Stamp(s, Csum(s)))
      {
        StampVerifiesIff(s);
      }
    } else {
      LongFails(n);
      assert ZeroField(Zeros(n)[n - 1 := 1]);
    }
  }

  // ---------------------------------------------------------------- the PDU

  /** The checksummed fields of a link state PDU; the TLVs in their wire form. */
  class LSPDU {
    var lspid: seq<byte>
    var sequenceNumber: seq<byte>
    var checksum: (byte, byte)
    var typeBlock: byte
    var tlvs: seq<byte>

    ghost predicate Valid()
      reads this
    {
      |lspid| == 8 && |sequenceNumber| == 4
    }

    function SerializeChecksumRelevant(): (r: seq<byte>)
      reads this
      ensures |r| == |lspid| + |sequenceNumber| + 3 + |tlvs|
      ensures |lspid| == 8 && |sequenceNumber| == 4 ==>
                && r[..8] == lspid && r[8..12] == sequenceNumber
                && r[12] == checksum.0 && r[13] == checksum.1 && r[14] == typeBlock && r[15..] == tlvs
    {
      lspid + sequenceNumber + [checksum.0, checksum.1] + [typeBlock] + tlvs
    }

    /** Sets the checksum. What is then sent verifies exactly when both octets of the former
        checksum were 0 or 255. */
    method SetChecksum()
      requires Valid()
      modifies this`checksum
      ensures checksum == Csum(old(SerializeChecksumRelevant()))
      ensures |SerializeChecksumRelevant()| <= 5802 ==>
                (Verifies(SerializeChecksumRelevant()) <==>
                 old(checksum).0 in {0, 255} && old(checksum).1 in {0, 255})
    {
      ghost var before := SerializeChecksumRelevant();
      var value := ComputeCsum(SerializeChecksumRelevant());
      checksum := (value / 256, value % 256);
      assert SerializeChecksumRelevant() == Stamp(before, checksum);
      if |before| <= MODX {
        StampVerifiesIff(before);
      }
    }
  }
}
