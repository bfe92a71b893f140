/** Unsigned integers as byte strings: powers of 256, the low-order bytes of
    a number, the number a little-endian byte string denotes, byte reversal,
    and the minimal byte count of a positive magnitude. */
module Bytes {

  /** An unsigned char. */
  newtype byte = x: int | 0 <= x < 256

  /** 256 to the power `n`: one more than the largest value `n` bytes hold. */
  function Pow256(n: nat): (r: nat)
    ensures 0 < r
  {
    if n == 0 then 1 else 256 * Pow256(n - 1)
  }

  /** The `n` low-order bytes of `m`, least significant first. */
  function LowBytes(m: nat, n: nat): (bs: seq<byte>)
    ensures |bs| == n
  {
    if n == 0 then [] else [(m % 256) as byte] + LowBytes(m / 256, n - 1)
  }

  /** What is left of `m` once its `n` low-order bytes are shifted out. */
  function HighPart(m: nat, n: nat): nat
  {
    if n == 0 then m else HighPart(m / 256, n - 1)
  }

  /** The number a byte string denotes when read least significant first. */
  function LittleEndianValue(bs: seq<byte>): (v: nat)
    ensures v < Pow256(|bs|)
  {
    if |bs| == 0 then 0 else bs[0] as int + 256 * LittleEndianValue(bs[1..])
  }

  /** The bytes of `bs` in the opposite order. */
  function Reverse(bs: seq<byte>): (rs: seq<byte>)
    ensures |rs| == |bs|
    ensures forall i :: 0 <= i < |bs| ==> rs[i] == bs[|bs| - 1 - i]
  {
    if |bs| == 0 then [] else Reverse(bs[1..]) + [bs[0]]
  }

  /** The number of rounds of "shift right by one byte" that bring a
      positive magnitude to zero. */
  function ByteCount(m: nat): (n: nat)
    ensures 1 <= n
  {
    if m < 256 then 1 else 1 + ByteCount(m / 256)
  }

  lemma {:induction false} Pow256Monotone(i: nat, j: nat)
    requires i <= j
    ensures Pow256(i) <= Pow256(j)
    decreases j
  {
    if i < j { Pow256Monotone(i, j - 1); }
  }

  /** Splitting a number into its low `n` bytes and the rest loses nothing. */
  lemma {:induction false} LowBytesSplit(m: nat, n: nat)
    ensures m == LittleEndianValue(LowBytes(m, n)) + Pow256(n) * HighPart(m, n)
  {
    if n > 0 {
      var q := m / 256;
      LowBytesSplit(q, n - 1);
      var low := LittleEndianValue(LowBytes(q, n - 1));
      var ph := Pow256(n - 1) * HighPart(q, n - 1);
      assert LittleEndianValue(LowBytes(m, n)) == m % 256 + 256 * low by {
        LittleEndianValueCons((m % 256) as byte, LowBytes(q, n - 1));
      }
      assert Pow256(n) * HighPart(m, n) == 256 * ph by {
        ScaleBy256(Pow256(n - 1), HighPart(q, n - 1));
      }
    }
  }

  /** Reading a byte string least significant first: the first byte, plus
      256 times the rest. */
  lemma LittleEndianValueCons(b: byte, rest: seq<byte>)
    ensures LittleEndianValue([b] + rest) == b as int + 256 * LittleEndianValue(rest)
  {
    assert ([b] + rest)[1..] == rest;
  }

  lemma DivModByte(b: nat, rest: nat)
    requires b < 256
    ensures (b + 256 * rest) % 256 == b && (b + 256 * rest) / 256 == rest
  {
  }

  lemma ScaleBy256(p: nat, h: nat)
    ensures (256 * p) * h == 256 * (p * h)
  {
  }

  /** A number below 256^n has nothing left above its low `n` bytes. */
  lemma {:induction false} HighPartOfSmall(m: nat, n: nat)
    requires m < Pow256(n)
    ensures HighPart(m, n) == 0
  {
    if n > 0 {
      HighPartOfSmall(m / 256, n - 1);
    }
  }

  /** Reading back the `n` low bytes of a number below 256^n gives the number. */
  lemma LowBytesRoundTrip(m: nat, n: nat)
    requires m < Pow256(n)
    ensures LittleEndianValue(LowBytes(m, n)) == m
  {
    LowBytesSplit(m, n);
    HighPartOfSmall(m, n);
  }

  /** Every byte string is the low bytes of the number it denotes. */
  lemma {:induction false} LittleEndianValueRoundTrip(bs: seq<byte>)
    ensures LowBytes(LittleEndianValue(bs), |bs|) == bs
  {
    if |bs| > 0 {
      var v := LittleEndianValue(bs);
      var rest := LittleEndianValue(bs[1..]);
      DivModByte(bs[0] as int, rest);
      LittleEndianValueRoundTrip(bs[1..]);
      assert LowBytes(v, |bs|) == [(v % 256) as byte] + LowBytes(rest, |bs| - 1);
    }
  }

  /** Fewer low bytes are a prefix of more low bytes. */
  lemma {:induction false} LowBytesPrefix(m: nat, n: nat, k: nat)
    requires n <= k
    ensures LowBytes(m, k)[..n] == LowBytes(m, n)
  {
    if n > 0 {
      LowBytesPrefix(m / 256, n - 1, k - 1);
      assert LowBytes(m, k)[..n] == [(m % 256) as byte] + LowBytes(m / 256, k - 1)[..n - 1];
    }
  }

  /** The last `n` of the `k` low bytes in big-endian order are the `n` low
      bytes in big-endian order. */
  lemma LowBytesBigEndianSuffix(m: nat, n: nat, k: nat)
    requires n <= k
    ensures Reverse(LowBytes(m, k))[k - n..] == Reverse(LowBytes(m, n))
  {
    LowBytesPrefix(m, n, k);
    var big := Reverse(LowBytes(m, k));
    var small := Reverse(LowBytes(m, n));
    forall i | 0 <= i < n
      ensures big[k - n..][i] == small[i]
    {
      assert LowBytes(m, k)[n - 1 - i] == LowBytes(m, n)[n - 1 - i];
    }
  }

  /** Reversing twice restores the original bytes. */
  lemma ReverseReverse(bs: seq<byte>)
    ensures Reverse(Reverse(bs)) == bs
  {
  }

  /** ByteCount is the minimal byte count: the magnitude fits in that many
      bytes and not in one fewer. */
  lemma {:induction false} ByteCountIsMinimal(m: nat)
    requires 0 < m
    ensures m < Pow256(ByteCount(m))
    ensures Pow256(ByteCount(m) - 1) <= m
  {
    if m >= 256 {
      ByteCountIsMinimal(m / 256);
    }
  }

  /** A magnitude that fits in `k` bytes needs at most `k` of them. */
  lemma {:induction false} ByteCountAtMost(m: nat, k: nat)
    requires 0 < m < Pow256(k)
    ensures ByteCount(m) <= k
  {
    if m >= 256 {
      assert Pow256(0) == 1 && Pow256(1) == 256;
      assert k >= 2;
      ByteCountAtMost(m / 256, k - 1);
    }
  }

  /** A byte count with the two minimality bounds is the one ByteCount gives. */
  lemma {:induction false} ByteCountUnique(m: nat, n: nat)
    requires 1 <= n && Pow256(n - 1) <= m < Pow256(n)
    ensures ByteCount(m) == n
  {
    if n == 1 {
      assert m < 256;
    } else {
      assert m >= 256 by { Pow256AtLeast256(n - 1); }
      ByteCountUnique(m / 256, n - 1);
    }
  }

  lemma {:induction false} Pow256AtLeast256(n: nat)
    requires 1 <= n
    ensures 256 <= Pow256(n)
  {
    if n > 1 { Pow256AtLeast256(n - 1); }
  }
}
