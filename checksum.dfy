/** The additive "hash sum" of an encoded screenshot
    (TimeTracker::calculateHashSum). */
module Checksum {
  import opened Primitives

  /** Sum of the signed `char` values of the bytes, accumulated front to back. */
  function HashSum(bytes: seq<Byte>): int
  {
    if |bytes| == 0 then 0 else HashSum(bytes[..|bytes| - 1]) + Signed(bytes[|bytes| - 1])
  }

  /** Each byte adds between -128 and 127, so n bytes sum to a value in
      [-128 n, 127 n]. */
  lemma {:induction false} HashSumBounds(bytes: seq<Byte>)
    ensures -128 * |bytes| <= HashSum(bytes) <= 127 * |bytes|
  {
    if |bytes| > 0 {
      HashSumBounds(bytes[..|bytes| - 1]);
    }
  }

  /** The checksum of a concatenation is the sum of the checksums. */
  lemma {:induction false} HashSumConcat(a: seq<Byte>, b: seq<Byte>)
    ensures HashSum(a + b) == HashSum(a) + HashSum(b)
    decreases |b|
  {
    if |b| > 0 {
      var b' := b[..|b| - 1];
      assert (a + b)[..|a + b| - 1] == a + b';
      HashSumConcat(a, b');
    } else {
      assert a + b == a;
    }
  }

  /** Any reordering of the bytes leaves the checksum unchanged: it depends
      only on how often each byte value occurs. */
  lemma {:induction false} HashSumPermutation(a: seq<Byte>, b: seq<Byte>)
    requires multiset(a) == multiset(b)
    ensures HashSum(a) == HashSum(b)
    decreases |a|
  {
    if |a| > 0 {
      var n := |a| - 1;
      var x: Byte := a[n];
      assert a == a[..n] + [x];
      assert x in multiset(b);
      var k :| 0 <= k < |b| && b[k] == x;
      var rest: seq<Byte> := b[..k] + b[k + 1..];
      assert b == b[..k] + [x] + b[k + 1..];
      assert multiset(a) == multiset(a[..n]) + multiset{x};
      assert multiset(b) == multiset(b[..k]) + multiset{x} + multiset(b[k + 1..]);
      assert multiset(rest) == multiset(b[..k]) + multiset(b[k + 1..]);
      forall y: Byte ensures multiset(a[..n])[y] == multiset(rest)[y] {
        assert multiset(a)[y] == multiset(a[..n])[y] + multiset{x}[y];
      }
      assert multiset(a[..n]) == multiset(rest);
      HashSumPermutation(a[..n], rest);
      HashSumConcat(b[..k] + [x], b[k + 1..]);
      HashSumConcat(b[..k], [x]);
      HashSumConcat(b[..k], b[k + 1..]);
    } else {
      assert |b| == |multiset(b)| == 0;
    }
  }

  /** Two different images can share a checksum, so it identifies nothing. */
  lemma HashSumCollides()
    ensures var a, b: seq<Byte> := [1, 2], [2, 1]; a != b && HashSum(a) == HashSum(b)
  {
    var a, b: seq<Byte> := [1, 2], [2, 1];
    assert a[0] != b[0];
    assert multiset(a) == multiset(b);
    HashSumPermutation(a, b);
  }

  /** A QByteArray holds fewer than 2^31 bytes, so the `qint64` accumulator of
      the source never overflows and the unbounded sum is exact. */
  lemma HashSumFitsInt64(bytes: seq<Byte>)
    requires |bytes| < 0x8000_0000
    ensures -0x8000_0000_0000_0000 <= HashSum(bytes) < 0x8000_0000_0000_0000
  {
    HashSumBounds(bytes);
  }
}
