/** Byte-wise comparison of two memory blocks. */
module Memcmp {
  import opened Common

  /**
   * The comparison result of the first `n` bytes: the difference of the bytes at the
   * first position where the blocks disagree, or 0 when they agree throughout.
   */
  function Compare(a: seq<Byte>, b: seq<Byte>, n: nat): int
    requires n <= |a| && n <= |b|
  {
    var k := CommonPrefix(a[..n], b[..n]);
    if k < n then a[k] as int - b[k] as int else 0
  }

  /** The scan over the first `n` bytes, returning at the first difference. */
  method Memcmp(a: seq<Byte>, b: seq<Byte>, n: nat) returns (r: int)
    requires n <= |a| && n <= |b|
    ensures r == Compare(a, b, n)
    ensures r == 0 <==> a[..n] == b[..n]
  {
    var i := 0;
    while i < n
      invariant 0 <= i <= n && a[..i] == b[..i]
    {
      if a[i] != b[i] {
        assert a[..n][..i] == a[..i] && b[..n][..i] == b[..i];
        CommonPrefixUnique(a[..n], b[..n], i);
        return a[i] as int - b[i] as int;
      }
      assert a[..i + 1] == a[..i] + [a[i]];
      assert b[..i + 1] == b[..i] + [b[i]];
      i := i + 1;
    }
    assert a[..n][..n] == a[..n] && b[..n][..n] == b[..n];
    CommonPrefixUnique(a[..n], b[..n], n);
    return 0;
  }

  /** Comparing nothing gives 0. */
  lemma CompareEmpty(a: seq<Byte>, b: seq<Byte>)
    ensures Compare(a, b, 0) == 0
  {
  }

  /** Zero exactly when the first `n` bytes agree. */
  lemma CompareZeroIffEqual(a: seq<Byte>, b: seq<Byte>, n: nat)
    requires n <= |a| && n <= |b|
    ensures Compare(a, b, n) == 0 <==> a[..n] == b[..n]
  {
    var k := CommonPrefix(a[..n], b[..n]);
    if k < n {
      assert a[..n][k] != b[..n][k];
    } else {
      assert a[..n] == a[..n][..k];
    }
  }

  /** Swapping the blocks negates the result. */
  lemma CompareAntisymmetric(a: seq<Byte>, b: seq<Byte>, n: nat)
    requires n <= |a| && n <= |b|
    ensures Compare(a, b, n) == -Compare(b, a, n)
  {
    var k := CommonPrefix(a[..n], b[..n]);
    CommonPrefixUnique(b[..n], a[..n], k);
  }

  /**
   * Only bytes up to the first difference matter: blocks that agree with `a` and `b` up
   * to and including it compare the same way.
   */
  lemma CompareIgnoresLaterBytes(a: seq<Byte>, b: seq<Byte>, a': seq<Byte>, b': seq<Byte>, n: nat)
    requires n <= |a| && n <= |b| && n <= |a'| && n <= |b'|
    requires var k := CommonPrefix(a[..n], b[..n]);
             var m := if k < n then k + 1 else n;
             a'[..m] == a[..m] && b'[..m] == b[..m]
    ensures Compare(a', b', n) == Compare(a, b, n)
  {
    var k := CommonPrefix(a[..n], b[..n]);
    var m := if k < n then k + 1 else n;
    assert k <= m <= n;
    assert a'[..n][..k] == a'[..m][..k] == a[..m][..k] == a[..n][..k];
    assert b'[..n][..k] == b'[..m][..k] == b[..m][..k] == b[..n][..k];
    if k < n {
      assert a'[k] == a[..m][k] && b'[k] == b[..m][k];
    }
    CommonPrefixUnique(a'[..n], b'[..n], k);
  }
}
