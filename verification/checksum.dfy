/**
  `calculate_checksum` of src/main.c: the XOR of a byte buffer, and the algebra of
  that fold (concatenation, single-byte updates, all-zero buffers).
 */
module Checksum {
  import opened Bytes

  /**
    XOR of all bytes of `data`, folded left to right starting from 0; it agrees with
    the fold taken from the right.
   */
  function Fold(data: seq<byte>): (r: byte)
    ensures r == FoldRight(data)
  {
    FoldMatchesRight(data);
    FoldPrefix(data, |data|)
  }

  /** The running value after the first `n` steps of the left fold. */
  function FoldPrefix(data: seq<byte>, n: nat): (r: byte)
    requires n <= |data|
  {
    if n == 0 then 0 else Xor(FoldPrefix(data, n - 1), data[n - 1])
  }

  /** An independent reference definition: the fold taken from the right. */
  function FoldRight(data: seq<byte>): (r: byte)
  {
    if |data| == 0 then 0 else Xor(data[0], FoldRight(data[1..]))
  }

  predicate AllZero(s: seq<byte>)
  {
    forall i :: 0 <= i < |s| ==> s[i] == 0
  }

  /** `calculate_checksum`: one pass over the buffer, XOR-ing every byte into the sum. */
  method CalculateChecksum(data: seq<byte>) returns (sum: byte)
    ensures sum == Fold(data)
    ensures sum == FoldRight(data)
  {
    sum := 0;
    var i := 0;
    while i < |data|
      invariant 0 <= i <= |data|
      invariant sum == FoldPrefix(data, i)
    {
      sum := Xor(sum, data[i]);
      i := i + 1;
    }
    FoldMatchesRight(data);
  }

  /** The first `n` steps of the fold only look at the first `n` bytes. */
  lemma {:induction false} FoldPrefixOfPrefix(a: seq<byte>, b: seq<byte>, n: nat)
    requires n <= |a| && n <= |b| && a[..n] == b[..n]
    ensures FoldPrefix(a, n) == FoldPrefix(b, n)
  {
    if n > 0 {
      assert a[..n - 1] == a[..n][..n - 1];
      assert b[..n - 1] == b[..n][..n - 1];
      assert a[n - 1] == a[..n][n - 1];
      assert b[n - 1] == b[..n][n - 1];
      FoldPrefixOfPrefix(a, b, n - 1);
    }
  }

  lemma {:induction false} FoldConcatPrefix(a: seq<byte>, b: seq<byte>, k: nat)
    requires k <= |b|
    ensures FoldPrefix(a + b, |a| + k) == Xor(Fold(a), FoldPrefix(b, k))
  {
    if k == 0 {
      FoldPrefixOfPrefix(a + b, a, |a|);
      XorZero(Fold(a));
    } else {
      FoldConcatPrefix(a, b, k - 1);
      assert (a + b)[|a| + k - 1] == b[k - 1];
      XorAssoc(Fold(a), FoldPrefix(b, k - 1), b[k - 1]);
    }
  }

  /** The checksum of a concatenation is the XOR of the parts' checksums. */
  lemma FoldConcat(a: seq<byte>, b: seq<byte>)
    ensures Fold(a + b) == Xor(Fold(a), Fold(b))
  {
    FoldConcatPrefix(a, b, |b|);
  }

  lemma FoldEmpty()
    ensures Fold([]) == 0
  {
  }

  lemma FoldSingle(x: byte)
    ensures Fold([x]) == x
  {
    assert FoldPrefix([x], 0) == 0;
    XorZero(x);
  }

  lemma FoldPair(x: byte, y: byte)
    ensures Fold([x, y]) == Xor(x, y)
  {
    assert [x, y] == [x] + [y];
    FoldConcat([x], [y]);
    FoldSingle(x);
    FoldSingle(y);
  }

  lemma FoldPrepend(x: byte, s: seq<byte>)
    ensures Fold([x] + s) == Xor(x, Fold(s))
  {
    FoldConcat([x], s);
    FoldSingle(x);
  }

  /** Prepending a byte to the buffer XORs it into every nonempty prefix of the left fold. */
  lemma {:induction false} FoldPrefixPrepend(x: byte, s: seq<byte>, n: nat)
    requires n <= |s|
    ensures FoldPrefix([x] + s, n + 1) == Xor(x, FoldPrefix(s, n))
  {
    if n == 0 {
      assert FoldPrefix([x] + s, 0) == 0;
      XorZero(x);
    } else {
      FoldPrefixPrepend(x, s, n - 1);
      assert ([x] + s)[n] == s[n - 1];
      XorAssoc(x, FoldPrefix(s, n - 1), s[n - 1]);
    }
  }

  /** The left fold computed by `calculate_checksum` agrees with the right fold. */
  lemma {:induction false} FoldMatchesRight(s: seq<byte>)
    ensures FoldPrefix(s, |s|) == FoldRight(s)
    decreases |s|
  {
    if |s| > 0 {
      FoldMatchesRight(s[1..]);
      FoldPrefixPrepend(s[0], s[1..], |s| - 1);
      assert [s[0]] + s[1..] == s;
    }
  }

  /** Replacing byte `i` by `v` changes the checksum by exactly `s[i] ^ v`. */
  lemma FoldUpdate(s: seq<byte>, i: int, v: byte)
    requires 0 <= i < |s|
    ensures Fold(s[i := v]) == Xor(Xor(Fold(s), s[i]), v)
  {
    var pre, post := s[..i], s[i + 1..];
    assert s == pre + ([s[i]] + post);
    assert s[i := v] == pre + ([v] + post);
    var p, q := Fold(pre), Fold(post);
    FoldConcat(pre, [s[i]] + post);
    FoldConcat(pre, [v] + post);
    FoldPrepend(s[i], post);
    FoldPrepend(v, post);
    // Fold(s) == p ^ (s[i] ^ q), Fold(s[i := v]) == p ^ (v ^ q)
    calc {
      Xor(Xor(Fold(s), s[i]), v);
      Xor(Xor(Xor(p, Xor(s[i], q)), s[i]), v);
      { XorComm(s[i], q); XorAssoc(p, q, s[i]); }
      Xor(Xor(Xor(Xor(p, q), s[i]), s[i]), v);
      { XorCancel(Xor(p, q), s[i]); }
      Xor(Xor(p, q), v);
      { XorAssoc(p, q, v); XorComm(q, v); }
      Xor(p, Xor(v, q));
      Fold(s[i := v]);
    }
  }

  lemma {:induction false} FoldPrefixZeros(s: seq<byte>, n: nat)
    requires n <= |s| && AllZero(s)
    ensures FoldPrefix(s, n) == 0
  {
    if n > 0 {
      FoldPrefixZeros(s, n - 1);
      XorZero(0);
    }
  }

  /** A buffer of zero bytes has checksum 0. */
  lemma FoldZeros(s: seq<byte>)
    requires AllZero(s)
    ensures Fold(s) == 0
  {
    FoldPrefixZeros(s, |s|);
  }
}
