/** Sequence facts the stage proofs rely on, and order-preserving selection:
    used to say that a stage emits part of its input, in input order. */
module Sequences {

  lemma Assoc<T>(a: seq<T>, b: seq<T>, c: seq<T>)
    ensures (a + b) + c == a + (b + c)
  {
  }

  lemma AppendNil<T>(a: seq<T>)
    ensures a + [] == a
  {
  }

  lemma NilAppend<T>(a: seq<T>)
    ensures [] + a == a
  {
  }

  /** Splitting a suffix of `s` at `m`. */
  lemma SliceSplit<T>(s: seq<T>, x: nat, m: nat)
    requires x <= m <= |s|
    ensures s[x..] == s[x..m] + s[m..]
  {
  }

  /** Extending a prefix of `s` by one element. */
  lemma SnocSlice<T>(p: seq<T>, s: seq<T>, i: nat)
    requires i < |s|
    ensures p + s[..i + 1] == (p + s[..i]) + [s[i]]
  {
    assert s[..i + 1] == s[..i] + [s[i]];
  }

  lemma WholeSlice<T>(p: seq<T>, s: seq<T>)
    ensures p + s[..|s|] == p + s
  {
    assert s[..|s|] == s;
  }


  /** `a` is obtained from `b` by deleting zero or more elements. */
  predicate IsSubseq<T(==)>(a: seq<T>, b: seq<T>)
    decreases |b|
  {
    a == [] || (b != [] && ((a[0] == b[0] && IsSubseq(a[1..], b[1..])) || IsSubseq(a, b[1..])))
  }

  lemma SubseqNil<T>(b: seq<T>)
    ensures IsSubseq([], b)
  {
  }

  lemma {:induction false} SubseqRefl<T>(a: seq<T>)
    ensures IsSubseq(a, a)
    decreases |a|
  {
    if a != [] {
      SubseqRefl(a[1..]);
    }
  }

  lemma {:induction false} SubseqPrepend<T>(c: seq<T>, b: seq<T>, d: seq<T>)
    requires IsSubseq(c, d)
    ensures IsSubseq(c, b + d)
    decreases |b|
  {
    if b == [] {
      assert b + d == d;
    } else {
      SubseqPrepend(c, b[1..], d);
      assert (b + d)[1..] == b[1..] + d;
    }
  }

  /** Subsequences can be concatenated piecewise. */
  lemma {:induction false} SubseqConcat<T>(a: seq<T>, b: seq<T>, c: seq<T>, d: seq<T>)
    requires IsSubseq(a, b) && IsSubseq(c, d)
    ensures IsSubseq(a + c, b + d)
    decreases |b|
  {
    if a == [] {
      assert a + c == c;
      SubseqPrepend(c, b, d);
    } else {
      assert (b + d)[1..] == b[1..] + d;
      if a[0] == b[0] && IsSubseq(a[1..], b[1..]) {
        SubseqConcat(a[1..], b[1..], c, d);
        assert (a + c)[1..] == a[1..] + c;
      } else {
        SubseqConcat(a, b[1..], c, d);
      }
    }
  }
}
