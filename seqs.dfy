/** Order-preserving selection over sequences: the `Array.prototype.filter`
    that the note collection and the sentence splitter both rely on. */
module Seqs {

  /** `a` can be obtained from `b` by deleting elements, keeping the order. */
  predicate IsSubsequence<T(==)>(a: seq<T>, b: seq<T>)
    decreases |b|
  {
    if a == [] then true
    else if b == [] then false
    else if a[0] == b[0] then IsSubsequence(a[1..], b[1..])
    else IsSubsequence(a, b[1..])
  }

  /** Every sequence is a subsequence of itself. */
  lemma {:induction false} SubsequenceOfItself<T>(s: seq<T>)
    ensures IsSubsequence(s, s)
  {
    if s != [] {
      SubsequenceOfItself(s[1..]);
    }
  }

  /** The elements of `s` that satisfy `p`, in their original order. */
  function Filter<T(==,!new)>(s: seq<T>, p: T -> bool): (r: seq<T>)
    ensures |r| <= |s|
    ensures IsSubsequence(r, s)
    ensures forall x :: p(x) ==> multiset(r)[x] == multiset(s)[x]
    ensures forall x :: !p(x) ==> multiset(r)[x] == 0
    ensures forall x :: x in r <==> x in s && p(x)
  {
    if s == [] then []
    else
      var rest := Filter(s[1..], p);
      assert s == [s[0]] + s[1..];
      if p(s[0]) then
        assert ([s[0]] + rest)[1..] == rest;
        [s[0]] + rest
      else
        assert rest != [] ==> rest[0] != s[0] by {
          if rest != [] { assert rest[0] in rest; }
        }
        rest
  }

  /** Filtering a second time with the same predicate changes nothing. */
  lemma {:induction false} FilterIdempotent<T(!new)>(s: seq<T>, p: T -> bool)
    ensures Filter(Filter(s, p), p) == Filter(s, p)
  {
    if s != [] {
      FilterIdempotent(s[1..], p);
      if p(s[0]) {
        assert ([s[0]] + Filter(s[1..], p))[1..] == Filter(s[1..], p);
      }
    }
  }

  /** Filtering with two predicates that agree on every element gives the
      same result. */
  lemma {:induction false} FilterCongruent<T(!new)>(s: seq<T>, p: T -> bool, q: T -> bool)
    requires forall k :: 0 <= k < |s| ==> p(s[k]) == q(s[k])
    ensures Filter(s, p) == Filter(s, q)
  {
    if s != [] {
      FilterCongruent(s[1..], p, q);
    }
  }

  /** When every element already satisfies `p`, filtering keeps the whole sequence. */
  lemma {:induction false} FilterKeepsAll<T(!new)>(s: seq<T>, p: T -> bool)
    requires forall k :: 0 <= k < |s| ==> p(s[k])
    ensures Filter(s, p) == s
  {
    if s != [] {
      FilterKeepsAll(s[1..], p);
      assert s == [s[0]] + s[1..];
    }
  }

  /** `m` is a merge of `a` and `b`: every element of `m` is taken, in order,
      from the front of exactly one of them. */
  predicate Interleaving<T(==)>(a: seq<T>, b: seq<T>, m: seq<T>)
    decreases |m|
  {
    if m == [] then a == [] && b == []
    else
      || (a != [] && a[0] == m[0] && Interleaving(a[1..], b, m[1..]))
      || (b != [] && b[0] == m[0] && Interleaving(a, b[1..], m[1..]))
  }

  /** A merge holds exactly the elements of its two parts, counted with
      multiplicity, and keeps the order of each part. */
  lemma {:induction false} InterleavingParts<T>(a: seq<T>, b: seq<T>, m: seq<T>)
    requires Interleaving(a, b, m)
    ensures multiset(a) + multiset(b) == multiset(m)
    ensures IsSubsequence(a, m) && IsSubsequence(b, m)
    decreases |m|
  {
    if m != [] {
      assert m == [m[0]] + m[1..];
      if a != [] && a[0] == m[0] && Interleaving(a[1..], b, m[1..]) {
        InterleavingParts(a[1..], b, m[1..]);
        assert a == [a[0]] + a[1..];
        SubsequenceSkip(b, m);
      } else {
        InterleavingParts(a, b[1..], m[1..]);
        assert b == [b[0]] + b[1..];
        SubsequenceSkip(a, m);
      }
    }
  }

  /** A subsequence of the tail of `m` is a subsequence of `m`. */
  lemma {:induction false} SubsequenceSkip<T>(a: seq<T>, m: seq<T>)
    requires m != [] && IsSubsequence(a, m[1..])
    ensures IsSubsequence(a, m)
    decreases |m|, 1
  {
    if a != [] && a[0] == m[0] {
      // Greedy matching of the head against m[0] leaves the rest of `a`
      // inside what follows in m[1..].
      SubsequenceTail(a, m[1..]);
    }
  }

  /** Dropping the head of a subsequence keeps it a subsequence. */
  lemma {:induction false} SubsequenceTail<T>(a: seq<T>, m: seq<T>)
    requires a != [] && IsSubsequence(a, m)
    ensures IsSubsequence(a[1..], m)
    decreases |m|, 2
  {
    assert m != [];
    if a[0] == m[0] {
      SubsequenceSkip(a[1..], m);
    } else {
      SubsequenceTail(a, m[1..]);
      SubsequenceSkip(a[1..], m);
    }
  }
}
