/** Generic sequence helpers: the `filter`, `map` and `find` shapes the explorer uses. */
module Seqs {

  /** `a` is `b` with some elements dropped and the rest kept in order. */
  predicate IsSubseq<T(==)>(a: seq<T>, b: seq<T>)
    decreases |b|
  {
    a == [] || (b != [] && ((a[0] == b[0] && IsSubseq(a[1..], b[1..])) || IsSubseq(a, b[1..])))
  }

  /** JavaScript truthiness of a string (`!!s`) or of an array's length: non-empty. */
  predicate NonEmpty<T>(s: seq<T>)
  {
    s != []
  }

  /** `s.filter(p)`: the elements satisfying `p`, in their original order. */
  function Filter<T>(p: T -> bool, s: seq<T>): (r: seq<T>)
    ensures |r| <= |s|
    ensures forall i :: 0 <= i < |r| ==> r[i] in s && p(r[i])
    ensures forall i :: 0 <= i < |s| && p(s[i]) ==> s[i] in r
    ensures IsSubseq(r, s)
  {
    if s == [] then []
    else if p(s[0]) then [s[0]] + Filter(p, s[1..])
    else Filter(p, s[1..])
  }

  /** `s.map(f)`. */
  function Map<T, U>(f: T -> U, s: seq<T>): (r: seq<U>)
    ensures |r| == |s|
    ensures forall i :: 0 <= i < |s| ==> r[i] == f(s[i])
  {
    seq(|s|, i requires 0 <= i < |s| => f(s[i]))
  }

  /** The elements of every inner sequence, one after another. */
  function Concat<T>(ss: seq<seq<T>>): seq<T>
  {
    if ss == [] then [] else ss[0] + Concat(ss[1..])
  }

  /** An element either passes a test or its complement, so the two filters share out the sequence. */
  lemma {:induction false} FilterComplementLength<T>(p: T -> bool, q: T -> bool, s: seq<T>)
    requires forall i :: 0 <= i < |s| ==> q(s[i]) == !p(s[i])
    ensures |Filter(p, s)| + |Filter(q, s)| == |s|
  {
    if s != [] {
      FilterComplementLength(p, q, s[1..]);
    }
  }

  /** Filtering keeps everything when every element passes. */
  lemma {:induction false} FilterKeepsAll<T>(p: T -> bool, s: seq<T>)
    requires forall i :: 0 <= i < |s| ==> p(s[i])
    ensures Filter(p, s) == s
  {
    if s != [] {
      FilterKeepsAll(p, s[1..]);
    }
  }

  /** Filtering distributes over concatenation. */
  lemma {:induction false} FilterAppend<T>(p: T -> bool, a: seq<T>, b: seq<T>)
    ensures Filter(p, a + b) == Filter(p, a) + Filter(p, b)
  {
    if a == [] {
      assert a + b == b;
    } else {
      assert (a + b)[0] == a[0] && (a + b)[1..] == a[1..] + b;
      FilterAppend(p, a[1..], b);
      if p(a[0]) {
        assert Filter(p, a + b) == [a[0]] + Filter(p, a[1..] + b);
      }
    }
  }

  /** Dropping the empty images is mapping the elements whose image is not empty. */
  lemma {:induction false} FilterMapSwap<T, U>(f: T -> seq<U>, p: T -> bool, s: seq<T>)
    requires forall i :: 0 <= i < |s| ==> NonEmpty(f(s[i])) == p(s[i])
    ensures Filter(NonEmpty, Map(f, s)) == Map(f, Filter(p, s))
  {
    if s != [] {
      FilterMapSwap(f, p, s[1..]);
      assert Map(f, s)[1..] == Map(f, s[1..]);
      if p(s[0]) {
        assert Map(f, [s[0]] + Filter(p, s[1..])) == [f(s[0])] + Map(f, Filter(p, s[1..]));
      }
    }
  }

  /** Dropping empty inner sequences does not change the concatenation. */
  lemma {:induction false} ConcatFilterNonEmpty<T>(ss: seq<seq<T>>)
    ensures Concat(Filter(NonEmpty, ss)) == Concat(ss)
  {
    if ss != [] {
      ConcatFilterNonEmpty(ss[1..]);
    }
  }

  /** More distinct slots than values forces a repeat. */
  lemma {:induction false} Pigeonhole<T>(w: seq<T>, s: set<T>)
    requires forall k :: 0 <= k < |w| ==> w[k] in s
    requires |s| < |w|
    ensures exists i, j :: 0 <= i < j < |w| && w[i] == w[j]
  {
    var last := |w| - 1;
    var x := w[last];
    var front := w[..last];
    if x in front {
      var i :| 0 <= i < |front| && front[i] == x;
      assert w[i] == w[last];
    } else {
      forall k | 0 <= k < |front|
        ensures front[k] in s - {x}
      {
        assert front[k] == w[k];
      }
      Pigeonhole(front, s - {x});
      var i, j :| 0 <= i < j < |front| && front[i] == front[j];
      assert w[i] == w[j];
    }
  }
}
