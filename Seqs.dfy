/** Generic sequence helpers: the list comprehension `[x for x in s if f(x)]`,
    the indices it keeps, `zip`, and element-wise maps. */
module Seqs {

  /** `[x for x in s if f(x)]`: the elements of `s` that satisfy `f`, in order. */
  function Filter<T>(f: T -> bool, s: seq<T>): (r: seq<T>)
    ensures |r| <= |s|
    ensures forall x :: x in r ==> x in s && f(x)
  {
    if s == [] then []
    else Filter(f, s[..|s| - 1]) + (if f(s[|s| - 1]) then [s[|s| - 1]] else [])
  }

  /** The positions in `s` of the elements that `Filter(f, s)` keeps. */
  function KeptIndices<T>(f: T -> bool, s: seq<T>): (r: seq<nat>)
    ensures forall k :: 0 <= k < |r| ==> r[k] < |s|
  {
    if s == [] then []
    else KeptIndices(f, s[..|s| - 1]) + (if f(s[|s| - 1]) then [|s| - 1] else [])
  }

  predicate StrictlyIncreasing(idx: seq<nat>) {
    forall k, l :: 0 <= k < l < |idx| ==> idx[k] < idx[l]
  }

  /** A filter that every element passes keeps the sequence. */
  lemma {:induction false} FilterAll<T>(f: T -> bool, s: seq<T>)
    requires forall k :: 0 <= k < |s| ==> f(s[k])
    ensures Filter(f, s) == s
  {
    if s != [] {
      var init := s[..|s| - 1];
      FilterAll(f, init);
      assert f(s[|s| - 1]);
      assert init + [s[|s| - 1]] == s;
    }
  }

  /** The filter is exactly the subsequence of `s` at the kept indices: it keeps
      every element satisfying `f`, drops every other one, and keeps their order. */
  lemma FilterSelects<T>(f: T -> bool, s: seq<T>)
    ensures |Filter(f, s)| == |KeptIndices(f, s)|
    ensures forall k :: 0 <= k < |KeptIndices(f, s)| ==> Filter(f, s)[k] == s[KeptIndices(f, s)[k]]
    ensures StrictlyIncreasing(KeptIndices(f, s))
    ensures forall j :: 0 <= j < |s| ==> (j in KeptIndices(f, s) <==> f(s[j]))
  {
    FilterAtKept(f, s);
    KeptIncreasing(f, s);
    KeptExactly(f, s);
  }

  lemma {:induction false} FilterAtKept<T>(f: T -> bool, s: seq<T>)
    ensures |Filter(f, s)| == |KeptIndices(f, s)|
    ensures forall k :: 0 <= k < |KeptIndices(f, s)| ==> Filter(f, s)[k] == s[KeptIndices(f, s)[k]]
  {
    if s != [] {
      var n := |s| - 1;
      var init := s[..n];
      FilterAtKept(f, init);
      var idx0, r0 := KeptIndices(f, init), Filter(f, init);
      var tailI: seq<nat> := if f(s[n]) then [n] else [];
      var tailR := if f(s[n]) then [s[n]] else [];
      assert KeptIndices(f, s) == idx0 + tailI;
      assert Filter(f, s) == r0 + tailR;
      forall k | 0 <= k < |idx0 + tailI|
        ensures (r0 + tailR)[k] == s[(idx0 + tailI)[k]]
      {
        if k < |idx0| {
          assert (r0 + tailR)[k] == r0[k] == init[idx0[k]];
        }
      }
    }
  }

  lemma {:induction false} KeptIncreasing<T>(f: T -> bool, s: seq<T>)
    ensures StrictlyIncreasing(KeptIndices(f, s))
  {
    if s != [] {
      var n := |s| - 1;
      KeptIncreasing(f, s[..n]);
    }
  }

  lemma {:induction false} KeptExactly<T>(f: T -> bool, s: seq<T>)
    ensures forall j :: 0 <= j < |s| ==> (j in KeptIndices(f, s) <==> f(s[j]))
  {
    if s != [] {
      var n := |s| - 1;
      var init := s[..n];
      KeptExactly(f, init);
      var idx0 := KeptIndices(f, init);
      var tailI: seq<nat> := if f(s[n]) then [n] else [];
      assert KeptIndices(f, s) == idx0 + tailI;
      forall j | 0 <= j < |s|
        ensures j in idx0 + tailI <==> f(s[j])
      {
        if j < n {
          assert init[j] == s[j];
          assert j !in tailI;
        } else {
          assert j !in idx0;
        }
      }
    }
  }

  /** Every element of `s` that satisfies `f` is in the filter. */
  lemma FilterComplete<T>(f: T -> bool, s: seq<T>, j: nat)
    requires j < |s| && f(s[j])
    ensures s[j] in Filter(f, s)
  {
    FilterSelects(f, s);
    var idx := KeptIndices(f, s);
    var k :| 0 <= k < |idx| && idx[k] == j;
    assert Filter(f, s)[k] == s[j];
  }

  /** A filter that accepts no element of `s` is empty. */
  lemma {:induction false} FilterNone<T>(f: T -> bool, s: seq<T>)
    requires forall j :: 0 <= j < |s| ==> !f(s[j])
    ensures Filter(f, s) == []
  {
    if s != [] {
      FilterNone(f, s[..|s| - 1]);
    }
  }

  /** Filtering distributes over concatenation. */
  lemma {:induction false} FilterAppend<T>(f: T -> bool, a: seq<T>, b: seq<T>)
    ensures Filter(f, a + b) == Filter(f, a) + Filter(f, b)
    decreases |b|
  {
    if b == [] {
      assert a + b == a;
    } else {
      var b' := b[..|b| - 1];
      assert (a + b)[..|a + b| - 1] == a + b';
      FilterAppend(f, a, b');
    }
  }

  /** Filters with pointwise-equal predicates agree. */
  lemma {:induction false} FilterExtensional<T>(f: T -> bool, g: T -> bool, s: seq<T>)
    requires forall x :: f(x) == g(x)
    ensures Filter(f, s) == Filter(g, s)
  {
    if s != [] {
      FilterExtensional(f, g, s[..|s| - 1]);
    }
  }

  /** The conjunction of two predicates, as used by a filter applied to a filter. */
  function Both<T>(f: T -> bool, g: T -> bool): T -> bool
  {
    x => f(x) && g(x)
  }

  /** Filtering twice is filtering once by the conjunction. */
  lemma {:induction false} FilterFilter<T>(f: T -> bool, g: T -> bool, s: seq<T>)
    ensures Filter(g, Filter(f, s)) == Filter(Both(f, g), s)
  {
    if s != [] {
      var init, last := s[..|s| - 1], s[|s| - 1];
      FilterFilter(f, g, init);
      FilterAppend(g, Filter(f, init), if f(last) then [last] else []);
    }
  }

  /** `[g(x) for x in s]`. */
  function Map<T, U>(g: T -> U, s: seq<T>): (r: seq<U>)
    ensures |r| == |s| && forall k :: 0 <= k < |s| ==> r[k] == g(s[k])
  {
    seq(|s|, k requires 0 <= k < |s| => g(s[k]))
  }

  /** `list(zip(a, b))` for sequences of equal length. */
  function Zip<A, B>(a: seq<A>, b: seq<B>): (r: seq<(A, B)>)
    requires |a| == |b|
    ensures |r| == |a| && forall k :: 0 <= k < |a| ==> r[k] == (a[k], b[k])
  {
    seq(|a|, k requires 0 <= k < |a| => (a[k], b[k]))
  }

  function Firsts<A, B>(ps: seq<(A, B)>): (r: seq<A>)
    ensures |r| == |ps| && forall k :: 0 <= k < |ps| ==> r[k] == ps[k].0
  {
    seq(|ps|, k requires 0 <= k < |ps| => ps[k].0)
  }

  function Seconds<A, B>(ps: seq<(A, B)>): (r: seq<B>)
    ensures |r| == |ps| && forall k :: 0 <= k < |ps| ==> r[k] == ps[k].1
  {
    seq(|ps|, k requires 0 <= k < |ps| => ps[k].1)
  }

  lemma ZipUnzip<A, B>(ps: seq<(A, B)>)
    ensures Zip(Firsts(ps), Seconds(ps)) == ps
  {
  }
}
