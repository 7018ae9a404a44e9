/** Order-preserving filtering, the shape of the script's list comprehensions and loops. */
module Seqs {
  import opened Wrappers

  /** The elements of `s` that satisfy `keep`, in their original order. */
  function Filter<T(!new)>(s: seq<T>, keep: T -> bool): (r: seq<T>)
    ensures |r| <= |s|
    ensures forall x :: x in r <==> x in s && keep(x)
    ensures forall k :: 0 <= k < |r| ==> r[k] in s && keep(r[k])
  {
    if s == [] then []
    else
      var rest := Filter(s[..|s| - 1], keep);
      assert forall x :: x in s <==> x in s[..|s| - 1] || x == s[|s| - 1];
      if keep(s[|s| - 1]) then rest + [s[|s| - 1]] else rest
  }

  /** Filtering keeps relative order: it distributes over concatenation. */
  lemma {:induction false} FilterConcat<T(!new)>(s: seq<T>, t: seq<T>, keep: T -> bool)
    ensures Filter(s + t, keep) == Filter(s, keep) + Filter(t, keep)
  {
    if t == [] {
      assert s + t == s;
    } else {
      var t' := t[..|t| - 1];
      assert (s + t)[..|s + t| - 1] == s + t';
      assert (s + t)[|s + t| - 1] == t[|t| - 1];
      FilterConcat(s, t', keep);
    }
  }

  /** What `f` yields for the elements of `s`, in order, leaving out `None`. */
  function FilterMap<A, B>(s: seq<A>, f: A -> Option<B>): (r: seq<B>)
    ensures |r| <= |s|
  {
    if s == [] then []
    else
      FilterMap(s[..|s| - 1], f)
        + match f(s[|s| - 1])
          case Some(b) => [b]
          case None => []
  }

  /** Mapping two stretches gives the results of each, one after the other. */
  lemma {:induction false} FilterMapConcat<A, B>(s: seq<A>, t: seq<A>, f: A -> Option<B>)
    ensures FilterMap(s + t, f) == FilterMap(s, f) + FilterMap(t, f)
  {
    if t == [] {
      assert s + t == s;
    } else {
      var t' := t[..|t| - 1];
      assert (s + t)[..|s + t| - 1] == s + t';
      assert (s + t)[|s + t| - 1] == t[|t| - 1];
      FilterMapConcat(s, t', f);
    }
  }

  /** Every result comes from some element. */
  lemma {:induction false} FilterMapFrom<A, B>(s: seq<A>, f: A -> Option<B>, b: B)
    requires b in FilterMap(s, f)
    ensures exists k :: 0 <= k < |s| && f(s[k]) == Some(b)
  {
    var init := s[..|s| - 1];
    if b in FilterMap(init, f) {
      FilterMapFrom(init, f, b);
      var k :| 0 <= k < |init| && f(init[k]) == Some(b);
      assert s[k] == init[k];
    } else {
      assert f(s[|s| - 1]) == Some(b);
    }
  }

  /** Every element `f` maps to something contributes it. */
  lemma {:induction false} FilterMapHit<A, B>(s: seq<A>, f: A -> Option<B>, k: nat)
    requires k < |s| && f(s[k]).Some?
    ensures f(s[k]).value in FilterMap(s, f)
  {
    var init := s[..|s| - 1];
    if k < |init| {
      assert init[k] == s[k];
      FilterMapHit(init, f, k);
    }
  }
}
