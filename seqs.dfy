/** Keeping the elements of a sequence that satisfy a test, the way a loop that pushes them onto a fresh array does. */
module Seqs {
  import opened Wrappers

  /**
    The elements of `s` that satisfy `p`, in their order in `s`. The
    contract gives membership; the order is carried by the definition, and
    `FilterSnoc` and `FilterConcat` state it for one more element and for a
    concatenation.
  */
  function Filter<T>(s: seq<T>, p: T -> bool): (r: seq<T>)
    ensures |r| <= |s|
    ensures forall i :: 0 <= i < |r| ==> r[i] in s && p(r[i])
    ensures forall i :: 0 <= i < |s| && p(s[i]) ==> s[i] in r
    decreases |s|
  {
    if s == [] then []
    else
      var init := s[..|s| - 1];
      var rest := Filter(init, p);
      assert forall x :: x in init ==> x in s;
      assert forall i :: 0 <= i < |s| - 1 ==> s[i] == init[i];
      rest + (if p(s[|s| - 1]) then [s[|s| - 1]] else [])
  }

  /** The filter is empty exactly when no element passes the test. */
  lemma FilterEmpty<T>(s: seq<T>, p: T -> bool)
    ensures Filter(s, p) == [] <==> forall i :: 0 <= i < |s| ==> !p(s[i])
  {
    if Filter(s, p) != [] {
      var x := Filter(s, p)[0];
      var i :| 0 <= i < |s| && s[i] == x;
    }
  }

  /** Filtering a sequence with one more element at the end. */
  lemma FilterSnoc<T>(s: seq<T>, x: T, p: T -> bool)
    ensures Filter(s + [x], p) == Filter(s, p) + (if p(x) then [x] else [])
  {
    assert (s + [x])[..|s|] == s;
  }

  /** Filtering a concatenation filters each part. */
  lemma {:induction false} FilterConcat<T>(a: seq<T>, b: seq<T>, p: T -> bool)
    ensures Filter(a + b, p) == Filter(a, p) + Filter(b, p)
    decreases |b|
  {
    if b == [] {
      assert a + b == a;
    } else {
      var init, x := b[..|b| - 1], b[|b| - 1];
      assert b == init + [x];
      assert a + b == (a + init) + [x];
      FilterConcat(a, init, p);
      FilterSnoc(a + init, x, p);
      FilterSnoc(init, x, p);
    }
  }

  /** Pieces that filter alike, joined around the same element, filter alike. */
  lemma FilterAround<T>(a: seq<T>, a': seq<T>, x: T, b: seq<T>, b': seq<T>, p: T -> bool)
    requires Filter(a', p) == Filter(a, p) && Filter(b', p) == Filter(b, p)
    ensures Filter(a' + [x] + b', p) == Filter(a + [x] + b, p)
  {
    FilterConcat(a + [x], b, p);
    FilterSnoc(a, x, p);
    FilterConcat(a' + [x], b', p);
    FilterSnoc(a', x, p);
  }

  /** Parts that filter to nothing around `r` leave only what `r` filters to. */
  lemma FilterInside<T>(a: seq<T>, r: seq<T>, b: seq<T>, p: T -> bool)
    requires Filter(a, p) == [] && Filter(b, p) == []
    ensures Filter(a + r + b, p) == Filter(r, p)
  {
    FilterConcat(a + r, b, p);
    FilterConcat(a, r, p);
  }

  /** `f` applied to every element of `s`, in order. */
  function Map<A, B>(s: seq<A>, f: A -> B): (r: seq<B>)
    ensures |r| == |s|
    ensures forall i :: 0 <= i < |s| ==> r[i] == f(s[i])
    decreases |s|
  {
    if s == [] then [] else Map(s[..|s| - 1], f) + [f(s[|s| - 1])]
  }

  /** Mapping one more element appends its image. */
  lemma MapSnoc<A, B>(s: seq<A>, i: nat, f: A -> B)
    requires i < |s|
    ensures Map(s[..i + 1], f) == Map(s[..i], f) + [f(s[i])]
  {
    assert s[..i + 1][..i] == s[..i];
  }

  /** `f` applied to every element, in order, or None when it gives None for some element. */
  function MapAll<A, B>(s: seq<A>, f: A -> Option<B>): (r: Option<seq<B>>)
    ensures r.None? <==> exists i :: 0 <= i < |s| && f(s[i]).None?
    ensures r.Some? ==> |r.value| == |s| && forall i :: 0 <= i < |s| ==> f(s[i]) == Some(r.value[i])
    decreases |s|
  {
    if s == [] then Some([])
    else
      var init := s[..|s| - 1];
      assert forall i :: 0 <= i < |init| ==> init[i] == s[i];
      match MapAll(init, f)
      case None => None
      case Some(done) =>
        match f(s[|s| - 1])
        case None => None
        case Some(x) => Some(done + [x])
  }

  /** Applying `f` to one more element either fails with it or appends its image. */
  lemma MapAllSnoc<A, B>(s: seq<A>, i: nat, f: A -> Option<B>, done: seq<B>)
    requires i < |s| && MapAll(s[..i], f) == Some(done)
    ensures f(s[i]).None? ==> MapAll(s, f).None?
    ensures f(s[i]).Some? ==> MapAll(s[..i + 1], f) == Some(done + [f(s[i]).value])
  {
    assert s[..i + 1][..i] == s[..i];
  }
}
