/**
 * List operations the pipeline is built from: Python's list
 * comprehension with a condition, the accumulate-if-it-parses loop, and
 * flattening a list of lists. Every definition recurses on the last
 * element, the way the source's loops append.
 */
module Seqs {
  import opened Wrappers

  /** `[x for xs in xss for x in xs]`. */
  function Flatten<T>(xss: seq<seq<T>>): seq<T>
    decreases |xss|
  {
    if xss == [] then [] else Flatten(xss[..|xss| - 1]) + xss[|xss| - 1]
  }

  /** `[y for x in s for y in f(x)]`. */
  function FlatMap<A, B>(s: seq<A>, f: A -> seq<B>): seq<B>
    decreases |s|
  {
    if s == [] then [] else FlatMap(s[..|s| - 1], f) + f(s[|s| - 1])
  }

  /** Mapping a concatenation is concatenating the images. */
  lemma {:induction false} FlatMapAppend<A, B>(a: seq<A>, b: seq<A>, f: A -> seq<B>)
    ensures FlatMap(a + b, f) == FlatMap(a, f) + FlatMap(b, f)
    decreases |b|
  {
    if b == [] {
      assert a + b == a;
    } else {
      assert (a + b)[..|a + b| - 1] == a + b[..|b| - 1];
      FlatMapAppend(a, b[..|b| - 1], f);
    }
  }

  /** Flattening from the front: the first list, then the flattening of the rest. */
  lemma {:induction false} FlattenCons<T>(xss: seq<seq<T>>)
    requires xss != []
    ensures Flatten(xss) == xss[0] + Flatten(xss[1..])
    decreases |xss|
  {
    if |xss| > 1 {
      var init := xss[..|xss| - 1];
      FlattenCons(init);
      assert init[1..] == xss[1..][..|xss[1..]| - 1];
    } else {
      assert xss[..0] == [];
    }
  }

  /** Positions `i` of `s`, in increasing order, at which `p(s[i])` holds. */
  function Indices<T>(s: seq<T>, p: T -> bool): (idx: seq<nat>)
    ensures |idx| <= |s|
    ensures forall k :: 0 <= k < |idx| ==> idx[k] < |s| && p(s[idx[k]])
    ensures forall k, l :: 0 <= k < l < |idx| ==> idx[k] < idx[l]
    ensures forall i :: 0 <= i < |s| ==> (p(s[i]) <==> i in idx)
    decreases |s|
  {
    if s == [] then []
    else
      var init := Indices(s[..|s| - 1], p);
      assert forall k :: 0 <= k < |init| ==> s[init[k]] == s[..|s| - 1][init[k]];
      if p(s[|s| - 1]) then init + [|s| - 1] else init
  }

  /** `[x for x in s if p(x)]`. */
  function Filter<T>(s: seq<T>, p: T -> bool): seq<T>
    decreases |s|
  {
    if s == [] then []
    else Filter(s[..|s| - 1], p) + (if p(s[|s| - 1]) then [s[|s| - 1]] else [])
  }

  /**
   * The elements `Filter` keeps are those at `Indices`, in that order:
   * every element satisfying `p` is kept once, no other element is kept,
   * and the original order is preserved.
   */
  lemma {:induction false} FilterSelects<T>(s: seq<T>, p: T -> bool)
    ensures var idx := Indices(s, p);
            |Filter(s, p)| == |idx| && forall k :: 0 <= k < |idx| ==> Filter(s, p)[k] == s[idx[k]]
    decreases |s|
  {
    if s != [] {
      var init := s[..|s| - 1];
      FilterSelects(init, p);
      var idx0 := Indices(init, p);
      assert forall k :: 0 <= k < |idx0| ==> s[idx0[k]] == init[idx0[k]];
    }
  }

  /** An element is kept exactly when it occurs in `s` and satisfies `p`. */
  lemma {:induction false} FilterMembers<T>(s: seq<T>, p: T -> bool)
    ensures |Filter(s, p)| <= |s|
    ensures forall x :: x in Filter(s, p) <==> x in s && p(x)
    decreases |s|
  {
    if s != [] {
      var init := s[..|s| - 1];
      FilterMembers(init, p);
      assert s == init + [s[|s| - 1]];
    }
  }

  /** The predicate an optional conversion `f` passes for: it produced a value. */
  function Succeeds<A, B>(f: A -> Option<B>): A -> bool {
    x => f(x).Some?
  }

  /**
   * The loop `for x in s: try: out.append(f(x)) except: continue`,
   * with the failure of `f` written as `None`.
   */
  function FilterMap<A, B>(s: seq<A>, f: A -> Option<B>): seq<B>
    decreases |s|
  {
    if s == [] then []
    else
      FilterMap(s[..|s| - 1], f)
      + match f(s[|s| - 1]) case Some(y) => [y] case None => []
  }

  /**
   * `FilterMap` yields, in order, the converted values of exactly the
   * elements on which the conversion succeeds.
   */
  lemma {:induction false} FilterMapSelects<A, B>(s: seq<A>, f: A -> Option<B>)
    ensures var idx := Indices(s, Succeeds(f));
            |FilterMap(s, f)| == |idx|
            && forall k :: 0 <= k < |idx| ==> f(s[idx[k]]) == Some(FilterMap(s, f)[k])
    decreases |s|
  {
    if s != [] {
      var init := s[..|s| - 1];
      FilterMapSelects(init, f);
      FilterMapSelectsStep(s, f);
    }
  }

  /** One more element of a prefix: its result, if any, comes last. */
  lemma FilterMapStep<A, B>(s: seq<A>, i: nat, f: A -> Option<B>)
    requires i < |s|
    ensures FilterMap(s[..i + 1], f) == FilterMap(s[..i], f) + if f(s[i]).Some? then [f(s[i]).value] else []
  {
    assert s[..i + 1][..i] == s[..i];
  }

  /** Nothing is kept when `f` rejects every element. */
  lemma {:induction false} FilterMapNone<A, B>(s: seq<A>, f: A -> Option<B>)
    requires forall i :: 0 <= i < |s| ==> f(s[i]).None?
    ensures FilterMap(s, f) == []
    decreases |s|
  {
    if s != [] {
      var init := s[..|s| - 1];
      assert forall i :: 0 <= i < |init| ==> init[i] == s[i];
      FilterMapNone(init, f);
    }
  }

  /** At most one result per element. */
  lemma FilterMapLength<A, B>(s: seq<A>, f: A -> Option<B>)
    ensures |FilterMap(s, f)| <= |s|
    decreases |s|
  {
    if s != [] {
      FilterMapLength(s[..|s| - 1], f);
    }
  }

  /** One step of the induction of `FilterMapSelects`: appending the last element. */
  lemma FilterMapSelectsStep<A, B>(s: seq<A>, f: A -> Option<B>)
    requires s != []
    requires var init := s[..|s| - 1];
             var idx := Indices(init, Succeeds(f));
             |FilterMap(init, f)| == |idx|
             && forall k :: 0 <= k < |idx| ==> f(init[idx[k]]) == Some(FilterMap(init, f)[k])
    ensures var idx := Indices(s, Succeeds(f));
            |FilterMap(s, f)| == |idx|
            && forall k :: 0 <= k < |idx| ==> f(s[idx[k]]) == Some(FilterMap(s, f)[k])
  {
    var init, x := s[..|s| - 1], s[|s| - 1];
    var p := Succeeds(f);
    var idx0, r0 := Indices(init, p), FilterMap(init, f);
    var idx, r := Indices(s, p), FilterMap(s, f);
    assert p(x) == f(x).Some?;
    match f(x)
    case None =>
      assert idx == idx0 && r == r0;
      forall k | 0 <= k < |idx| ensures f(s[idx[k]]) == Some(r[k]) {
        assert s[idx0[k]] == init[idx0[k]];
      }
    case Some(y) =>
      assert idx == idx0 + [|s| - 1] && r == r0 + [y];
      forall k | 0 <= k < |idx| ensures f(s[idx[k]]) == Some(r[k]) {
        if k < |idx0| {
          assert s[idx0[k]] == init[idx0[k]];
        }
      }
  }
}
