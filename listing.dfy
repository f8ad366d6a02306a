/**
 What the gather/fold traversal computes on a valid tree, shown with the
 gatherer that keeps each leaf as a one-element list and the folder that
 concatenates its children's lists: the summary of a region is nothing exactly
 when no leaf lies below it, and otherwise lists every leaf below it once, with
 its payload, in Morton (digit) order.
 */
module Listing {
  import opened Region
  import opened Octree
  import opened Traversal

  /** The gatherer: one leaf becomes the one-element listing of it. */
  function Collect<T>(c: Code, item: T): seq<(Code, T)>
  {
    [(c, item)]
  }

  function Flatten<X>(ss: seq<seq<X>>): seq<X>
  {
    if ss == [] then [] else ss[0] + Flatten(ss[1..])
  }

  /** The folder: the children's listings concatenated, nothing when that is empty. */
  function Join<T>(ss: seq<seq<(Code, T)>>): Option<seq<(Code, T)>>
  {
    var s := Flatten(ss);
    if s == [] then None else Some(s)
  }

  /** Code `a` comes strictly before code `b` in Morton order. */
  ghost predicate Before(a: Code, b: Code)
  {
    exists k | 0 <= k < |a| && k < |b| :: a[..k] == b[..k] && a[k] < b[k]
  }

  ghost predicate Ordered<T>(s: seq<(Code, T)>)
  {
    forall i, j | 0 <= i < j < |s| :: Before(s[i].0, s[j].0)
  }

  /** `s` holds leaves of `t` below `r` with their payloads, whose digit at level `|r|` is at least `d`. */
  ghost predicate LeavesFrom<T>(t: Tree<T>, r: Region, d: nat, s: seq<(Code, T)>)
  {
    forall i | 0 <= i < |s| ::
      && s[i].0 in t.leaves && IsPrefix(r, s[i].0) && |r| < |s[i].0| && d <= s[i].0[|r|]
      && s[i].1 == t.leaves[s[i].0]
  }

  /** `s` lists every leaf of `t` below `r` whose digit at level `|r|` is at least `d`. */
  ghost predicate HasLeavesFrom<T>(t: Tree<T>, r: Region, d: nat, s: seq<(Code, T)>)
  {
    forall c | c in t.leaves && IsPrefix(r, c) && |r| < |c| && d <= c[|r|] ::
      exists i | 0 <= i < |s| :: s[i].0 == c
  }

  /** `o` is what a traversal from `r` should produce: nothing exactly when no leaf lies
      below `r`, and otherwise the listing of those leaves. */
  ghost predicate Listing<T>(t: Tree<T>, r: Region, o: Option<seq<(Code, T)>>)
  {
    && (o.None? <==> forall c | c in t.leaves :: !IsPrefix(r, c))
    && (o.Some? ==> Lists(t, r, o.value))
  }

  /** `s` lists, each with its payload and in Morton order, the leaves below `r` whose digit at level `|r|` is at least `d`. */
  ghost predicate ListsFrom<T>(t: Tree<T>, r: Region, d: nat, s: seq<(Code, T)>)
  {
    LeavesFrom(t, r, d, s) && HasLeavesFrom(t, r, d, s) && Ordered(s)
  }

  /** `s` is the listing of the leaves below `r`: each with its payload, each once, in Morton order. */
  ghost predicate Lists<T>(t: Tree<T>, r: Region, s: seq<(Code, T)>)
  {
    && (forall i | 0 <= i < |s| :: s[i].0 in t.leaves && IsPrefix(r, s[i].0) && s[i].1 == t.leaves[s[i].0])
    && (forall c | c in t.leaves && IsPrefix(r, c) :: exists i | 0 <= i < |s| :: s[i].0 == c)
    && Ordered(s)
  }

  /** Morton order never relates a code to itself, so an ordered listing has no repeated code. */
  lemma OrderedDistinct<T>(s: seq<(Code, T)>)
    requires Ordered(s)
    ensures forall i, j | 0 <= i < |s| && 0 <= j < |s| && s[i].0 == s[j].0 :: i == j
  {
  }

  /** A leaf below `r` at a deeper level lies below the child of `r` its digit names. */
  lemma ChildOfLeaf(r: Region, c: Code)
    requires IsPrefix(r, c) && |r| < |c|
    ensures IsPrefix(r + [c[|r|]], c)
    ensures forall d: Digit :: IsPrefix(r + [d], c) ==> d == c[|r|]
  {
    EnterPrefix(r, c);
  }

  /** A leaf below child `d` of `r` lies below `r`, with digit `d` at level `|r|`. */
  lemma LeafOfChild(r: Region, d: Digit, c: Code)
    requires IsPrefix(r + [d], c)
    ensures IsPrefix(r, c) && |r| < |c| && c[|r|] == d
  {
    assert c[..|r|] == c[..|r| + 1][..|r|];
    assert c[|r|] == c[..|r| + 1][|r|];
  }

  /** A listing below child `d` of `r` followed by a listing of later children stays in Morton order. */
  lemma OrderedAppend<T>(r: Region, d: Digit, a: seq<(Code, T)>, b: seq<(Code, T)>)
    requires Ordered(a) && Ordered(b)
    requires forall i | 0 <= i < |a| :: IsPrefix(r + [d], a[i].0)
    requires forall i | 0 <= i < |b| :: IsPrefix(r, b[i].0) && |r| < |b[i].0| && d < b[i].0[|r|]
    ensures Ordered(a + b)
  {
    var s := a + b;
    forall i, j | 0 <= i < j < |s| ensures Before(s[i].0, s[j].0) {
      if j < |a| {
        assert s[i] == a[i] && s[j] == a[j];
      } else if |a| <= i {
        assert s[i] == b[i - |a|] && s[j] == b[j - |a|];
      } else {
        var x, y := a[i].0, b[j - |a|].0;
        LeafOfChild(r, d, x);
        assert x[..|r|] == r == y[..|r|];
        assert s[i].0 == x && s[j].0 == y;
      }
    }
  }

  /** The traversal with `Collect` and `Join` lists exactly the leaves below the region
      it starts from: for an absent region, the children are taken from the last to the
      first, each step extending the listing of the later children. */
  lemma {:induction false} SummaryLists<T>(t: Tree<T>, r: Region)
    requires Valid(t) && Covered(t.internals, r)
    ensures Listing(t, r, Summary(t, r, Collect, Join))
    decreases D - |r|
  {
    if r in t.internals {
      PresentLists(t, r);
    } else {
      AbsentCovered(t.internals, r);
      var d: nat := 8;
      while d > 0
        invariant 0 <= d <= 8
        invariant ListsFrom(t, r, d, Flatten(ChildSums(t, r, d, Collect, Join)))
      {
        d := d - 1;
        SummaryLists(t, r + [d]);
        ChildStep(t, r, d);
      }
      var s := Flatten(ChildSums(t, r, 0, Collect, Join));
      AbsentLists(t, r, s);
      assert Summary(t, r, Collect, Join) == if s == [] then None else Some(s);
    }
  }

  /** A present region lists its own leaf, or nothing when it is null. */
  lemma PresentLists<T>(t: Tree<T>, r: Region)
    requires Valid(t) && Covered(t.internals, r) && r in t.internals
    ensures Listing(t, r, Summary(t, r, Collect, Join))
  {
    var o := Summary(t, r, Collect, Join);
    match t.internals[r]
    case Some(e) =>
      assert o == Some([(e, t.leaves[e])]);
      assert o.value[0].0 == e;
      forall c | c in t.leaves && IsPrefix(r, c) ensures c == e {
        PresentOwner(t, r, c);
      }
    case None =>
      forall c | c in t.leaves && IsPrefix(r, c) ensures false {
        PresentOwner(t, r, c);
      }
  }

  /** An absent region lists what its children list, or nothing when they list nothing. */
  lemma AbsentLists<T>(t: Tree<T>, r: Region, s: seq<(Code, T)>)
    requires |r| < D && forall c | c in t.leaves :: |c| == D
    requires ListsFrom(t, r, 0, s)
    ensures Listing(t, r, if s == [] then None else Some(s))
  {
    if s != [] {
      assert t.leaves[s[0].0] == s[0].1 && IsPrefix(r, s[0].0);
    }
  }

  /** The listing of children `d..7` is that of child `d` followed by that of children `d+1..7`. */
  lemma ChildrenFlatten<T>(t: Tree<T>, r: Region, d: Digit)
    requires Linked(t) && Covered(t.internals, r) && r !in t.internals && Covered(t.internals, r + [d])
    ensures var o := Summary(t, r + [d], Collect, Join);
      Flatten(ChildSums(t, r, d, Collect, Join))
        == (if o.Some? then o.value else []) + Flatten(ChildSums(t, r, d + 1, Collect, Join))
  {
    AbsentCovered(t.internals, r);
    var o := Summary(t, r + [d], Collect, Join);
    var sums := ChildSums(t, r, d, Collect, Join);
    var rest := ChildSums(t, r, d + 1, Collect, Join);
    if o.Some? {
      assert sums == [o.value] + rest;
      assert sums[0] == o.value && sums[1..] == rest;
    } else {
      assert sums == [] + rest;
      assert sums == rest;
    }
  }

  /** Child `d` lists the leaves below it and children `d+1..7` list theirs, so children
      `d..7` list theirs. */
  lemma ChildStep<T>(t: Tree<T>, r: Region, d: Digit)
    requires Linked(t) && Covered(t.internals, r) && r !in t.internals && Covered(t.internals, r + [d])
    requires Listing(t, r + [d], Summary(t, r + [d], Collect, Join))
    requires ListsFrom(t, r, d + 1, Flatten(ChildSums(t, r, d + 1, Collect, Join)))
    ensures ListsFrom(t, r, d, Flatten(ChildSums(t, r, d, Collect, Join)))
  {
    ChildrenFlatten(t, r, d);
    var o := Summary(t, r + [d], Collect, Join);
    var a := if o.Some? then o.value else [];
    assert Lists(t, r + [d], a);
    AppendListing(t, r, d, a, Flatten(ChildSums(t, r, d + 1, Collect, Join)));
  }

  /** The listing below child `d` of `r` followed by the listing of children `d+1..7`
      is the listing of children `d..7`. */
  lemma AppendListing<T>(t: Tree<T>, r: Region, d: Digit, a: seq<(Code, T)>, b: seq<(Code, T)>)
    requires Lists(t, r + [d], a)
    requires ListsFrom(t, r, d + 1, b)
    ensures ListsFrom(t, r, d, a + b)
  {
    forall i | 0 <= i < |a| ensures IsPrefix(r, a[i].0) && |r| < |a[i].0| && a[i].0[|r|] == d {
      LeafOfChild(r, d, a[i].0);
    }
    OrderedAppend(r, d, a, b);
    var s := a + b;
    forall c | c in t.leaves && IsPrefix(r, c) && |r| < |c| && d <= c[|r|]
      ensures exists i | 0 <= i < |s| :: s[i].0 == c
    {
      if c[|r|] == d {
        ChildOfLeaf(r, c);
        var i :| 0 <= i < |a| && a[i].0 == c;
        assert s[i] == a[i];
      } else {
        var i :| 0 <= i < |b| && b[i].0 == c;
        assert s[|a| + i] == b[i];
      }
    }
  }
}
