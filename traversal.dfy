/**
 The gather/fold traversal: starting from a region, rebuild the implicit tree
 shape from the interior map, gather a summary for every collapsed region, fold
 the children's summaries of every absent region, and record each summary
 produced in a region-to-summary map that is threaded through the recursion.
 */
module Traversal {
  import opened Region
  import opened Octree

  // ---------------------------------------------------------------------------
  // Which regions a traversal reaches

  /** `x` is reached from `r` by descending only through absent regions. */
  ghost predicate Visited(m: Internals, r: Region, x: Region)
  {
    IsPrefix(r, x) && forall k | |r| <= k < |x| :: x[..k] !in m
  }

  /** An absent covered region is above full depth, and each of its children is covered. */
  lemma AbsentCovered(m: Internals, r: Region)
    requires Covered(m, r) && r !in m
    ensures |r| < D
    ensures forall d: Digit :: Covered(m, r + [d])
  {
    assert IsPrefix(r, r) && r[..|r|] == r;
    forall d: Digit, c: Code | |c| == D && IsPrefix(r + [d], c)
      ensures exists k | |r| + 1 <= k <= D :: c[..k] in m
    {
      assert c[..|r|] == c[..|r| + 1][..|r|];
      assert IsPrefix(r, c);
      var k :| |r| <= k <= D && c[..k] in m;
    }
  }

  /** From a present region the traversal reaches that region only. */
  lemma VisitedPresent(m: Internals, r: Region)
    requires r in m
    ensures forall x :: Visited(m, r, x) <==> x == r
  {
    forall x | Visited(m, r, x) ensures x == r {
      assert x[..|r|] == r;
    }
  }

  /** From an absent region the traversal reaches that region and whatever its children reach. */
  lemma VisitedAbsent(m: Internals, r: Region)
    requires r !in m
    ensures forall x :: Visited(m, r, x) <==>
      x == r || (|r| < |x| && IsPrefix(r, x) && Visited(m, x[..|r| + 1], x))
  {
    forall x | |r| < |x| && IsPrefix(r, x) ensures Visited(m, r, x) <==> Visited(m, x[..|r| + 1], x) {
      EnterPrefix(r, x);
      assert x[..|r|] == r;
    }
    forall x | Visited(m, r, x) && x != r ensures |r| < |x| {
      assert x[..|r|] == r;
    }
  }

  // ---------------------------------------------------------------------------
  // What a traversal computes

  /** The summary of region `r`: the gatherer applied to its leaf when it is collapsed,
      nothing when it is null, and the folder applied to the summaries its children
      produce, in digit order, when it is absent. */
  ghost function Summary<T, S>(t: Tree<T>, r: Region, gather: (Code, T) -> S, fold: seq<S> -> Option<S>): Option<S>
    requires Linked(t) && Covered(t.internals, r)
    decreases D - |r|, 1, 0
  {
    if r in t.internals then
      match t.internals[r]
      case Some(c) => Some(gather(c, t.leaves[c]))
      case None => None
    else
      AbsentCovered(t.internals, r);
      fold(ChildSums(t, r, 0, gather, fold))
  }

  /** The summaries that children `d..7` of the absent region `r` produce, in digit order. */
  ghost function ChildSums<T, S>(t: Tree<T>, r: Region, d: nat, gather: (Code, T) -> S, fold: seq<S> -> Option<S>): seq<S>
    requires Linked(t) && Covered(t.internals, r) && r !in t.internals && d <= 8
    decreases D - |r|, 0, 8 - d
  {
    AbsentCovered(t.internals, r);
    if d == 8 then []
    else
      var first := Summary(t, r + [d], gather, fold);
      (if first.Some? then [first.value] else []) + ChildSums(t, r, d + 1, gather, fold)
  }

  /** A traversal from `r` records a summary at `x`. */
  ghost predicate Recorded<T, S>(t: Tree<T>, r: Region, x: Region, gather: (Code, T) -> S, fold: seq<S> -> Option<S>)
    requires Linked(t)
  {
    Visited(t.internals, r, x) && Covered(t.internals, x) && Summary(t, x, gather, fold).Some?
  }

  /** The traversal of children `d..7` of `r` records a summary at `x`. */
  ghost predicate InChildren<T, S>(t: Tree<T>, r: Region, d: nat, x: Region, gather: (Code, T) -> S, fold: seq<S> -> Option<S>)
    requires Linked(t)
  {
    |r| < |x| && IsPrefix(r, x) && d <= x[|r|] && Recorded(t, x[..|r| + 1], x, gather, fold)
  }

  /** What a traversal from a present region records. */
  lemma RecordedPresent<T, S>(t: Tree<T>, r: Region, gather: (Code, T) -> S, fold: seq<S> -> Option<S>)
    requires Linked(t) && Covered(t.internals, r) && r in t.internals
    ensures forall x :: Recorded(t, r, x, gather, fold) <==> x == r && Summary(t, r, gather, fold).Some?
  {
    VisitedPresent(t.internals, r);
  }

  /** What a traversal from an absent region records: the region itself when its summary
      exists, and what the traversals of its children record. */
  lemma RecordedAbsent<T, S>(t: Tree<T>, r: Region, gather: (Code, T) -> S, fold: seq<S> -> Option<S>)
    requires Linked(t) && Covered(t.internals, r) && r !in t.internals
    ensures forall x :: Recorded(t, r, x, gather, fold) <==>
      (x == r && Summary(t, r, gather, fold).Some?) || InChildren(t, r, 0, x, gather, fold)
  {
    VisitedAbsent(t.internals, r);
  }

  /** The children `d..7` record what child `d` records and what children `d+1..7` record,
      and the two never overlap. */
  lemma InChildrenStep<T, S>(t: Tree<T>, r: Region, d: Digit, gather: (Code, T) -> S, fold: seq<S> -> Option<S>)
    requires Linked(t)
    ensures forall x :: InChildren(t, r, d, x, gather, fold) <==>
      Recorded(t, r + [d], x, gather, fold) || InChildren(t, r, d + 1, x, gather, fold)
    ensures forall x :: Recorded(t, r + [d], x, gather, fold) ==> !InChildren(t, r, d + 1, x, gather, fold)
  {
    forall x | |r| < |x| && IsPrefix(r, x) ensures x[..|r| + 1] == r + [x[|r|]] {
      EnterPrefix(r, x);
    }
    forall x | Visited(t.internals, r + [d], x) ensures |r| < |x| && IsPrefix(r, x) && x[|r|] == d {
      assert x[..|r| + 1] == r + [d];
      assert x[..|r|] == x[..|r| + 1][..|r|];
      assert x[|r|] == x[..|r| + 1][|r|];
    }
  }

  // ---------------------------------------------------------------------------
  // The traversal itself

  /** `iter_gather_deep_linear_hashed_tree_fold_map_adder`: the summary of `r`, with every
      summary produced on the way recorded into `acc`. */
  function FoldRegion<T, S>(t: Tree<T>, r: Region, gather: (Code, T) -> S, fold: seq<S> -> Option<S>,
                            acc: map<Region, S>): (res: (Option<S>, map<Region, S>))
    requires Linked(t) && Covered(t.internals, r)
    ensures res.0 == Summary(t, r, gather, fold)
    ensures forall x :: x in res.1 <==> x in acc || Recorded(t, r, x, gather, fold)
    ensures forall x | x in res.1 ::
      res.1[x] == if Recorded(t, r, x, gather, fold) then Summary(t, x, gather, fold).value else acc[x]
    decreases D - |r|, 1, 0
  {
    if r in t.internals then
      RecordedPresent(t, r, gather, fold);
      match t.internals[r]
      case Some(c) =>
        var sum := gather(c, t.leaves[c]);
        (Some(sum), acc[r := sum])
      case None => (None, acc)
    else
      AbsentCovered(t.internals, r);
      RecordedAbsent(t, r, gather, fold);
      var (sums, acc') := FoldChildren(t, r, 0, gather, fold, acc, []);
      assert sums == ChildSums(t, r, 0, gather, fold);
      match fold(sums)
      case Some(sum) => (Some(sum), acc'[r := sum])
      case None => (None, acc')
  }

  /** The children `d..7` of the absent region `r`, visited in digit order: the summaries
      they produce are appended to `sums`, and what they record is added to `acc`. */
  function FoldChildren<T, S>(t: Tree<T>, r: Region, d: nat, gather: (Code, T) -> S, fold: seq<S> -> Option<S>,
                              acc: map<Region, S>, sums: seq<S>): (res: (seq<S>, map<Region, S>))
    requires Linked(t) && Covered(t.internals, r) && r !in t.internals && d <= 8
    ensures res.0 == sums + ChildSums(t, r, d, gather, fold)
    ensures forall x :: x in res.1 <==> x in acc || InChildren(t, r, d, x, gather, fold)
    ensures forall x | x in res.1 ::
      res.1[x] == if InChildren(t, r, d, x, gather, fold) then Summary(t, x, gather, fold).value else acc[x]
    decreases D - |r|, 0, 8 - d
  {
    AbsentCovered(t.internals, r);
    if d == 8 then
      (sums, acc)
    else
      var (sum, acc') := FoldRegion(t, r + [d], gather, fold, acc);
      var sums' := if sum.Some? then sums + [sum.value] else sums;
      assert sums' + ChildSums(t, r, d + 1, gather, fold) == sums + ChildSums(t, r, d, gather, fold);
      var res := FoldChildren(t, r, d + 1, gather, fold, acc', sums');
      ChildrenRecord(t, r, d, gather, fold, acc, acc', res.1);
      res
  }

  /** Recording child `d` into `acc` and then children `d+1..7` records children `d..7`. */
  lemma ChildrenRecord<T, S>(t: Tree<T>, r: Region, d: Digit, gather: (Code, T) -> S, fold: seq<S> -> Option<S>,
                             acc: map<Region, S>, mid: map<Region, S>, out: map<Region, S>)
    requires Linked(t)
    requires forall x :: x in mid <==> x in acc || Recorded(t, r + [d], x, gather, fold)
    requires forall x | x in mid ::
      mid[x] == if Recorded(t, r + [d], x, gather, fold) then Summary(t, x, gather, fold).value else acc[x]
    requires forall x :: x in out <==> x in mid || InChildren(t, r, d + 1, x, gather, fold)
    requires forall x | x in out ::
      out[x] == if InChildren(t, r, d + 1, x, gather, fold) then Summary(t, x, gather, fold).value else mid[x]
    ensures forall x :: x in out <==> x in acc || InChildren(t, r, d, x, gather, fold)
    ensures forall x | x in out ::
      out[x] == if InChildren(t, r, d, x, gather, fold) then Summary(t, x, gather, fold).value else acc[x]
  {
    InChildrenStep(t, r, d, gather, fold);
  }

  /** What one traversal started with an empty map returns, by the state of its region:
      a collapsed region yields and records the gatherer's summary of its leaf and nothing
      else; a null region yields and records nothing; in every case the start region is
      recorded exactly when a summary is returned, with that summary, and only regions
      below the start region are recorded. */
  lemma FoldOutcome<T, S>(t: Tree<T>, r: Region, gather: (Code, T) -> S, fold: seq<S> -> Option<S>)
    requires Linked(t) && Covered(t.internals, r)
    ensures var res := FoldRegion(t, r, gather, fold, map[]);
      && (r in res.1 <==> res.0.Some?)
      && (res.0.Some? ==> res.1[r] == res.0.value)
      && (forall x | x in res.1 :: IsPrefix(r, x))
      && (r in t.internals && t.internals[r].Some? ==>
            var c := t.internals[r].value;
            res == (Some(gather(c, t.leaves[c])), map[r := gather(c, t.leaves[c])]))
      && (r in t.internals && t.internals[r].None? ==> res == (None, map[]))
  {
    var res := FoldRegion(t, r, gather, fold, map[]);
    assert IsPrefix(r, r) && r[..|r|] == r;
    if r in t.internals {
      RecordedPresent(t, r, gather, fold);
      assert res.1.Keys == if res.0.Some? then {r} else {};
    }
  }
}
