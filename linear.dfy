/**
 `Linear<T, M>`: the octree object whose two maps are updated in place. Each
 method is proved against the functions on the tree value in `Octree`,
 `Insertion` and `Traversal`, and keeps the structural invariant.
 */
module Linear {
  import opened Region
  import opened Octree
  import opened Insertion
  import opened Traversal
  import opened Shape

  class Linear<T> {
    /** Full code to payload. */
    var leaves: map<Code, T>
    /** Region to the code it collapses to, `None` for a region known to be empty. */
    var internals: Internals

    function Value(): Tree<T>
      reads this
    {
      Tree(leaves, internals)
    }

    /** The structural invariant, and every present region but the root a child of a
        region holding two codes. */
    ghost predicate Valid()
      reads this
    {
      Octree.Valid(Value()) && Minimal(Value())
    }

    /** `Default::default` / `new`: no leaves, and the root region present and null. */
    constructor()
      ensures Valid()
      ensures leaves == map[] && internals == map[[] := None]
    {
      leaves := map[];
      internals := map[[] := None];
      EmptyValid<T>();
      EmptyMinimal<T>();
    }

    /** `insert`: store the payload, then, for a new code, walk the regions on its path
        from the root to the first present one; claim it when it is null, and split it
        when it is collapsed to another code. */
    method Insert(code: Code, item: T)
      requires Valid() && |code| == D
      modifies this
      ensures Value() == InsertTree(old(Value()), code, item)
      ensures Valid()
    {
      ghost var t0 := Value();
      InsertPreservesValid(t0, code, item);
      InsertPreservesMinimal(t0, code, item);
      if code in leaves {
        leaves := leaves[code := item];
        return;
      }
      leaves := leaves[code := item];
      assert IsPrefix([], code);
      ghost var p := FirstPresent(t0.internals, code, 0);
      for lv := 0 to D + 1
        invariant leaves == t0.leaves[code := item] && internals == t0.internals
        invariant lv <= p
      {
        var region := code[..lv];
        if region in internals {
          assert lv == p;
          match internals[region]
          case None =>
            internals := internals[region := Some(code)];
            return;
          case Some(leaf) =>
            internals := internals - {region};
            SplitStart(t0, code, lv, leaf);
            SplitDown(region, leaf, code);
            return;
        }
      }
      assert false;
    }

    /** The split loop of `insert`, started at the collapsed region `start` (already
        removed) that held `leaf`: at each level where the two codes share a digit the
        other seven children become null and the walk descends; at the level where they
        differ the two codes take their children and the other six become null. */
    method SplitDown(start: Region, leaf: Code, code: Code)
      requires |leaf| == D && |code| == D && IsPrefix(start, leaf) && IsPrefix(start, code)
      requires exists i | |start| <= i < D :: leaf[i] != code[i]
      modifies this
      ensures leaves == old(leaves)
      ensures internals == Split(old(internals), start, leaf, code)
    {
      ghost var goal := Split(internals, start, leaf, code);
      var region := start;
      for level := |start| to D
        invariant |region| == level && IsPrefix(region, leaf) && IsPrefix(region, code)
        invariant exists i | level <= i < D :: leaf[i] != code[i]
        invariant Split(internals, region, leaf, code) == goal
        invariant leaves == old(leaves)
      {
        var leafLevel := leaf[level];
        var itemLevel := code[level];
        if leafLevel == itemLevel {
          NullSiblingsAt(region, leafLevel);
          EnterPrefix(region, leaf);
          EnterPrefix(region, code);
          region := region + [leafLevel];
        } else {
          ForkAt(region, leaf, code);
          return;
        }
      }
      assert false;
    }

    /** One shared level of the split loop: every child of `region` but `keep` becomes null. */
    method NullSiblingsAt(region: Region, keep: Digit)
      modifies this
      ensures leaves == old(leaves)
      ensures internals == NullSiblings(old(internals), region, keep, 8)
    {
      ghost var m0 := internals;
      for i := 0 to 8
        invariant internals == NullSiblings(m0, region, keep, i)
        invariant leaves == old(leaves)
      {
        if i != keep {
          internals := internals[region + [i] := None];
        }
      }
    }

    /** The last level of the split loop: the children of `region` on the paths of `leaf`
        and `code` hold those codes, and the other six become null. */
    method ForkAt(region: Region, leaf: Code, code: Code)
      requires |region| < |leaf| && |region| < |code|
      modifies this
      ensures leaves == old(leaves)
      ensures internals == ForkChildren(old(internals), region, leaf, code, 8)
    {
      var leafLevel := leaf[|region|];
      var itemLevel := code[|region|];
      ghost var m0 := internals;
      for i := 0 to 8
        invariant internals == ForkChildren(m0, region, leaf, code, i)
        invariant leaves == old(leaves)
      {
        assert ForkChildren(m0, region, leaf, code, i + 1)
          == ForkChildren(m0, region, leaf, code, i)[region + [i] := ForkValue(region, leaf, code, i)];
        if i == leafLevel {
          internals := internals[region + [i] := Some(leaf)];
        } else if i == itemLevel {
          internals := internals[region + [i] := Some(code)];
        } else {
          internals := internals[region + [i] := None];
        }
      }
    }

    /** `extend`: insert the pairs one by one, in order. */
    method Extend(pairs: seq<(Code, T)>)
      requires Valid() && forall i | 0 <= i < |pairs| :: |pairs[i].0| == D
      modifies this
      ensures Value() == ExtendTree(old(Value()), pairs)
      ensures Valid()
    {
      ghost var t0 := Value();
      for i := 0 to |pairs|
        invariant Valid() && Value() == ExtendTree(t0, pairs[..i])
      {
        assert pairs[..i + 1][..i] == pairs[..i];
        Insert(pairs[i].0, pairs[i].1);
      }
      assert pairs[..|pairs|] == pairs;
    }

    /** `iter_gather_deep_linear_hashed_tree_fold`: the map of every summary a traversal
        from `region` produces. */
    function GatherFold<S>(region: Region, gather: (Code, T) -> S, fold: seq<S> -> Option<S>): (res: map<Region, S>)
      reads this
      requires Linked(Value()) && Covered(internals, region)
      ensures forall x :: x in res <==> Recorded(Value(), region, x, gather, fold)
      ensures forall x | x in res ::
        Recorded(Value(), region, x, gather, fold) && res[x] == Summary(Value(), x, gather, fold).value
    {
      FoldRegion(Value(), region, gather, fold, map[]).1
    }
  }
}
