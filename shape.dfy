/**
 The shape of the interior map depends only on which codes were inserted, not on
 the order they were inserted in. Insertion only ever creates a region by
 splitting its parent between two codes, so every present region other than the
 root is a child of a region holding two codes. In a valid tree with that
 property, the present regions are exactly the regions that hold at most one code
 and are the root or a child of a region holding two. Each of them holds its one
 code, or null when it holds none.
 */
module Shape {
  import opened Region
  import opened Octree
  import opened Insertion

  /** At least two distinct codes of `keys` lie in region `r`. */
  ghost predicate Crowded(keys: set<Code>, r: Region)
  {
    exists a, b | a in keys && b in keys && a != b :: IsPrefix(r, a) && IsPrefix(r, b)
  }

  /** Every present region other than the root is a child of a region holding two leaves. */
  ghost predicate Minimal<T>(t: Tree<T>)
  {
    forall x | x in t.internals && 0 < |x| :: Crowded(t.leaves.Keys, x[..|x| - 1])
  }

  /** The new tree has no region but the root. */
  lemma EmptyMinimal<T>()
    ensures Minimal(Empty<T>())
  {
  }

  /** A region holding two codes still holds them once more codes are added. */
  lemma CrowdedGrows(keys: set<Code>, keys': set<Code>, r: Region)
    requires keys <= keys' && Crowded(keys, r)
    ensures Crowded(keys', r)
  {
    var a, b :| a in keys && b in keys && a != b && IsPrefix(r, a) && IsPrefix(r, b);
    assert a in keys' && b in keys';
  }

  /** Every region a split writes is a child of a region on the common path of the two codes. */
  lemma SplitParentCrowded(r: Region, e: Code, c: Code, q: nat, keys: set<Code>, x: Region)
    requires |e| == D && |c| == D && e != c && e in keys && c in keys
    requires q < D && e[..q] == c[..q]
    requires SplitRegion(r, c, q, x)
    ensures Crowded(keys, x[..|x| - 1])
  {
    var p := x[..|x| - 1];
    assert p == c[..|p|];
    assert e[..|p|] == e[..q][..|p|] == c[..q][..|p|] == c[..|p|];
    assert IsPrefix(p, e) && IsPrefix(p, c);
  }

  /** Claiming a null region keeps every present region's parent crowded. */
  lemma ClaimMinimal<T>(t: Tree<T>, c: Code, item: T, k: nat)
    requires Minimal(t) && c !in t.leaves
    requires k <= |c| && c[..k] in t.internals
    ensures Minimal(Tree(t.leaves[c := item], t.internals[c[..k] := Some(c)]))
  {
    var t' := Tree(t.leaves[c := item], t.internals[c[..k] := Some(c)]);
    forall x | x in t'.internals && 0 < |x| ensures Crowded(t'.leaves.Keys, x[..|x| - 1]) {
      CrowdedGrows(t.leaves.Keys, t'.leaves.Keys, x[..|x| - 1]);
    }
  }

  /** Splitting a collapsed region keeps every present region's parent crowded: the
      regions it writes all hang below the common path of the two codes. */
  lemma SplitMinimal<T>(t: Tree<T>, c: Code, item: T, k: nat, e: Code)
    requires Valid(t) && Minimal(t) && |c| == D && c !in t.leaves
    requires k <= D && c[..k] in t.internals && t.internals[c[..k]] == Some(e)
    ensures Minimal(InsertTree(t, c, item))
  {
    InsertSplits(t, c, item, k, e);
    var t' := InsertTree(t, c, item);
    var q := FirstDiff(e, c, k);
    SharedPrefix(c[..k], e, c);
    assert e in t'.leaves && c in t'.leaves;
    forall x | x in t'.internals && 0 < |x| ensures Crowded(t'.leaves.Keys, x[..|x| - 1]) {
      if SplitRegion(c[..k], c, q, x) {
        SplitParentCrowded(c[..k], e, c, q, t'.leaves.Keys, x);
      } else {
        CrowdedGrows(t.leaves.Keys, t'.leaves.Keys, x[..|x| - 1]);
      }
    }
  }

  /** `insert` keeps every present region other than the root a child of a crowded region. */
  lemma InsertPreservesMinimal<T>(t: Tree<T>, c: Code, item: T)
    requires Valid(t) && Minimal(t) && |c| == D
    ensures Minimal(InsertTree(t, c, item))
  {
    if c in t.leaves {
      assert InsertTree(t, c, item).leaves.Keys == t.leaves.Keys;
    } else {
      assert IsPrefix([], c);
      var k := FirstPresent(t.internals, c, 0);
      match t.internals[c[..k]]
      case None =>
        InsertClaims(t, c, item, k);
        ClaimMinimal(t, c, item, k);
      case Some(e) =>
        SplitMinimal(t, c, item, k, e);
    }
  }

  /** Inserting pairs one by one keeps the property. */
  lemma {:induction false} ExtendMinimal<T>(t: Tree<T>, ps: seq<(Code, T)>)
    requires Valid(t) && Minimal(t) && forall i | 0 <= i < |ps| :: |ps[i].0| == D
    ensures Minimal(ExtendTree(t, ps))
    decreases |ps|
  {
    if ps != [] {
      var init := ps[..|ps| - 1];
      ExtendMinimal(t, init);
      InsertPreservesMinimal(ExtendTree(t, init), ps[|ps| - 1].0, ps[|ps| - 1].1);
    }
  }

  // ---------------------------------------------------------------------------
  // The shape is determined by the codes

  /** A present region holds at most one leaf. */
  lemma PresentNotCrowded<T>(t: Tree<T>, x: Region)
    requires Valid(t) && x in t.internals
    ensures !Crowded(t.leaves.Keys, x)
  {
    if Crowded(t.leaves.Keys, x) {
      var a, b :| a in t.leaves && b in t.leaves && a != b && IsPrefix(x, a) && IsPrefix(x, b);
      PresentOwner(t, x, a);
      PresentOwner(t, x, b);
    }
  }

  /** A region above a region holding two codes holds them too. */
  lemma CrowdedAbove(keys: set<Code>, r: Region, y: Region)
    requires IsPrefix(r, y) && Crowded(keys, y)
    ensures Crowded(keys, r)
  {
    var a, b :| a in keys && b in keys && a != b && IsPrefix(y, a) && IsPrefix(y, b);
    assert a[..|r|] == a[..|y|][..|r|];
    assert b[..|r|] == b[..|y|][..|r|];
  }

  /** A full code through region `x`. */
  function Through(x: Region): (c: Code)
    requires |x| <= D
    ensures |c| == D && IsPrefix(x, c)
  {
    x + seq(D - |x|, _ => 0)
  }

  /** No region below a present region holds two codes. */
  lemma BelowPresent<T>(t: Tree<T>, y: Region, p: Region)
    requires Valid(t) && y in t.internals && IsPrefix(y, p)
    ensures !Crowded(t.leaves.Keys, p)
  {
    PresentNotCrowded(t, y);
    if Crowded(t.leaves.Keys, p) {
      CrowdedAbove(t.leaves.Keys, y, p);
    }
  }

  /** Every region strictly above a present region other than the root holds two codes. */
  lemma AbovePresent<T>(t: Tree<T>, x: Region, y: Region)
    requires Minimal(t) && y in t.internals && IsPrefix(x, y) && |x| < |y|
    ensures Crowded(t.leaves.Keys, x)
  {
    var p := y[..|y| - 1];
    assert x == p[..|x|];
    CrowdedAbove(t.leaves.Keys, x, p);
  }

  /** A region at most `D` deep that holds at most one code and is the root or a child of
      a region holding two is present: the present region on a full code through it is
      neither above it nor below it. */
  lemma PresentWhenAlone<T>(t: Tree<T>, x: Region)
    requires Valid(t) && Minimal(t)
    requires |x| <= D && (|x| == 0 || Crowded(t.leaves.Keys, x[..|x| - 1])) && !Crowded(t.leaves.Keys, x)
    ensures x in t.internals
  {
    var c := Through(x);
    assert IsPrefix([], c);
    var k :| 0 <= k <= D && c[..k] in t.internals;
    assert x == c[..|x|];
    if k < |x| {
      assert x[..|x| - 1][..k] == c[..k];
      BelowPresent(t, c[..k], x[..|x| - 1]);
    } else if |x| < k {
      assert c[..k][..|x|] == x;
      AbovePresent(t, x, c[..k]);
    }
  }

  /** In a valid, minimal tree a region is present exactly when it is at most `D` deep,
      holds at most one code, and is the root or a child of a region holding two. */
  lemma PresentCharacterised<T>(t: Tree<T>, x: Region)
    requires Valid(t) && Minimal(t)
    ensures x in t.internals <==>
      |x| <= D && (|x| == 0 || Crowded(t.leaves.Keys, x[..|x| - 1])) && !Crowded(t.leaves.Keys, x)
  {
    if x in t.internals {
      PresentNotCrowded(t, x);
    } else if |x| <= D && (|x| == 0 || Crowded(t.leaves.Keys, x[..|x| - 1])) && !Crowded(t.leaves.Keys, x) {
      PresentWhenAlone(t, x);
    }
  }

  /** Two valid, minimal trees holding the same codes have the same interior map, so the
      shape does not depend on the order the codes were inserted in. */
  lemma SameCodesSameInternals<T>(t1: Tree<T>, t2: Tree<T>)
    requires Valid(t1) && Minimal(t1) && Valid(t2) && Minimal(t2)
    requires t1.leaves.Keys == t2.leaves.Keys
    ensures t1.internals == t2.internals
  {
    forall x ensures x in t1.internals <==> x in t2.internals {
      PresentCharacterised(t1, x);
      PresentCharacterised(t2, x);
    }
    forall x | x in t1.internals ensures t1.internals[x] == t2.internals[x] {
      if t1.internals[x].Some? {
        PresentOwner(t2, x, t1.internals[x].value);
      } else if t2.internals[x].Some? {
        PresentOwner(t1, x, t2.internals[x].value);
      }
    }
  }

  // ---------------------------------------------------------------------------
  // Bulk loading in any order

  /** The codes a sequence of pairs writes. */
  ghost function Codes<T>(ps: seq<(Code, T)>): set<Code>
  {
    set i | 0 <= i < |ps| :: ps[i].0
  }

  /** No code is written twice. */
  ghost predicate DistinctCodes<T>(ps: seq<(Code, T)>)
  {
    forall i, j | 0 <= i < j < |ps| :: ps[i].0 != ps[j].0
  }

  /** Writing pairs in order produces the old codes and the written codes. */
  lemma OverwriteCodes<T>(l: map<Code, T>, ps: seq<(Code, T)>)
    ensures Overwrite(l, ps).Keys == l.Keys + Codes(ps)
  {
    OverwriteKeys(l, ps);
    forall x | x in Codes(ps) ensures x in Overwrite(l, ps) {
      var i :| 0 <= i < |ps| && ps[i].0 == x;
    }
  }

  /** Writing the same pairs, each code once, in two orders gives the same leaf store. */
  lemma OverwriteOrderIndependent<T>(l: map<Code, T>, ps1: seq<(Code, T)>, ps2: seq<(Code, T)>)
    requires DistinctCodes(ps1) && DistinctCodes(ps2)
    requires forall p :: p in ps1 <==> p in ps2
    ensures Overwrite(l, ps1) == Overwrite(l, ps2)
  {
    OverwriteCodes(l, ps1);
    OverwriteCodes(l, ps2);
    OverwriteUnwritten(l, ps1);
    OverwriteUnwritten(l, ps2);
    OverwriteLastWins(l, ps1);
    OverwriteLastWins(l, ps2);
    assert Codes(ps1) == Codes(ps2) by {
      forall x | x in Codes(ps1) ensures x in Codes(ps2) {
        var i :| 0 <= i < |ps1| && ps1[i].0 == x;
        assert ps1[i] in ps2;
      }
      forall x | x in Codes(ps2) ensures x in Codes(ps1) {
        var i :| 0 <= i < |ps2| && ps2[i].0 == x;
        assert ps2[i] in ps1;
      }
    }
    forall x | x in Overwrite(l, ps1) ensures Overwrite(l, ps1)[x] == Overwrite(l, ps2)[x] {
      if x in Codes(ps1) {
        var i :| 0 <= i < |ps1| && ps1[i].0 == x;
        assert ps1[i] in ps2;
        var j :| 0 <= j < |ps2| && ps2[j] == ps1[i];
      }
    }
  }

  /** `extend` with the same codes in any order, repeated or not, gives the same interior map. */
  lemma ExtendShapeIndependent<T>(t: Tree<T>, ps1: seq<(Code, T)>, ps2: seq<(Code, T)>)
    requires Valid(t) && Minimal(t)
    requires forall i | 0 <= i < |ps1| :: |ps1[i].0| == D
    requires forall i | 0 <= i < |ps2| :: |ps2[i].0| == D
    requires Codes(ps1) == Codes(ps2)
    ensures ExtendTree(t, ps1).internals == ExtendTree(t, ps2).internals
  {
    ExtendMinimal(t, ps1);
    ExtendMinimal(t, ps2);
    ExtendLeaves(t, ps1);
    ExtendLeaves(t, ps2);
    OverwriteCodes(t.leaves, ps1);
    OverwriteCodes(t.leaves, ps2);
    SameCodesSameInternals(ExtendTree(t, ps1), ExtendTree(t, ps2));
  }

  /** `extend` with the same pairs, each code once, in any order gives the same tree. */
  lemma ExtendOrderIndependent<T>(t: Tree<T>, ps1: seq<(Code, T)>, ps2: seq<(Code, T)>)
    requires Valid(t) && Minimal(t)
    requires forall i | 0 <= i < |ps1| :: |ps1[i].0| == D
    requires forall i | 0 <= i < |ps2| :: |ps2[i].0| == D
    requires DistinctCodes(ps1) && DistinctCodes(ps2)
    requires forall p :: p in ps1 <==> p in ps2
    ensures ExtendTree(t, ps1) == ExtendTree(t, ps2)
  {
    OverwriteOrderIndependent(t.leaves, ps1, ps2);
    ExtendLeaves(t, ps1);
    ExtendLeaves(t, ps2);
    OverwriteCodes(t.leaves, ps1);
    OverwriteCodes(t.leaves, ps2);
    ExtendMinimal(t, ps1);
    ExtendMinimal(t, ps2);
    SameCodesSameInternals(ExtendTree(t, ps1), ExtendTree(t, ps2));
  }
}
