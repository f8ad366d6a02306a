/**
 What an insertion does to the tree: which interior entries a split writes, and
 that insertion keeps the structural invariant.
 */
module Insertion {
  import opened Region
  import opened Octree

  // ---------------------------------------------------------------------------
  // The entries a split writes

  /** At a level where both codes take digit `d`, the split regions from `r` are the
      siblings of child `d` and the split regions from child `d`. */
  lemma SharedLevel(r: Region, c: Code, q: nat, d: Digit)
    requires IsPrefix(r, c) && |r| < q < |c| && d == c[|r|]
    ensures forall x :: SplitRegion(r, c, q, x) <==> SiblingOf(r, d, 8, x) || SplitRegion(r + [d], c, q, x)
  {
    forall x ensures SplitRegion(r, c, q, x) <==> SiblingOf(r, d, 8, x) || SplitRegion(r + [d], c, q, x) {
      if |x| == |r| + 1 {
        assert c[..|r|] == r;
      }
    }
  }

  /** At the level where the codes differ, the split regions are the eight children,
      and each holds its `ForkValue`. */
  lemma ForkLevel(r: Region, e: Code, c: Code)
    requires IsPrefix(r, e) && IsPrefix(r, c) && |r| < |e| && |r| < |c| && e[|r|] != c[|r|]
    ensures forall x :: SplitRegion(r, c, |r|, x) <==> ChildOf(r, 8, x)
    ensures forall x | ChildOf(r, 8, x) :: ForkValue(r, e, c, x[|r|]) == SplitEntry(e, c, |r|, x)
  {
    assert c[..|r|] == r;
    ChildShape(r);
    EnterPrefix(r, e);
    EnterPrefix(r, c);
  }

  /** A split from `r` writes exactly the `SplitRegion`s, with the `SplitEntry` values,
      and leaves every other entry of `m` as it was. */
  lemma {:induction false} SplitEntries(m: Internals, r: Region, e: Code, c: Code)
    requires |e| == D && |c| == D && IsPrefix(r, e) && IsPrefix(r, c)
    requires exists i | |r| <= i < D :: e[i] != c[i]
    ensures var s := Split(m, r, e, c); var q := FirstDiff(e, c, |r|);
      && (forall x :: x in s <==> x in m || SplitRegion(r, c, q, x))
      && (forall x | x in s :: s[x] == if SplitRegion(r, c, q, x) then SplitEntry(e, c, q, x) else m[x])
    decreases D - |r|
  {
    var level := |r|;
    var q := FirstDiff(e, c, level);
    if e[level] == c[level] {
      var d := e[level];
      EnterPrefix(r, e);
      EnterPrefix(r, c);
      var n := NullSiblings(m, r, d, 8);
      NullSiblingsWrites(m, r, d, 8);
      SplitEntries(n, r + [d], e, c);
      assert FirstDiff(e, c, level + 1) == q;
      SharedEntries(m, r, e, c, q, n, Split(n, r + [d], e, c));
    } else {
      ForkChildrenWrites(m, r, e, c, 8);
      ForkLevel(r, e, c);
    }
  }

  /** One shared level composed with the split below it: nulling the siblings of child
      `d` and then splitting from child `d` writes the split regions from `r`. */
  lemma SharedEntries(m: Internals, r: Region, e: Code, c: Code, q: nat, n: Internals, s: Internals)
    requires IsPrefix(r, c) && |r| < q < |c| && q < |e|
    requires forall x :: x in n <==> x in m || SiblingOf(r, c[|r|], 8, x)
    requires forall x | x in n :: n[x] == if SiblingOf(r, c[|r|], 8, x) then None else m[x]
    requires forall x :: x in s <==> x in n || SplitRegion(r + [c[|r|]], c, q, x)
    requires forall x | x in s ::
      s[x] == if SplitRegion(r + [c[|r|]], c, q, x) then SplitEntry(e, c, q, x) else n[x]
    ensures forall x :: x in s <==> x in m || SplitRegion(r, c, q, x)
    ensures forall x | x in s :: s[x] == if SplitRegion(r, c, q, x) then SplitEntry(e, c, q, x) else m[x]
  {
    SharedLevel(r, c, q, c[|r|]);
    forall x | SiblingOf(r, c[|r|], 8, x) ensures SplitEntry(e, c, q, x) == None {
      assert |x| < |e[..q + 1]|;
    }
  }

  // ---------------------------------------------------------------------------
  // The split keeps every root-to-leaf path meeting exactly one present region

  /** Removing a present region leaves a partition with a hole at that region. */
  lemma RemoveHole(m: Internals, h: Region)
    requires Partition(m) && h in m
    ensures PartitionExcept(m - {h}, h)
  {
    var m' := m - {h};
    assert h[..|h|] == h;
    forall x | x in m' ensures !IsPrefix(x, h) && !IsPrefix(h, x) {
    }
    forall c: Code | |c| == D && !IsPrefix(h, c) ensures exists k | 0 <= k <= D :: c[..k] in m' {
      assert IsPrefix([], c);
      var k :| 0 <= k <= D && c[..k] in m;
      assert c[..k] != h;
    }
  }

  /** Nulling the children of the hole other than `keep` moves the hole to child `keep`. */
  lemma NullStep(m: Internals, h: Region, keep: Digit)
    requires PartitionExcept(m, h) && |h| < D
    ensures PartitionExcept(NullSiblings(m, h, keep, 8), h + [keep])
  {
    var m' := NullSiblings(m, h, keep, 8);
    var h' := h + [keep];
    NullSiblingsWrites(m, h, keep, 8);
    assert h'[..|h|] == h;
    ChildShape(h);
    forall x, k | x in m' && 0 <= k < |x| ensures x[..k] !in m' {
      if SiblingOf(h, keep, 8, x) {
        assert x[..k] == h[..k];
      }
    }
    forall x | x in m' ensures !IsPrefix(x, h') && !IsPrefix(h', x) {
    }
    NullStepCovers(m, h, keep);
  }

  /** After nulling the siblings of child `keep` of the hole, every full code off the
      path through that child meets a present region. */
  lemma NullStepCovers(m: Internals, h: Region, keep: Digit)
    requires PartitionExcept(m, h) && |h| < D
    ensures var m' := NullSiblings(m, h, keep, 8);
      forall c: Code {:trigger IsPrefix(h + [keep], c)} | |c| == D && !IsPrefix(h + [keep], c) ::
        exists k | 0 <= k <= D :: c[..k] in m'
  {
    var m' := NullSiblings(m, h, keep, 8);
    var h' := h + [keep];
    NullSiblingsWrites(m, h, keep, 8);
    forall c: Code | |c| == D && !IsPrefix(h', c) ensures exists k | 0 <= k <= D :: c[..k] in m' {
      if IsPrefix(h, c) {
        EnterPrefix(h, c);
        assert SiblingOf(h, keep, 8, c[..|h| + 1]);
      } else {
        var k :| 0 <= k <= D && c[..k] in m;
      }
    }
  }

  /** Setting all eight children of the hole fills it. */
  lemma ForkFill(m: Internals, h: Region, e: Code, c: Code)
    requires PartitionExcept(m, h) && |h| < D && |h| < |e| && |h| < |c|
    ensures Partition(ForkChildren(m, h, e, c, 8))
  {
    var m' := ForkChildren(m, h, e, c, 8);
    ForkChildrenWrites(m, h, e, c, 8);
    forall x, k | x in m' && 0 <= k < |x| ensures x[..k] !in m' {
      if ChildOf(h, 8, x) {
        assert x[..k] == h[..k];
      }
    }
    forall c: Code | |c| == D && IsPrefix([], c) ensures exists k | 0 <= k <= D :: c[..k] in m' {
      if IsPrefix(h, c) {
        EnterPrefix(h, c);
        assert ChildOf(h, 8, c[..|h| + 1]);
      } else {
        var k :| 0 <= k <= D && c[..k] in m;
      }
    }
  }

  /** A whole split fills the hole left by the removed collapsed region. */
  lemma {:induction false} SplitPartition(m: Internals, r: Region, e: Code, c: Code)
    requires |e| == D && |c| == D && IsPrefix(r, e) && IsPrefix(r, c)
    requires exists i | |r| <= i < D :: e[i] != c[i]
    requires PartitionExcept(m, r)
    ensures Partition(Split(m, r, e, c))
    decreases D - |r|
  {
    var level := |r|;
    if e[level] == c[level] {
      EnterPrefix(r, e);
      EnterPrefix(r, c);
      NullStep(m, r, e[level]);
      SplitPartition(NullSiblings(m, r, e[level], 8), r + [e[level]], e, c);
    } else {
      ForkFill(m, r, e, c);
    }
  }

  // ---------------------------------------------------------------------------
  // Insertion keeps the invariant

  /** The region a split writes lies strictly below the split region. */
  lemma SplitRegionBelow(r: Region, c: Code, q: nat, x: Region)
    requires IsPrefix(r, c) && SplitRegion(r, c, q, x)
    ensures IsPrefix(r, x) && |r| < |x|
  {
    assert x[..|r|] == x[..|x| - 1][..|r|];
  }

  /** Codes that share the path `r` agree up to the level where they first differ below it. */
  lemma SharedPrefix(r: Region, e: Code, c: Code)
    requires |e| == D && |c| == D && IsPrefix(r, e) && IsPrefix(r, c)
    requires exists i | |r| <= i < D :: e[i] != c[i]
    ensures var q := FirstDiff(e, c, |r|); e[..q] == c[..q]
  {
    var q := FirstDiff(e, c, |r|);
    forall i | 0 <= i < q ensures e[..q][i] == c[..q][i] {
      if i < |r| {
        assert e[..|r|][i] == c[..|r|][i];
      }
    }
  }

  /** Both codes get their own region at the level after they first differ. */
  lemma ForkRegions(r: Region, e: Code, c: Code, q: nat)
    requires |r| <= q < |e| == |c| && e[..q] == c[..q] && e[q] != c[q]
    ensures SplitRegion(r, c, q, e[..q + 1]) && SplitRegion(r, c, q, c[..q + 1])
    ensures e[..q + 1] != c[..q + 1]
  {
    assert e[..q + 1][..q] == e[..q];
    assert c[..q + 1][..q] == c[..q];
    assert e[..q + 1][q] != c[..q + 1][q];
  }

  /** The first present region on the path of a code is its only present region. */
  lemma FirstPresentAt(m: Internals, c: Code, k: nat)
    requires Antichain(m) && k <= |c| && c[..k] in m
    ensures FirstPresent(m, c, 0) == k
  {
    var p := FirstPresent(m, c, 0);
    assert c[..k][..p] == c[..p];
  }

  /** Claiming a null region for a new code keeps the invariant. */
  lemma ClaimValid<T>(t: Tree<T>, c: Code, item: T, k: nat)
    requires Valid(t) && |c| == D && c !in t.leaves
    requires k <= D && c[..k] in t.internals && t.internals[c[..k]] == None
    ensures Valid(Tree(t.leaves[c := item], t.internals[c[..k] := Some(c)]))
  {
    var t' := Tree(t.leaves[c := item], t.internals[c[..k] := Some(c)]);
    assert t'.internals.Keys == t.internals.Keys;
    forall c2 | c2 in t'.leaves
      ensures exists k2 | 0 <= k2 <= D :: c2[..k2] in t'.internals && t'.internals[c2[..k2]] == Some(c2)
    {
      if c2 == c {
        assert t'.internals[c[..k]] == Some(c);
      } else {
        var k2 :| 0 <= k2 <= D && c2[..k2] in t.internals && t.internals[c2[..k2]] == Some(c2);
        assert t'.internals[c2[..k2]] == Some(c2);
      }
    }
  }

  /** The facts a split of the collapsed region `c[..k]` holding `e` starts from. */
  lemma SplitStart<T>(t: Tree<T>, c: Code, k: nat, e: Code)
    requires Valid(t) && |c| == D && c !in t.leaves
    requires k <= D && c[..k] in t.internals && t.internals[c[..k]] == Some(e)
    ensures IsPrefix(c[..k], e) && IsPrefix(c[..k], c) && |e| == D && e in t.leaves
    ensures exists i | k <= i < D :: e[i] != c[i]
  {
    DivergenceExists(e, c, c[..k]);
  }

  /** After a split every non-null entry still names a leaf inside its region. */
  lemma SplitLinked<T>(t: Tree<T>, c: Code, item: T, k: nat, e: Code)
    requires Valid(t) && |c| == D && c !in t.leaves
    requires k <= D && c[..k] in t.internals && t.internals[c[..k]] == Some(e)
    ensures IsPrefix(c[..k], e) && IsPrefix(c[..k], c) && |e| == D
    ensures exists i | k <= i < D :: e[i] != c[i]
    ensures Linked(Tree(t.leaves[c := item], Split(t.internals - {c[..k]}, c[..k], e, c)))
  {
    SplitStart(t, c, k, e);
    var m := t.internals;
    var r := c[..k];
    var s := Split(m - {r}, r, e, c);
    var q := FirstDiff(e, c, |r|);
    SplitEntries(m - {r}, r, e, c);
    forall x | x in s && s[x].Some? ensures s[x].value in t.leaves[c := item] && IsPrefix(x, s[x].value) {
      if SplitRegion(r, c, q, x) {
        assert s[x] == SplitEntry(e, c, q, x);
      } else {
        assert s[x] == m[x];
      }
    }
  }

  /** A split collapses the two codes into the regions just below the level where they
      first differ. */
  lemma SplitForks(m: Internals, r: Region, e: Code, c: Code)
    requires |e| == D && |c| == D && IsPrefix(r, e) && IsPrefix(r, c)
    requires exists i | |r| <= i < D :: e[i] != c[i]
    ensures var s := Split(m, r, e, c); var q := FirstDiff(e, c, |r|);
      && q < D && e[..q + 1] in s && s[e[..q + 1]] == Some(e) && c[..q + 1] in s && s[c[..q + 1]] == Some(c)
  {
    var q := FirstDiff(e, c, |r|);
    var s := Split(m, r, e, c);
    SharedPrefix(r, e, c);
    ForkRegions(r, e, c, q);
    SplitEntries(m, r, e, c);
    assert s[e[..q + 1]] == SplitEntry(e, c, q, e[..q + 1]);
    assert s[c[..q + 1]] == SplitEntry(e, c, q, c[..q + 1]);
  }

  /** A split leaves every present region off the split path as it was. */
  lemma SplitKeeps(m: Internals, r: Region, e: Code, c: Code, x: Region)
    requires |e| == D && |c| == D && IsPrefix(r, e) && IsPrefix(r, c)
    requires exists i | |r| <= i < D :: e[i] != c[i]
    requires Antichain(m) && r in m && x in m && x != r
    ensures var s := Split(m - {r}, r, e, c); x in s && s[x] == m[x]
  {
    var q := FirstDiff(e, c, |r|);
    SplitEntries(m - {r}, r, e, c);
    if SplitRegion(r, c, q, x) {
      SplitRegionBelow(r, c, q, x);
      assert false;
    }
  }

  /** After a split each of the two codes is collapsed into a region on its path. */
  lemma SplitCompleteAt(m: Internals, r: Region, e: Code, c: Code, c2: Code)
    requires |e| == D && |c| == D && IsPrefix(r, e) && IsPrefix(r, c)
    requires exists i | |r| <= i < D :: e[i] != c[i]
    requires c2 == c || c2 == e
    ensures var s := Split(m, r, e, c);
      exists k2 | 0 <= k2 <= D :: c2[..k2] in s && s[c2[..k2]] == Some(c2)
  {
    SplitForks(m, r, e, c);
    var q := FirstDiff(e, c, |r|);
    var s := Split(m, r, e, c);
    assert c2[..q + 1] in s && s[c2[..q + 1]] == Some(c2);
  }

  /** After a split every leaf, old and new, is collapsed into some region on its path. */
  lemma SplitComplete<T>(t: Tree<T>, c: Code, item: T, k: nat, e: Code)
    requires Valid(t) && |c| == D && c !in t.leaves
    requires k <= D && c[..k] in t.internals && t.internals[c[..k]] == Some(e)
    ensures IsPrefix(c[..k], e) && IsPrefix(c[..k], c) && |e| == D
    ensures exists i | k <= i < D :: e[i] != c[i]
    ensures Complete(Tree(t.leaves[c := item], Split(t.internals - {c[..k]}, c[..k], e, c)))
  {
    SplitStart(t, c, k, e);
    var m, r := t.internals, c[..k];
    var s := Split(m - {r}, r, e, c);
    var l := t.leaves[c := item];
    assert forall c2 | c2 in l :: |c2| == D;
    forall c2 | c2 in l ensures exists k2 | 0 <= k2 <= D :: c2[..k2] in s && s[c2[..k2]] == Some(c2) {
      if c2 == c || c2 == e {
        SplitCompleteAt(m - {r}, r, e, c, c2);
      } else {
        var k2 :| 0 <= k2 <= D && c2[..k2] in m && m[c2[..k2]] == Some(c2);
        assert c2[..k2] != r;
        SplitKeeps(m, r, e, c, c2[..k2]);
      }
    }
    assert Complete(Tree(l, s));
  }

  /** Splitting a collapsed region for a new code keeps the invariant. */
  lemma SplitValid<T>(t: Tree<T>, c: Code, item: T, k: nat, e: Code)
    requires Valid(t) && |c| == D && c !in t.leaves
    requires k <= D && c[..k] in t.internals && t.internals[c[..k]] == Some(e)
    ensures IsPrefix(c[..k], e) && IsPrefix(c[..k], c) && |e| == D
    ensures exists i | k <= i < D :: e[i] != c[i]
    ensures Valid(Tree(t.leaves[c := item], Split(t.internals - {c[..k]}, c[..k], e, c)))
  {
    SplitStart(t, c, k, e);
    RemoveHole(t.internals, c[..k]);
    SplitPartition(t.internals - {c[..k]}, c[..k], e, c);
    SplitLinked(t, c, item, k, e);
    SplitComplete(t, c, item, k, e);
  }

  /** `insert` keeps the structural invariant. */
  lemma InsertPreservesValid<T>(t: Tree<T>, c: Code, item: T)
    requires Valid(t) && |c| == D
    ensures Valid(InsertTree(t, c, item))
  {
    if c !in t.leaves {
      assert IsPrefix([], c);
      var k := FirstPresent(t.internals, c, 0);
      match t.internals[c[..k]]
      case None => ClaimValid(t, c, item, k);
      case Some(e) => SplitValid(t, c, item, k, e);
    }
  }

  // ---------------------------------------------------------------------------
  // What one insertion changes

  /** A new tree satisfies the invariant: its only region is the null root. */
  lemma EmptyValid<T>()
    ensures Valid(Empty<T>())
  {
    forall c: Code | |c| == D && IsPrefix([], c) ensures exists k | 0 <= k <= D :: c[..k] in Empty<T>().internals {
      assert c[..0] == [];
    }
  }

  /** Each leaf is collapsed into exactly one region. */
  lemma LeafReferencedOnce<T>(t: Tree<T>, c: Code, x: Region, y: Region)
    requires Valid(t)
    requires x in t.internals && t.internals[x] == Some(c)
    requires y in t.internals && t.internals[y] == Some(c)
    ensures x == y
  {
    assert x == c[..|x|] && y == c[..|y|];
    assert |x| <= |y| ==> y[..|x|] == x;
    assert |y| <= |x| ==> x[..|y|] == y;
  }

  /** A new code whose first present region on its path is null claims that region,
      and no other interior entry changes. */
  lemma InsertClaims<T>(t: Tree<T>, c: Code, item: T, k: nat)
    requires Valid(t) && |c| == D && c !in t.leaves
    requires k <= D && c[..k] in t.internals && t.internals[c[..k]] == None
    ensures InsertTree(t, c, item).internals == t.internals[c[..k] := Some(c)]
  {
    FirstPresentAt(t.internals, c, k);
  }

  /** A new code whose region on its path is collapsed to another code `e` removes that
      region and writes exactly the split regions: at each level the codes share, the
      seven siblings off the shared path become null; at the level `q` where they differ,
      the children on the two paths hold the two codes and the other six are null. */
  lemma InsertSplits<T>(t: Tree<T>, c: Code, item: T, k: nat, e: Code)
    requires Valid(t) && |c| == D && c !in t.leaves
    requires k <= D && c[..k] in t.internals && t.internals[c[..k]] == Some(e)
    ensures e != c && |e| == D && IsPrefix(c[..k], e)
    ensures exists i | k <= i < D :: e[i] != c[i]
    ensures var m' := InsertTree(t, c, item).internals; var q := FirstDiff(e, c, k);
      && c[..k] !in m'
      && (forall x :: x in m' <==> (x in t.internals && x != c[..k]) || SplitRegion(c[..k], c, q, x))
      && (forall x | x in m' ::
            m'[x] == if SplitRegion(c[..k], c, q, x) then SplitEntry(e, c, q, x) else t.internals[x])
  {
    SplitStart(t, c, k, e);
    FirstPresentAt(t.internals, c, k);
    SplitEntries(t.internals - {c[..k]}, c[..k], e, c);
  }

  /** Two distinct codes inserted into a new tree: the first claims the root; the second
      removes it, each shared level gets its seven off-path siblings null, and the level
      after the first difference holds the two codes and six nulls. Nothing else is present. */
  lemma TwoCodes<T>(a: Code, b: Code, x: T, y: T)
    requires |a| == D && |b| == D && a != b
    ensures Valid(Empty<T>())
    ensures Valid(InsertTree(Empty<T>(), a, x))
    ensures InsertTree(Empty<T>(), a, x).internals == map[[] := Some(a)]
    ensures exists i | 0 <= i < D :: a[i] != b[i]
    ensures var m := InsertTree(InsertTree(Empty<T>(), a, x), b, y).internals; var q := FirstDiff(a, b, 0);
      && (forall r :: r in m <==> SplitRegion([], b, q, r))
      && (forall r | r in m :: m[r] == SplitEntry(a, b, q, r))
  {
    EmptyValid<T>();
    assert a[..0] == [] && b[..0] == [];
    InsertClaims(Empty<T>(), a, x, 0);
    var t1 := InsertTree(Empty<T>(), a, x);
    InsertPreservesValid(Empty<T>(), a, x);
    InsertSplits(t1, b, y, 0, a);
  }

  // ---------------------------------------------------------------------------
  // Bulk loading

  /** `extend(ps)` on the tree value: the pairs inserted one by one, in order. */
  function ExtendTree<T>(t: Tree<T>, ps: seq<(Code, T)>): (t': Tree<T>)
    requires Valid(t) && forall i | 0 <= i < |ps| :: |ps[i].0| == D
    ensures Valid(t')
    decreases |ps|
  {
    if ps == [] then t
    else
      var prev := ExtendTree(t, ps[..|ps| - 1]);
      InsertPreservesValid(prev, ps[|ps| - 1].0, ps[|ps| - 1].1);
      InsertTree(prev, ps[|ps| - 1].0, ps[|ps| - 1].1)
  }

  /** The leaf store after writing the pairs of `ps` into `l` in order. */
  function Overwrite<T>(l: map<Code, T>, ps: seq<(Code, T)>): map<Code, T>
    decreases |ps|
  {
    if ps == [] then l else Overwrite(l, ps[..|ps| - 1])[ps[|ps| - 1].0 := ps[|ps| - 1].1]
  }

  /** Writing pairs in order: the codes present afterwards are the old ones and the written ones. */
  lemma {:induction false} OverwriteKeys<T>(l: map<Code, T>, ps: seq<(Code, T)>)
    ensures forall x :: x in Overwrite(l, ps) <==> x in l || exists i | 0 <= i < |ps| :: ps[i].0 == x
    decreases |ps|
  {
    if ps != [] {
      var n := |ps| - 1;
      var init := ps[..n];
      OverwriteKeys(l, init);
      forall x ensures x in Overwrite(l, ps) <==> x in l || exists i | 0 <= i < |ps| :: ps[i].0 == x {
        if exists i | 0 <= i < |ps| :: ps[i].0 == x {
          var i :| 0 <= i < |ps| && ps[i].0 == x;
          if i < n {
            assert init[i].0 == x;
          }
        }
        if exists i | 0 <= i < n :: init[i].0 == x {
          var i :| 0 <= i < n && init[i].0 == x;
          assert ps[i].0 == x;
        }
      }
    }
  }

  /** Writing pairs in order leaves a code that no pair writes as it was. */
  lemma {:induction false} OverwriteUnwritten<T>(l: map<Code, T>, ps: seq<(Code, T)>)
    ensures forall x | x in l && (forall i | 0 <= i < |ps| :: ps[i].0 != x) ::
      x in Overwrite(l, ps) && Overwrite(l, ps)[x] == l[x]
    decreases |ps|
  {
    if ps != [] {
      var n := |ps| - 1;
      var init := ps[..n];
      OverwriteUnwritten(l, init);
      forall x | x in l && (forall i | 0 <= i < |ps| :: ps[i].0 != x)
        ensures x in Overwrite(l, ps) && Overwrite(l, ps)[x] == l[x]
      {
        assert forall i | 0 <= i < n :: init[i].0 != x;
      }
    }
  }

  /** Writing pairs in order: a written code holds the value of the last pair that writes it. */
  lemma {:induction false} OverwriteLastWins<T>(l: map<Code, T>, ps: seq<(Code, T)>)
    ensures forall i | 0 <= i < |ps| && (forall j | i < j < |ps| :: ps[j].0 != ps[i].0) ::
      ps[i].0 in Overwrite(l, ps) && Overwrite(l, ps)[ps[i].0] == ps[i].1
    decreases |ps|
  {
    if ps != [] {
      var n := |ps| - 1;
      var init := ps[..n];
      OverwriteLastWins(l, init);
      forall i | 0 <= i < |ps| && (forall j | i < j < |ps| :: ps[j].0 != ps[i].0)
        ensures ps[i].0 in Overwrite(l, ps) && Overwrite(l, ps)[ps[i].0] == ps[i].1
      {
        if i < n {
          assert forall j | i < j < n :: init[j].0 != init[i].0;
        }
      }
    }
  }

  /** The leaves after `extend(ps)` are the old leaves overwritten by the pairs in order. */
  lemma {:induction false} ExtendLeaves<T>(t: Tree<T>, ps: seq<(Code, T)>)
    requires Valid(t) && forall i | 0 <= i < |ps| :: |ps[i].0| == D
    ensures ExtendTree(t, ps).leaves == Overwrite(t.leaves, ps)
    decreases |ps|
  {
    if ps != [] {
      ExtendLeaves(t, ps[..|ps| - 1]);
    }
  }
}
