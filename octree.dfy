/**
 The linear hashed octree as a value: a leaf store from full codes to payloads
 and an interior map from regions to a code that may be null, with the
 insertion algorithm stated as functions on that value.

 A region of the interior map is in one of three states:
 - absent: its content is found by descending into its eight children;
 - present and null (`None`): nothing lies below it;
 - present and non-null (`Some(c)`): everything below it is the single leaf `c`.
 */
module Octree {
  import opened Region

  type Internals = map<Region, Option<Code>>

  datatype Tree<T> = Tree(leaves: map<Code, T>, internals: Internals)

  /** The tree a new `Linear` starts as: no leaves, the root region present and null. */
  function Empty<T>(): Tree<T>
  {
    Tree(map[], map[[] := None])
  }

  // ---------------------------------------------------------------------------
  // The structural invariant

  /** Every full code below `r` meets a present region between `r` and full depth. */
  ghost predicate Covered(m: Internals, r: Region)
  {
    && |r| <= D
    && forall c: Code {:trigger IsPrefix(r, c)} | |c| == D && IsPrefix(r, c) ::
         exists k | |r| <= k <= D :: c[..k] in m
  }

  /** No present region lies strictly below another present region. */
  ghost predicate Antichain(m: Internals)
  {
    forall x, k | x in m && 0 <= k < |x| :: x[..k] !in m
  }

  /** Present regions are at most `D` deep, never nest, and every full code meets one:
      every root-to-leaf path holds exactly one present region. */
  ghost predicate Partition(m: Internals)
  {
    && (forall x | x in m :: |x| <= D)
    && Antichain(m)
    && Covered(m, [])
  }

  /** Every non-null interior entry names a leaf that lies inside its region. */
  ghost predicate Linked<T>(t: Tree<T>)
  {
    forall x | x in t.internals && t.internals[x].Some? ::
      t.internals[x].value in t.leaves && IsPrefix(x, t.internals[x].value)
  }

  /** Every leaf is a full code, and some region on its path collapses to it. */
  ghost predicate Complete<T>(t: Tree<T>)
  {
    && (forall c | c in t.leaves :: |c| == D)
    && (forall c | c in t.leaves ::
          exists k | 0 <= k <= D :: c[..k] in t.internals && t.internals[c[..k]] == Some(c))
  }

  ghost predicate Valid<T>(t: Tree<T>)
  {
    Partition(t.internals) && Linked(t) && Complete(t)
  }

  /** In a valid tree a present region above a leaf is the one that collapses to it. */
  lemma PresentOwner<T>(t: Tree<T>, r: Region, c: Code)
    requires Valid(t) && r in t.internals && c in t.leaves && IsPrefix(r, c)
    ensures t.internals[r] == Some(c)
  {
    var k :| 0 <= k <= D && c[..k] in t.internals && t.internals[c[..k]] == Some(c);
    assert r == c[..|r|];
    assert |r| <= k ==> c[..k][..|r|] == r;
    assert k <= |r| ==> r[..k] == c[..k];
  }

  /** `Partition` with one hole: the present regions partition every full code that
      does not pass through `h`, and none of them is on the path through `h`. */
  ghost predicate PartitionExcept(m: Internals, h: Region)
  {
    && |h| <= D
    && (forall x | x in m :: |x| <= D)
    && Antichain(m)
    && (forall x | x in m :: !IsPrefix(x, h) && !IsPrefix(h, x))
    && (forall c: Code {:trigger IsPrefix(h, c)} | |c| == D && !IsPrefix(h, c) ::
          exists k | 0 <= k <= D :: c[..k] in m)
  }

  // ---------------------------------------------------------------------------
  // Insertion, as functions on the tree value

  /** The first present region on the path of `c` at or below level `k`. */
  function FirstPresent(m: Internals, c: Code, k: nat): (p: nat)
    requires k <= |c|
    requires exists j | k <= j <= |c| :: c[..j] in m
    ensures k <= p <= |c| && c[..p] in m
    ensures forall j | k <= j < p :: c[..j] !in m
    decreases |c| - k
  {
    if c[..k] in m then k else FirstPresent(m, c, k + 1)
  }

  /** `x` is one of the first `n` children of `r`, other than child `keep`. */
  predicate SiblingOf(r: Region, keep: Digit, n: nat, x: Region)
  {
    |x| == |r| + 1 && x[..|r|] == r && x[|r|] < n && x[|r|] != keep
  }

  /** Children `0..n` of `r`, except `keep`, set to null: one shared level of a split. */
  function NullSiblings(m: Internals, r: Region, keep: Digit, n: nat): Internals
    requires n <= 8
  {
    if n == 0 then m
    else
      var prev := NullSiblings(m, r, keep, n - 1);
      if n - 1 == keep then prev else prev[r + [n - 1] := None]
  }

  /** `NullSiblings` adds exactly the siblings of child `keep` among the first `n`
      children, as null, and leaves every other entry as it was. */
  lemma {:induction false} NullSiblingsWrites(m: Internals, r: Region, keep: Digit, n: nat)
    requires n <= 8
    ensures var m' := NullSiblings(m, r, keep, n);
      && (forall x :: x in m' <==> x in m || SiblingOf(r, keep, n, x))
      && (forall x | x in m' :: m'[x] == if SiblingOf(r, keep, n, x) then None else m[x])
  {
    if n > 0 {
      NullSiblingsWrites(m, r, keep, n - 1);
      ChildShape(r);
      assert (r + [n - 1])[..|r|] == r;
    }
  }

  /** `x` is one of the first `n` children of `r`. */
  predicate ChildOf(r: Region, n: nat, x: Region)
  {
    |x| == |r| + 1 && x[..|r|] == r && x[|r|] < n
  }

  /** What child `d` of `r` holds once the codes `e` and `c` are told apart at `r`. */
  function ForkValue(r: Region, e: Code, c: Code, d: Digit): Option<Code>
    requires |r| < |e| && |r| < |c|
  {
    if d == e[|r|] then Some(e) else if d == c[|r|] then Some(c) else None
  }

  /** Children `0..n` of `r` set at the level where `e` and `c` differ. */
  function ForkChildren(m: Internals, r: Region, e: Code, c: Code, n: nat): Internals
    requires n <= 8 && |r| < |e| && |r| < |c|
  {
    if n == 0 then m
    else ForkChildren(m, r, e, c, n - 1)[r + [n - 1] := ForkValue(r, e, c, n - 1)]
  }

  /** `ForkChildren` sets exactly the first `n` children of `r`, each to its `ForkValue`,
      and leaves every other entry as it was. */
  lemma {:induction false} ForkChildrenWrites(m: Internals, r: Region, e: Code, c: Code, n: nat)
    requires n <= 8 && |r| < |e| && |r| < |c|
    ensures var m' := ForkChildren(m, r, e, c, n);
      && (forall x :: x in m' <==> x in m || ChildOf(r, n, x))
      && (forall x | x in m' :: m'[x] == if ChildOf(r, n, x) then ForkValue(r, e, c, x[|r|]) else m[x])
  {
    if n > 0 {
      ForkChildrenWrites(m, r, e, c, n - 1);
      ChildShape(r);
      assert (r + [n - 1])[..|r|] == r;
    }
  }

  /** The regions a split from `r` writes, when `c` first differs from the
      collapsed code at level `q`: at each shared level below `r` the children off
      the common path, and at level `q` every child. */
  predicate SplitRegion(r: Region, c: Code, q: nat, x: Region)
  {
    && |r| < |x| <= q + 1
    && q < |c|
    && x[..|x| - 1] == c[..|x| - 1]
    && (|x| <= q ==> x[|x| - 1] != c[|x| - 1])
  }

  /** The value a split writes at `x`: the two codes at their level-`q+1` regions, null elsewhere. */
  function SplitEntry(e: Code, c: Code, q: nat, x: Region): Option<Code>
    requires q < |e| && q < |c|
  {
    if x == e[..q + 1] then Some(e) else if x == c[..q + 1] then Some(c) else None
  }

  /** Splitting the (already removed) collapsed region `r` that held `e` so that it
      also holds the new code `c`: descend along the shared path, nulling the siblings,
      until the level where the codes differ. */
  function Split(m: Internals, r: Region, e: Code, c: Code): (s: Internals)
    requires |e| == D && |c| == D && IsPrefix(r, e) && IsPrefix(r, c)
    requires exists i | |r| <= i < D :: e[i] != c[i]
    decreases D - |r|
  {
    var level := |r|;
    if e[level] == c[level] then
      EnterPrefix(r, e);
      EnterPrefix(r, c);
      Split(NullSiblings(m, r, e[level], 8), r + [e[level]], e, c)
    else
      ForkChildren(m, r, e, c, 8)
  }

  /** `insert(c, item)` on the tree value. */
  function InsertTree<T>(t: Tree<T>, c: Code, item: T): (t': Tree<T>)
    requires Valid(t) && |c| == D
    ensures t'.leaves == t.leaves[c := item]
    ensures c in t.leaves ==> t'.internals == t.internals
  {
    if c in t.leaves then
      Tree(t.leaves[c := item], t.internals)
    else
      assert IsPrefix([], c);
      var r := c[..FirstPresent(t.internals, c, 0)];
      match t.internals[r]
      case None =>
        Tree(t.leaves[c := item], t.internals[r := Some(c)])
      case Some(e) =>
        DivergenceExists(e, c, r);
        Tree(t.leaves[c := item], Split(t.internals - {r}, r, e, c))
  }
}
