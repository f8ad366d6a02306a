/**
 Spatial codes and regions, as the octree sees them.

 The octree only relies on a small capability set of its Morton-code type: a
 null value, a fixed number of levels, and the octant digit a code holds at
 each level. A code is therefore modelled as its sequence of octant digits
 from the root down, and a region as the digit path from the root to it.
 */
module Region {

  datatype Option<T> = None | Some(value: T)

  /** Number of octree levels a full code holds (`M::dim_bits()`).
      No proof argument uses the value. */
  const D: nat := 21

  /** One octant index: the three interleaved bits a code holds at one level. */
  type Digit = x: int | 0 <= x < 8

  /** A Morton code read level by level: `get_level(l)` is `c[l]`. A full code has `D` digits. */
  type Code = seq<Digit>

  /** A region of space: the digit path from the root; its level is its length.
      The default region is the root `[]`, and `enter(i)` appends `i`. */
  type Region = seq<Digit>

  /** `r` is an ancestor of (or equal to) the region or code `x`. */
  predicate IsPrefix(r: Region, x: seq<Digit>)
  {
    |r| <= |x| && x[..|r|] == r
  }

  /** The first level at or after `k` where the two codes differ. */
  function FirstDiff(a: Code, b: Code, k: nat): (j: nat)
    requires k <= |a| == |b|
    requires exists i | k <= i < |a| :: a[i] != b[i]
    ensures k <= j < |a| && a[j] != b[j]
    ensures forall i | k <= i < j :: a[i] == b[i]
    decreases |a| - k
  {
    if a[k] != b[k] then k else FirstDiff(a, b, k + 1)
  }

  /** Two distinct codes of equal length that share the path `r` differ at some
      level below `r`: the split loop of an insertion always finds that level. */
  lemma DivergenceExists(a: Code, b: Code, r: Region)
    requires |a| == |b| && a != b
    requires IsPrefix(r, a) && IsPrefix(r, b)
    ensures exists i | |r| <= i < |a| :: a[i] != b[i]
  {
    if forall i | |r| <= i < |a| :: a[i] == b[i] {
      forall i | 0 <= i < |a| ensures a[i] == b[i] {
        if i < |r| {
          assert a[i] == a[..|r|][i] == b[..|r|][i] == b[i];
        }
      }
      assert false;
    }
  }

  /** The path of a region extended by one more digit is the prefix one longer. */
  lemma EnterPrefix(r: Region, x: seq<Digit>)
    requires IsPrefix(r, x) && |r| < |x|
    ensures x[..|r| + 1] == r + [x[|r|]]
    ensures IsPrefix(r + [x[|r|]], x)
  {
    assert x[..|r| + 1] == x[..|r|] + [x[|r|]];
  }

  /** A child of `r` is `r` extended by its last digit. */
  lemma ChildShape(r: Region)
    ensures forall x: Region | |x| == |r| + 1 && x[..|r|] == r :: x == r + [x[|r|]]
  {
    forall x: Region | |x| == |r| + 1 && x[..|r|] == r ensures x == r + [x[|r|]] {
      assert x == x[..|r|] + [x[|r|]];
    }
  }
}
