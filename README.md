# Linear hashed octree

A model of `Linear<T, M>` (src/octree/linear.rs). This sparse octree keeps no
node objects, only two flat maps:

- The leaf store maps a full Morton code to its payload.
- The interior map maps a region to a code that may be null.

Each region of the interior map is in one of three states:

- **Absent**: its content is found by descending into its eight children.
- **Present and null**: nothing lies below it.
- **Present and non-null**: everything below it is the single leaf named there.

Inserting a new code walks the regions on its path from the root to the first
present one, which it either claims (null) or splits (collapsed to another
code). The split nulls the siblings off the shared path level by level and
places the two codes in two children at the level where their digits differ.
The gather/fold traversal rebuilds the implicit tree from a region:

- A collapsed region yields the gatherer's summary of its leaf.
- A null region yields nothing.
- An absent region folds the summaries its children produce, in digit order.

Every summary produced is recorded in a region-to-summary map. `extend` inserts
pairs one by one.

A Morton code is modelled as its sequence of octant digits (`get_level(l)` is
`c[l]`), and a region as the digit path from the root to it: the default region
is `[]` and `enter(i)` appends `i`. `M::dim_bits()` is the constant `D`.

Files:

- `region.dfy`: digits, codes, regions, prefixes, and the first differing level of two codes.
- `octree.dfy`: the tree as a value.
  - The structural invariant `Valid` is made of three parts:
    - `Partition`: the present regions never nest, and every path to full depth meets one.
    - `Linked`: every non-null entry names a leaf inside its region.
    - `Complete`: every leaf is collapsed into a region on its own path.
  - Insertion is stated as functions: `InsertTree`, `Split`, `NullSiblings` and `ForkChildren`.
- `insertion.dfy`: the exact entries a split writes, insertion keeping `Valid`, and bulk loading.
- `traversal.dfy`: the traversal.
  - `Summary` is an independent reference definition of what a region yields.
  - `FoldRegion` and `FoldChildren` thread the accumulator map the way the source does, and are proved against `Summary`.
- `listing.dfy`: the meaning of the traversal on a valid tree. With a gatherer that lists its leaf and a folder that concatenates, the summary of a region is nothing exactly when no leaf lies below it. Otherwise it lists every leaf below it once, with its payload, in Morton order.
- `shape.dfy`: the interior map depends only on which codes were inserted.
  - Insertion keeps `Minimal`: every present region other than the root is a child of a region holding two codes.
  - In a valid, minimal tree, a region is present exactly when it is at most `D` deep, holds at most one code, and is the root or a child of a region holding two. It holds its one code, or null when it holds none.
  - So two such trees with the same codes have the same interior map, and `extend` with the same pairs in any order gives the same tree.
- `linear.dfy`: the class `Linear<T>`, whose two maps are fields updated in place.
  - Its `Insert` runs the source's loops: the prefix walk, the split walk, and the two loops over the eight children.
  - `Insert` and `Extend` are proved equal to `InsertTree` and `ExtendTree`, and keep `Valid` and `Minimal`.

## Model

| member | source | states |
|---|---|---|
| `Region.DivergenceExists` | src/octree/linear.rs:68-94 | Two distinct full codes that share the path to the collapsed region differ at some level at or below it, so the split loop always reaches its fork and `unreachable!()` is never reached |
| `Octree.FirstPresent` | src/octree/linear.rs:52-54 | The prefix walk stops at the shallowest present region on the code's path; no shallower prefix is present |
| `Octree.NullSiblingsWrites` | src/octree/linear.rs:71-78 | A shared level adds exactly the seven children of the region other than the shared digit, all null, and leaves every other entry unchanged |
| `Octree.ForkChildrenWrites` | src/octree/linear.rs:79-91 | The fork level sets exactly the eight children: the old leaf's child to the old code, the new code's child to the new code, the other six to null; nothing else changes |
| `Octree.InsertTree` | src/octree/linear.rs:41-100 | After inserting, the leaf store is the old store with the code mapped to the item and every other leaf unchanged; when the code was already a leaf, the interior map is unchanged |
| `Insertion.SplitEntries` | src/octree/linear.rs:65-94 | A split from region `r` writes exactly the regions described by `SplitRegion`, with the values given by `SplitEntry`, and leaves every other entry as it was. At each shared level these are the siblings off the common path; at the first differing level `q`, every child, with the two codes at their level-`q+1` regions and null elsewhere |
| `Insertion.InsertClaims` | src/octree/linear.rs:52-60 | When the first present region on a new code's path is null, insertion sets that region to the code and changes no other interior entry |
| `Insertion.InsertSplits` | src/octree/linear.rs:61-94 | When the first present region holds another code `e`: that region becomes absent; exactly the split regions are written (null siblings at each shared level, the two codes and six nulls at the first differing level); every other entry is unchanged |
| `Insertion.InsertPreservesValid` | src/octree/linear.rs:41-100 | Insertion keeps the invariant. Every non-null entry names a leaf inside its region, and every leaf is collapsed on its own path. Present regions never nest, and every path to full depth meets one |
| `Insertion.LeafReferencedOnce` | src/octree/linear.rs:11-13 | In a valid tree each leaf is named by exactly one interior entry |
| `Insertion.EmptyValid` | src/octree/linear.rs:20-27 | The new tree, with no leaves and only the null root, satisfies the invariant |
| `Insertion.TwoCodes` | src/octree/linear.rs:41-100 | Inserting two distinct codes into a new tree: the first claims the root. The second removes the root and leaves exactly the split regions below it: null siblings on the shared path, and the two codes with six nulls at the level where they differ |
| `Insertion.ExtendTree` | src/octree/linear.rs:165-172 | Inserting a sequence of pairs one by one keeps the invariant |
| `Insertion.OverwriteKeys` | src/octree/linear.rs:165-172 | After writing pairs in order, the codes present are the old codes and the written codes |
| `Insertion.OverwriteUnwritten` | src/octree/linear.rs:165-172 | After writing pairs in order, a code that no pair writes keeps its old payload |
| `Insertion.OverwriteLastWins` | src/octree/linear.rs:165-172 | After writing pairs in order, a written code holds the payload of the last pair for it |
| `Insertion.ExtendLeaves` | src/octree/linear.rs:165-172 | The leaf store after `extend` is the old store overwritten by the pairs in order, so the last payload for a repeated code wins |
| `Traversal.AbsentCovered` | src/octree/linear.rs:140-149 | Below an absent region whose paths all meet a present region, the region is above full depth and each child's paths still meet one, so the recursion ends |
| `Traversal.RecordedPresent` | src/octree/linear.rs:132-139 | From a present region the traversal records at most that region |
| `Traversal.RecordedAbsent` | src/octree/linear.rs:140-155 | From an absent region the traversal records that region when its fold yields a summary, plus whatever its children's traversals record |
| `Traversal.FoldRegion` | src/octree/linear.rs:120-158 | The value returned is the region's `Summary`. The map returned holds the entries of the map passed in, plus an entry for every region the traversal reaches through absent regions and whose summary exists. Each added entry holds that region's summary |
| `Traversal.FoldChildren` | src/octree/linear.rs:142-149 | Visiting children `d..7` in digit order appends the summaries they produce, in that order, and records what each child's traversal records |
| `Traversal.FoldOutcome` | src/octree/linear.rs:132-157 | Started with an empty map: a collapsed region returns and records only the gatherer's summary of its leaf; a null region returns and records nothing; the start region is recorded exactly when a summary is returned, with that summary; only regions below the start region are recorded |
| `Listing.SummaryLists` | src/octree/linear.rs:103-158 | On a valid tree, with a gatherer that lists its leaf and a folder that concatenates, a region yields nothing exactly when no leaf lies below it. Otherwise it yields every leaf below it, each with its payload, each exactly once, in Morton order |
| `Listing.OrderedDistinct` | src/octree/linear.rs:142-149 | A listing in Morton order repeats no code |
| `Shape.InsertPreservesMinimal` | src/octree/linear.rs:52-91 | Insertion creates present regions only as children of a region holding two codes: the claimed region keeps its parent, and every region a split writes hangs below the common path of the old and the new code. So every present region other than the root stays a child of a region holding two codes |
| `Shape.ExtendMinimal` | src/octree/linear.rs:165-172 | Inserting pairs one by one keeps every present region other than the root a child of a region holding two codes |
| `Shape.PresentCharacterised` | src/octree/linear.rs:41-100 | In a valid tree satisfying `Minimal`, as every tree built from a new one by insertions does, a region is present exactly when it is at most `D` deep, holds at most one code, and is the root or a child of a region holding two codes |
| `Shape.SameCodesSameInternals` | src/octree/linear.rs:41-100 | Two valid trees satisfying `Minimal` that hold the same codes have the same interior map, whatever order the codes were inserted in |
| `Shape.OverwriteOrderIndependent` | src/octree/linear.rs:165-172 | Writing the same pairs, each code once, in two different orders gives the same leaf store |
| `Shape.ExtendShapeIndependent` | src/octree/linear.rs:165-172 | `extend` with sequences that write the same set of codes, in any order and with any repeats, gives the same interior map |
| `Shape.ExtendOrderIndependent` | src/octree/linear.rs:165-172 | `extend` with the same pairs, each code once, in any order gives the same tree: the same leaf store and the same interior map |
| `Linear.Linear.constructor` | src/octree/linear.rs:16-36 | A new octree has no leaves and only the root region, present and null, and satisfies the invariant and `Minimal` |
| `Linear.Linear.Insert` | src/octree/linear.rs:41-100 | The in-place insertion leaves the object equal to `InsertTree` of its old value, and keeps the invariant and `Minimal` |
| `Linear.Linear.SplitDown` | src/octree/linear.rs:65-94 | The level-by-level split loop leaves the interior map equal to `Split` of its old value and does not touch the leaves |
| `Linear.Linear.NullSiblingsAt` | src/octree/linear.rs:73-77 | The loop over the eight children of a shared level leaves the interior map equal to `NullSiblings` of its old value |
| `Linear.Linear.ForkAt` | src/octree/linear.rs:81-89 | The loop over the eight children of the fork level leaves the interior map equal to `ForkChildren` of its old value |
| `Linear.Linear.Extend` | src/octree/linear.rs:165-172 | Extending in place leaves the object equal to `ExtendTree` of its old value, and keeps the invariant and `Minimal` |
| `Linear.Linear.GatherFold` | src/octree/linear.rs:103-117 | The map returned has an entry exactly for each region the traversal from the start region reaches through absent regions and whose summary exists, and each entry holds that region's `Summary` |

## Left out

- Morton bit interleaving, `get_level` bit arithmetic, `dim_bits` and `morton_levels` live in `super::morton`, which is not part of this model. Codes are digit sequences, and `morton_levels` is taken to yield the prefix regions of depths `0..D` in increasing order.
- `D` stands for `M::dim_bits()` and is fixed at 21. No proof argument uses that value, but the solver's effort on some proofs changes with it, and the proofs are kept within their resource budget at 21.
- Hashing, `MortonWrapper` and the `Entry` API are modelled as Dafny maps. The leaf store holds one payload per code (the comment at line 9 about `SmallVec` does not match the field type).
- The `[-1, 1]` cube and any conversion from coordinates lie outside this file.
- `#[derive(Clone)]`, the `Clone` bounds and the `Gatherer`/`Folder` traits are replaced by function parameters.
  - The gatherer is a function of one code and its payload, which is what the one-element iterator at line 136 carries.
  - The folder is a function of the sequence of child summaries.
- `Traversal.FoldChildren` evaluates all eight children before the folder runs. The source hands the folder a lazy `filter_map` iterator. A folder that stops consuming early would leave the later children unvisited and unrecorded, so the model assumes the folder consumes the whole iterator.
- `Linear.Linear.GatherFold` requires that the start region's paths all meet a present region at or below it. The recursion at line 142 has no depth check, so from a region below a collapsed or null region it keeps entering children; what `enter` does past depth `D` is up to `super::morton`. From the root of a valid tree the requirement always holds (`Partition`).
- `Linear.Linear.Insert` requires a code of exactly `D` digits, which every Morton code has by construction.
- `Linear.Linear.Insert` also requires the structural invariant, which the source relies on without checking it. Without it, the prefix walk can end without placing the code, and the split loop can reach `unreachable!()`. The model proves that every `Linear` keeps the invariant, and that neither fall-through can be reached.
- `Linear.Linear.GatherFold` requires every non-null entry to name a stored leaf (`Linked`), which rules out the panic of the leaf lookup at line 136.
- Panics are not modelled as outcomes, since none is reachable under the invariant.
