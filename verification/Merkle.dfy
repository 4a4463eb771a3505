/** Commitment trees of depth 16: a sparse tree with a cached root, a dense tree kept
    layer by layer, and one reference definition both must agree with. */
module Merkle {
  import opened Common

  const DEPTH: nat := 16
  const LEAVES: nat := 65536

  /** Any two-to-one hash, and any value for an empty leaf. */
  const Poseidon: (Word, Word) -> Word
  const EMPTY_LEAF: Word

  type Positions = map<nat, Word>

  lemma Doubles(k: nat)
    requires k > 0
    ensures Pow2(k) == Pow2(k - 1) + Pow2(k - 1)
  {
  }

  lemma DepthIsLeaves()
    ensures Pow2(DEPTH) == LEAVES
  {
    assert Pow2(4) == 16;
    assert Pow2(8) == 256;
    assert Pow2(12) == 4096;
  }

  // ---- The reference: a complete binary tree over the leaf positions ----

  function LeafAt(m: Positions, i: nat): Word {
    if i in m then m[i] else EMPTY_LEAF
  }

  /** The node at `level` above the leaves, `index` from the left. */
  function Node(m: Positions, level: nat, index: nat): Word {
    if level == 0 then LeafAt(m, index)
    else Poseidon(Node(m, level - 1, 2 * index), Node(m, level - 1, 2 * index + 1))
  }

  function TreeRoot(m: Positions): Word {
    Node(m, DEPTH, 0)
  }

  function ZeroHash(level: nat): Word {
    if level == 0 then EMPTY_LEAF else Poseidon(ZeroHash(level - 1), ZeroHash(level - 1))
  }

  function Prefix(m: Positions, count: nat): Positions {
    map i | i in m && i < count :: m[i]
  }

  predicate InCapacity(m: Positions) {
    forall i :: i in m ==> i < LEAVES
  }

  lemma WholePrefix(m: Positions)
    requires InCapacity(m)
    ensures Prefix(m, LEAVES) == m
  {
  }

  /** A node's span is the spans of its two children. */
  lemma Halves(index: nat, level: nat)
    requires level > 0
    ensures Pow2(level) == 2 * Pow2(level - 1)
    ensures (2 * index) * Pow2(level - 1) == index * Pow2(level)
    ensures (2 * index + 1) * Pow2(level - 1) == index * Pow2(level) + Pow2(level - 1)
    ensures (2 * index + 2) * Pow2(level - 1) == (index + 1) * Pow2(level) == index * Pow2(level) + Pow2(level)
  {
  }

  /** The same node, found by the first leaf position below it. */
  function NodeFrom(m: Positions, start: nat, level: nat): Word
    decreases level
  {
    if level == 0 then LeafAt(m, start)
    else Poseidon(NodeFrom(m, start, level - 1), NodeFrom(m, start + Pow2(level - 1), level - 1))
  }

  lemma {:induction false} NodeFromIsNode(m: Positions, start: nat, level: nat, index: nat)
    requires start == index * Pow2(level)
    ensures NodeFrom(m, start, level) == Node(m, level, index)
    decreases level
  {
    if level > 0 {
      Halves(index, level);
      NodeFromIsNode(m, start, level - 1, 2 * index);
      NodeFromIsNode(m, start + Pow2(level - 1), level - 1, 2 * index + 1);
    }
  }

  lemma {:induction false} EmptySpan(m: Positions, start: nat, level: nat)
    requires forall i :: start <= i < start + Pow2(level) ==> i !in m
    ensures NodeFrom(m, start, level) == ZeroHash(level)
    decreases level
  {
    if level > 0 {
      EmptySpan(m, start, level - 1);
      EmptySpan(m, start + Pow2(level - 1), level - 1);
    }
  }

  // ---- The sparse tree ----

  /** No leaf of the prefix lies below: past its end, or an empty span. */
  predicate SkipsSubtree(m: Positions, start: nat, depth: nat, leafCount: nat) {
    || start >= leafCount
    || var end := if start + Pow2(depth) < LEAVES then start + Pow2(depth) else LEAVES;
       var upper := if end < leafCount then end else leafCount;
       forall i :: i in m ==> !(start <= i < upper)
  }

  /** Recursive root that does not descend into empty spans. */
  function SubtreeRoot(m: Positions, start: nat, depth: nat, leafCount: nat): Word
    decreases depth
  {
    if SkipsSubtree(m, start, depth, leafCount) then ZeroHash(depth)
    else if depth == 0 then LeafAt(m, start)
    else
      Poseidon(SubtreeRoot(m, start, depth - 1, leafCount),
               SubtreeRoot(m, start + Pow2(depth - 1), depth - 1, leafCount))
  }

  lemma SkippedIsEmpty(m: Positions, start: nat, depth: nat, leafCount: nat)
    requires SkipsSubtree(m, start, depth, leafCount) && start + Pow2(depth) <= LEAVES
    ensures NodeFrom(Prefix(m, leafCount), start, depth) == ZeroHash(depth)
  {
    EmptySpan(Prefix(m, leafCount), start, depth);
  }

  /** Skipping is sound: a sparse subtree root is the reference node over the first
      `leafCount` leaves. */
  lemma {:induction false} SubtreeRootIsNodeFrom(m: Positions, start: nat, depth: nat, leafCount: nat)
    requires start + Pow2(depth) <= LEAVES
    ensures SubtreeRoot(m, start, depth, leafCount) == NodeFrom(Prefix(m, leafCount), start, depth)
    decreases depth
  {
    if SkipsSubtree(m, start, depth, leafCount) {
      SkippedIsEmpty(m, start, depth, leafCount);
    } else if depth == 0 {
      KeptLeafIsThere(m, start, leafCount);
    } else {
      Doubles(depth);
      SubtreeRootIsNodeFrom(m, start, depth - 1, leafCount);
      SubtreeRootIsNodeFrom(m, start + Pow2(depth - 1), depth - 1, leafCount);
    }
  }

  lemma KeptLeafIsThere(m: Positions, start: nat, leafCount: nat)
    requires !SkipsSubtree(m, start, 0, leafCount)
    ensures LeafAt(m, start) == NodeFrom(Prefix(m, leafCount), start, 0)
  {
    var i :| i in m && start <= i < start + 1 && i < leafCount;
    assert i == start;
  }

  /** A layer of nodes, from the left. */
  predicate IsLayer(m: Positions, level: nat, layer: seq<Word>) {
    forall i :: 0 <= i < |layer| ==> layer[i] == Node(m, level, i)
  }

  method HashLayer(layer: seq<Word>, ghost m: Positions, ghost level: nat) returns (parents: seq<Word>)
    requires |layer| % 2 == 0 && IsLayer(m, level, layer)
    ensures |parents| == |layer| / 2 && IsLayer(m, level + 1, parents)
  {
    parents := [];
    for i := 0 to |layer| / 2
      invariant |parents| == i && IsLayer(m, level + 1, parents)
    {
      parents := parents + [Poseidon(layer[2 * i], layer[2 * i + 1])];
    }
  }

  const SPARSE_ROOT_MAX_LEAVES: nat := 1024

  /** A tree and the root it cached, if no leaf was inserted since. */
  datatype Tree = Tree(leaves: Positions, root: Option<Word>) {

    predicate Coherent() {
      InCapacity(leaves) && (root.Some? ==> root.value == TreeRoot(leaves))
    }

    /** Few leaves recurse sparsely, many are hashed layer by layer; a cached root is
        reused. All three give the reference root. */
    method ComputedRoot() returns (r: Word)
      requires Coherent()
      ensures r == TreeRoot(leaves)
    {
      if root.Some? {
        return root.value;
      }
      if |leaves| <= SPARSE_ROOT_MAX_LEAVES {
        SparseRootIsRoot(leaves);
        return SubtreeRoot(leaves, 0, DEPTH, LEAVES);
      }
      r := LayeredRoot(leaves);
    }
  }

  lemma SparseRootIsRoot(m: Positions)
    requires InCapacity(m)
    ensures SubtreeRoot(m, 0, DEPTH, LEAVES) == TreeRoot(m)
  {
    DepthIsLeaves();
    SubtreeRootIsNodeFrom(m, 0, DEPTH, LEAVES);
    WholeIsNode(m, DEPTH);
    WholePrefix(m);
  }

  lemma WholeIsNode(m: Positions, level: nat)
    ensures NodeFrom(m, 0, level) == Node(m, level, 0)
  {
    NodeFromIsNode(m, 0, level, 0);
  }

  method LayeredRoot(m: Positions) returns (r: Word)
    ensures r == TreeRoot(m)
  {
    DepthIsLeaves();
    var layer: seq<Word> := seq(LEAVES, i requires 0 <= i < LEAVES => LeafAt(m, i));
    ghost var level := 0;
    while |layer| > 1
      invariant level <= DEPTH && |layer| == Pow2(DEPTH - level) && IsLayer(m, level, layer)
      decreases |layer|
    {
      Doubles(DEPTH - level);
      layer := HashLayer(layer, m, level);
      level := level + 1;
    }
    if level < DEPTH { Doubles(DEPTH - level); }
    return layer[0];
  }

  // ---- The dense tree ----

  type Layers = seq<seq<Word>>

  predicate Shaped(layers: Layers) {
    && |layers| == DEPTH + 1
    && forall l :: 0 <= l <= DEPTH ==> |layers[l]| == Pow2(DEPTH - l)
  }

  /** The node at `(l + 1, i)` is the hash of its two children. */
  predicate ParentHolds(layers: Layers, l: nat, i: nat)
    requires Shaped(layers) && l < DEPTH && i < Pow2(DEPTH - l - 1)
  {
    Doubles(DEPTH - l);
    layers[l + 1][i] == Poseidon(layers[l][2 * i], layers[l][2 * i + 1])
  }

  predicate IsDense(layers: Layers) {
    && Shaped(layers)
    && forall l, i :: 0 <= l < DEPTH && 0 <= i < Pow2(DEPTH - l - 1) ==> ParentHolds(layers, l, i)
  }

  function DenseLeaves(layers: Layers): Positions
    requires Shaped(layers)
  {
    map i: nat | i < |layers[0]| :: layers[0][i]
  }

  lemma {:induction false} DenseNodes(layers: Layers, l: nat, i: nat)
    requires IsDense(layers) && l <= DEPTH && i < Pow2(DEPTH - l)
    ensures layers[l][i] == Node(DenseLeaves(layers), l, i)
  {
    if l > 0 {
      var k := l - 1;
      DenseParent(layers, k, i);
      DenseNodes(layers, k, 2 * i);
      DenseNodes(layers, k, 2 * i + 1);
      NodeStep(DenseLeaves(layers), k, i);
    }
  }

  lemma NodeStep(m: Positions, level: nat, index: nat)
    ensures Node(m, level + 1, index) == Poseidon(Node(m, level, 2 * index), Node(m, level, 2 * index + 1))
  {
  }

  lemma DenseParent(layers: Layers, l: nat, i: nat)
    requires IsDense(layers) && l < DEPTH && i < Pow2(DEPTH - l - 1)
    ensures 2 * i + 1 < Pow2(DEPTH - l) == |layers[l]|
    ensures layers[l + 1][i] == Poseidon(layers[l][2 * i], layers[l][2 * i + 1])
  {
    Doubles(DEPTH - l);
    assert ParentHolds(layers, l, i);
  }

  ghost predicate SameLeaves(m: Positions, m': Positions) {
    forall i :: LeafAt(m, i) == LeafAt(m', i)
  }

  lemma {:induction false} SameLeavesSameNode(m: Positions, m': Positions, level: nat, index: nat)
    requires SameLeaves(m, m')
    ensures Node(m, level, index) == Node(m', level, index)
  {
    if level == 0 {
      assert LeafAt(m, index) == LeafAt(m', index);
    } else {
      SameLeavesSameNode(m, m', level - 1, 2 * index);
      SameLeavesSameNode(m, m', level - 1, 2 * index + 1);
    }
  }

  /** The index, at `level`, of the node above a leaf position. */
  function Ancestor(position: nat, level: nat): nat {
    if level == 0 then position else Ancestor(position, level - 1) / 2
  }

  lemma {:induction false} AncestorBound(position: nat, level: nat)
    requires position < LEAVES && level <= DEPTH
    ensures Ancestor(position, level) < Pow2(DEPTH - level)
  {
    DepthIsLeaves();
    if level > 0 {
      AncestorBound(position, level - 1);
      Doubles(DEPTH - level + 1);
    }
  }

  function Sibling(index: nat): nat {
    if index % 2 == 1 then index - 1 else index + 1
  }

  lemma SiblingBound(index: nat, half: nat)
    requires index < half + half
    ensures Sibling(index) < half + half
  {
  }

  /** The sibling on a path lies in the same layer. */
  lemma SiblingInLayer(position: nat, level: nat)
    requires position < LEAVES && level < DEPTH
    ensures Sibling(Ancestor(position, level)) < Pow2(DEPTH - level)
  {
    AncestorBound(position, level);
    var half := Pow2(DEPTH - level - 1);
    Doubles(DEPTH - level);
    SiblingBound(Ancestor(position, level), half);
  }

  datatype Proof = Proof(root: Word, leaf: Word, leafIndex: nat, elements: seq<Word>, rights: seq<bool>)

  /** The proof a tree over these leaves owes for a position. */
  function ProofOf(m: Positions, position: nat): Proof {
    Proof(TreeRoot(m), LeafAt(m, position), position,
          seq(DEPTH, l requires 0 <= l < DEPTH => Node(m, l, Sibling(Ancestor(position, l)))),
          seq(DEPTH, l requires 0 <= l < DEPTH => Ancestor(position, l) % 2 == 1))
  }

  /** What a verifier computes from a leaf and its path. */
  function Folded(p: Proof, k: nat): Word
    requires k <= |p.elements| == |p.rights|
  {
    if k == 0 then p.leaf
    else if p.rights[k - 1] then Poseidon(p.elements[k - 1], Folded(p, k - 1))
    else Poseidon(Folded(p, k - 1), p.elements[k - 1])
  }

  /** One step up the path. */
  lemma ParentOnPath(m: Positions, position: nat, level: nat)
    ensures var a := Ancestor(position, level);
            Node(m, level + 1, Ancestor(position, level + 1)) ==
            if a % 2 == 1 then Poseidon(Node(m, level, Sibling(a)), Node(m, level, a))
            else Poseidon(Node(m, level, a), Node(m, level, Sibling(a)))
  {
    var a := Ancestor(position, level);
    assert 2 * (a / 2) == if a % 2 == 1 then Sibling(a) else a;
  }

  lemma {:induction false} FoldClimbs(m: Positions, position: nat, k: nat)
    requires k <= DEPTH
    ensures Folded(ProofOf(m, position), k) == Node(m, k, Ancestor(position, k))
  {
    if k > 0 {
      FoldClimbs(m, position, k - 1);
      ParentOnPath(m, position, k - 1);
    }
  }

  /** Every proof verifies: folding its path reaches its root. */
  lemma ProofsVerify(m: Positions, position: nat)
    requires position < LEAVES
    ensures Folded(ProofOf(m, position), DEPTH) == ProofOf(m, position).root == TreeRoot(m)
  {
    FoldClimbs(m, position, DEPTH);
    RootIsAbove(position);
  }

  lemma RootIsAbove(position: nat)
    requires position < LEAVES
    ensures Ancestor(position, DEPTH) == 0
  {
    AncestorBound(position, DEPTH);
  }

  /** Depends only on the leaves, however they are stored. */
  lemma SameLeavesSameProof(m: Positions, m': Positions, position: nat)
    requires SameLeaves(m, m')
    ensures ProofOf(m, position) == ProofOf(m', position)
  {
    SameLeavesSameNode(m, m', DEPTH, 0);
    assert LeafAt(m, position) == LeafAt(m', position);
    forall l | 0 <= l < DEPTH
      ensures Node(m, l, Sibling(Ancestor(position, l))) == Node(m', l, Sibling(Ancestor(position, l)))
    {
      SameLeavesSameNode(m, m', l, Sibling(Ancestor(position, l)));
    }
  }

  /** The siblings and sides on the way up from a position. */
  predicate IsPath(m: Positions, position: nat, elements: seq<Word>, rights: seq<bool>) {
    && |elements| == |rights|
    && (forall l :: 0 <= l < |elements| ==> elements[l] == Node(m, l, Sibling(Ancestor(position, l))))
    && (forall l :: 0 <= l < |rights| ==> rights[l] == (Ancestor(position, l) % 2 == 1))
  }

  lemma PathMakesProof(m: Positions, position: nat, elements: seq<Word>, rights: seq<bool>)
    requires IsPath(m, position, elements, rights) && |elements| == DEPTH
    ensures Proof(TreeRoot(m), LeafAt(m, position), position, elements, rights) == ProofOf(m, position)
  {
    assert elements == ProofOf(m, position).elements;
    assert rights == ProofOf(m, position).rights;
  }

  /** The sparse tree's proof over its first `leafCount` leaves. */
  method SparseProve(m: Positions, position: nat, leafCount: nat) returns (p: Proof)
    ensures p == ProofOf(Prefix(m, if leafCount < LEAVES then leafCount else LEAVES), position % LEAVES)
  {
    var count := if leafCount < LEAVES then leafCount else LEAVES;
    p := SparseProveAt(m, position % LEAVES, count);
  }

  method SparseProveAt(m: Positions, local: nat, count: nat) returns (p: Proof)
    requires local < LEAVES
    ensures p == ProofOf(Prefix(m, count), local)
  {
    var leaf := if local < count then LeafAt(m, local) else EMPTY_LEAF;
    ghost var kept := Prefix(m, count);
    assert leaf == LeafAt(kept, local);
    var elements: seq<Word>, rights: seq<bool>, root := [], [], leaf;
    for level := 0 to DEPTH
      invariant |elements| == level && IsPath(kept, local, elements, rights)
      invariant root == Node(kept, level, Ancestor(local, level))
    {
      var index := Ancestor(local, level);
      var sibling := SparseSibling(m, local, level, count);
      ParentOnPath(kept, local, level);
      PathGrows(kept, local, elements, rights, sibling);
      elements, rights := elements + [sibling], rights + [index % 2 == 1];
      root := if index % 2 == 1 then Poseidon(sibling, root) else Poseidon(root, sibling);
    }
    RootIsAbove(local);
    PathMakesProof(kept, local, elements, rights);
    p := Proof(root, leaf, local, elements, rights);
  }

  lemma TimesMonotone(a: nat, b: nat, c: nat)
    requires a <= b
    ensures a * c <= b * c
  {
  }

  lemma SpanFits(index: nat, level: nat)
    requires level <= DEPTH && index < Pow2(DEPTH - level)
    ensures index * Pow2(level) + Pow2(level) <= LEAVES
  {
    PowersMultiply(DEPTH - level, level);
    DepthIsLeaves();
    TimesMonotone(index + 1, Pow2(DEPTH - level), Pow2(level));
  }

  method SparseSibling(m: Positions, position: nat, level: nat, count: nat) returns (w: Word)
    requires position < LEAVES && level < DEPTH
    ensures w == Node(Prefix(m, count), level, Sibling(Ancestor(position, level)))
  {
    var s := Sibling(Ancestor(position, level));
    SiblingInLayer(position, level);
    SpanFits(s, level);
    SubtreeRootIsNodeFrom(m, s * Pow2(level), level, count);
    NodeFromIsNode(Prefix(m, count), s * Pow2(level), level, s);
    w := SubtreeRoot(m, s * Pow2(level), level, count);
  }

  lemma {:induction false} PowersMultiply(a: nat, b: nat)
    ensures Pow2(a) * Pow2(b) == Pow2(a + b)
  {
    if a > 0 {
      PowersMultiply(a - 1, b);
      DoubleProduct(Pow2(a - 1), Pow2(b));
    }
  }

  lemma DoubleProduct(x: nat, y: nat)
    ensures (2 * x) * y == 2 * (x * y)
  {
  }

  /** Rewriting the node above `index` at `level` settles that node, and disturbs
      only its own parent. */
  lemma OneNodeRewritten(before: Layers, after: Layers, position: nat, level: nat, l: nat, i: nat)
    requires Shaped(before) && Shaped(after) && level < DEPTH && l < DEPTH && i < Pow2(DEPTH - l - 1)
    requires Ancestor(position, level + 1) < Pow2(DEPTH - level - 1)
    requires ParentHolds(before, l, i) || (level <= l && i == Ancestor(position, l + 1))
    requires forall k :: 0 <= k <= DEPTH && k != level + 1 ==> after[k] == before[k]
    requires var up, up' := before[level + 1], after[level + 1];
             forall j :: 0 <= j < |up'| && j != Ancestor(position, level + 1) ==> up'[j] == up[j]
    requires ParentHolds(after, level, Ancestor(position, level + 1))
    ensures ParentHolds(after, l, i) || (level + 1 <= l && i == Ancestor(position, l + 1))
  {
    Doubles(DEPTH - l);
    if l == level + 1 && i != Ancestor(position, l + 1) {
      var a := Ancestor(position, level + 1);
      assert Ancestor(position, l + 1) == a / 2;
      assert 2 * i != a && 2 * i + 1 != a;
    }
  }

  lemma LeafRewritten(before: Layers, after: Layers, position: nat, l: nat, i: nat)
    requires Shaped(before) && Shaped(after) && l < DEPTH && i < Pow2(DEPTH - l - 1)
    requires ParentHolds(before, l, i)
    requires forall k :: 0 < k <= DEPTH ==> after[k] == before[k]
    requires var row, row' := before[0], after[0];
             forall j :: 0 <= j < |row'| && j != position ==> row'[j] == row[j]
    ensures ParentHolds(after, l, i) || i == Ancestor(position, l + 1)
  {
    Doubles(DEPTH - l);
    if l == 0 && i != Ancestor(position, 1) {
      assert Ancestor(position, 1) == position / 2;
      assert 2 * i != position && 2 * i + 1 != position;
    }
  }

  /** The layers with one node replaced. */
  function WithNode(layers: Layers, l: nat, i: nat, w: Word): Layers
    requires l < |layers| && i < |layers[l]|
  {
    var row: seq<Word> := layers[l][i := w];
    layers[l := row]
  }

  /** The layers with the node at `(level + 1, parent)` hashed again. */
  function Rehashed(layers: Layers, level: nat, parent: nat): Layers
    requires level + 1 < |layers| && parent < |layers[level + 1]| && 2 * parent + 1 < |layers[level]|
  {
    WithNode(layers, level + 1, parent, Poseidon(layers[level][parent * 2], layers[level][parent * 2 + 1]))
  }

  /** Every node is the hash of its children, save those above `position` from `level` on. */
  predicate Settled(layers: Layers, position: nat, level: nat) {
    && Shaped(layers)
    && forall l, i :: 0 <= l < DEPTH && 0 <= i < Pow2(DEPTH - l - 1) ==>
         ParentHolds(layers, l, i) || (level <= l && i == Ancestor(position, l + 1))
  }

  lemma SettledIsDense(layers: Layers, position: nat)
    requires Settled(layers, position, DEPTH)
    ensures IsDense(layers)
  {
  }

  lemma LeavesAfterSet(before: Layers, after: Layers, position: nat, leaf: Word)
    requires Shaped(before) && Shaped(after) && position < |before[0]| && after[0] == before[0][position := leaf]
    ensures DenseLeaves(after) == DenseLeaves(before)[position := leaf]
  {
  }

  lemma LeafSettles(layers: Layers, position: nat, leaf: Word)
    requires IsDense(layers) && position < |layers[0]|
    ensures Settled(WithNode(layers, 0, position, leaf), position, 0)
  {
    var after := WithNode(layers, 0, position, leaf);
    forall l, i | 0 <= l < DEPTH && 0 <= i < Pow2(DEPTH - l - 1)
      ensures ParentHolds(after, l, i) || i == Ancestor(position, l + 1)
    {
      LeafRewritten(layers, after, position, l, i);
    }
  }

  /** Rewriting the node above `level` settles one level more. */
  lemma NodeSettles(layers: Layers, position: nat, level: nat)
    requires Settled(layers, position, level) && level < DEPTH && position < LEAVES
    ensures var parent := Ancestor(position, level) / 2;
            && 2 * parent + 1 < |layers[level]| && parent < |layers[level + 1]|
            && Settled(Rehashed(layers, level, parent), position, level + 1)
  {
    AncestorBound(position, level + 1);
    Doubles(DEPTH - level);
    var parent := Ancestor(position, level) / 2;
    var after := Rehashed(layers, level, parent);
    assert ParentHolds(after, level, parent);
    forall l, i | 0 <= l < DEPTH && 0 <= i < Pow2(DEPTH - l - 1)
      ensures ParentHolds(after, l, i) || (level + 1 <= l && i == Ancestor(position, l + 1))
    {
      OneNodeRewritten(layers, after, position, level, l, i);
    }
  }

  predicate LayerLinked(lower: seq<Word>, upper: seq<Word>) {
    && |lower| == 2 * |upper|
    && forall i :: 0 <= i < |upper| ==> upper[i] == Poseidon(lower[2 * i], lower[2 * i + 1])
  }

  /** Nodes past the active prefix of a layer are empty subtrees. */
  predicate EmptyFrom(layer: seq<Word>, active: nat, level: nat) {
    forall i :: active <= i < |layer| ==> layer[i] == ZeroHash(level)
  }

  /** Hashes the active parents and leaves the rest at the hash of an empty subtree. */
  method HashActive(layer: seq<Word>, active: nat, ghost level: nat, zero: Word)
    returns (parents: seq<Word>)
    requires |layer| % 2 == 0 && active <= |layer| && EmptyFrom(layer, active, level)
    requires zero == ZeroHash(level + 1)
    ensures LayerLinked(layer, parents) && EmptyFrom(parents, (active + 1) / 2, level + 1)
  {
    var half := |layer| / 2;
    parents := [];
    for i := 0 to half
      invariant |parents| == i
      invariant forall j :: 0 <= j < i ==> parents[j] == Poseidon(layer[2 * j], layer[2 * j + 1])
      invariant forall j :: (active + 1) / 2 <= j < i ==> parents[j] == zero
    {
      if i < (active + 1) / 2 {
        parents := parents + [Poseidon(layer[2 * i], layer[2 * i + 1])];
      } else {
        assert layer[2 * i] == layer[2 * i + 1] == ZeroHash(level);
        parents := parents + [zero];
      }
    }
  }

  lemma LinkedIsDense(layers: Layers)
    requires |layers| == DEPTH + 1 && |layers[0]| == LEAVES
    requires forall l :: 0 <= l < DEPTH ==> LayerLinked(layers[l], layers[l + 1])
    ensures IsDense(layers)
  {
    forall l | 0 <= l <= DEPTH ensures |layers[l]| == Pow2(DEPTH - l) {
      LayerWidth(layers, l);
    }
    forall l, i | 0 <= l < DEPTH && 0 <= i < Pow2(DEPTH - l - 1) ensures ParentHolds(layers, l, i) {
      assert LayerLinked(layers[l], layers[l + 1]);
    }
  }

  lemma {:induction false} LayerWidth(layers: Layers, l: nat)
    requires |layers| == DEPTH + 1 && |layers[0]| == LEAVES && l <= DEPTH
    requires forall k :: 0 <= k < DEPTH ==> LayerLinked(layers[k], layers[k + 1])
    ensures |layers[l]| == Pow2(DEPTH - l)
  {
    DepthIsLeaves();
    if l > 0 {
      LayerWidth(layers, l - 1);
      Doubles(DEPTH - l + 1);
      assert LayerLinked(layers[l - 1], layers[l - 1 + 1]);
    }
  }

  method BuildLayers(m: Positions, count: nat) returns (layers: Layers)
    requires count <= LEAVES && forall i :: i in m ==> i < count
    ensures IsDense(layers) && SameLeaves(DenseLeaves(layers), m)
  {
    DepthIsLeaves();
    var bottom: seq<Word> := seq(LEAVES, i requires 0 <= i < LEAVES => LeafAt(m, i));
    layers := StackLayers(bottom, count);
    LinkedIsDense(layers);
    BottomHolds(layers, m);
  }

  lemma BottomHolds(layers: Layers, m: Positions)
    requires Shaped(layers) && |layers[0]| == LEAVES && forall i :: 0 <= i < LEAVES ==> layers[0][i] == LeafAt(m, i)
    requires InCapacity(m)
    ensures SameLeaves(DenseLeaves(layers), m)
  {
  }

  /** Stacks layer on layer, hashing only the active prefix of each. */
  method StackLayers(bottom: seq<Word>, count: nat) returns (layers: Layers)
    requires |bottom| == LEAVES && count <= LEAVES && EmptyFrom(bottom, count, 0)
    ensures |layers| == DEPTH + 1 && layers[0] == bottom
    ensures forall l :: 0 <= l < DEPTH ==> LayerLinked(layers[l], layers[l + 1])
  {
    DepthIsLeaves();
    var layer, active: nat := bottom, count;
    layers := [layer];
    for level := 0 to DEPTH
      invariant |layers| == level + 1 && layers[0] == bottom && layers[level] == layer
      invariant |layer| == Pow2(DEPTH - level) && active <= |layer| && EmptyFrom(layer, active, level)
      invariant Linked(layers)
    {
      Doubles(DEPTH - level);
      layer := HashActive(layer, active, level, ZeroHash(level + 1));
      LinkedHigher(layers, layer);
      layers := layers + [layer];
      active := (active + 1) / 2;
    }
  }

  predicate Linked(layers: Layers) {
    forall l :: 0 <= l < |layers| - 1 ==> LayerLinked(layers[l], layers[l + 1])
  }

  lemma LinkedHigher(layers: Layers, top: seq<Word>)
    requires layers != [] && Linked(layers) && LayerLinked(layers[|layers| - 1], top)
    ensures Linked(layers + [top])
  {
  }

  /** A dense tree, updated in place one leaf at a time. */
  class DenseMerkleTree {
    var layers: Layers

    ghost predicate Valid()
      reads this
    {
      IsDense(layers)
    }

    function Leaves(): Positions
      requires Valid()
      reads this
    {
      DenseLeaves(layers)
    }

    /** Builds the layers over the first `leafCount` leaves, hashing only the active
        prefix of each layer. */
    constructor FromPrefix(m: Positions, leafCount: nat)
      ensures Valid() && SameLeaves(Leaves(), Prefix(m, if leafCount < LEAVES then leafCount else LEAVES))
    {
      var count := if leafCount < LEAVES then leafCount else LEAVES;
      var built := BuildLayers(Prefix(m, count), count);
      layers := built;
    }

    method Root() returns (r: Word)
      requires Valid()
      ensures r == TreeRoot(Leaves())
    {
      DenseNodes(layers, DEPTH, 0);
      r := layers[DEPTH][0];
    }

    /** Rewrites one leaf and the nodes above it; positions outside are ignored. */
    method SetLeaf(position: nat, leaf: Word)
      requires Valid()
      modifies this
      ensures Valid()
      ensures Leaves() == if position < LEAVES then old(Leaves())[position := leaf] else old(Leaves())
    {
      DepthIsLeaves();
      if position >= |layers[0]| {
        return;
      }
      var index := position;
      ghost var bottom: seq<Word> := layers[0][position := leaf];
      LeafSettles(layers, position, leaf);
      layers := WithNode(layers, 0, position, leaf);
      for level := 0 to DEPTH
        invariant Settled(layers, position, level) && index == Ancestor(position, level) && layers[0] == bottom
      {
        var parent := index / 2;
        NodeSettles(layers, position, level);
        layers := Rehashed(layers, level, parent);
        index := parent;
      }
      SettledIsDense(layers, position);
      LeavesAfterSet(old(layers), layers, position, leaf);
    }

    method Prove(position: nat) returns (p: Proof)
      requires Valid()
      ensures p == ProofOf(Leaves(), position % LEAVES)
    {
      DepthIsLeaves();
      var local := position % LEAVES;
      ghost var m := Leaves();
      var elements: seq<Word>, rights: seq<bool>, index := [], [], local;
      for level := 0 to DEPTH
        invariant |elements| == level && IsPath(m, local, elements, rights)
        invariant index == Ancestor(local, level)
      {
        var isRight := index % 2 == 1;
        var sibling := if isRight then index - 1 else index + 1;
        SiblingNode(layers, local, level);
        PathGrows(m, local, elements, rights, layers[level][sibling]);
        elements, rights := elements + [layers[level][sibling]], rights + [isRight];
        index := index / 2;
      }
      PathMakesProof(m, local, elements, rights);
      DenseNodes(layers, DEPTH, 0);
      DenseNodes(layers, 0, local);
      p := Proof(layers[DEPTH][0], layers[0][local], local, elements, rights);
    }
  }

  /** The stored sibling on a path is the reference sibling. */
  lemma SiblingNode(layers: Layers, local: nat, level: nat)
    requires IsDense(layers) && local < LEAVES && level < DEPTH
    ensures var s := Sibling(Ancestor(local, level));
            s < |layers[level]| && layers[level][s] == Node(DenseLeaves(layers), level, s)
  {
    SiblingInLayer(local, level);
    DenseNodes(layers, level, Sibling(Ancestor(local, level)));
  }

  lemma PathGrows(m: Positions, local: nat, elements: seq<Word>, rights: seq<bool>, e: Word)
    requires IsPath(m, local, elements, rights) && e == Node(m, |elements|, Sibling(Ancestor(local, |elements|)))
    ensures IsPath(m, local, elements + [e], rights + [Ancestor(local, |elements|) % 2 == 1])
  {
  }
}
