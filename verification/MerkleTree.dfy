/** Field elements of the Poseidon hash and their 32-byte hex form.
    A 64-digit lowercase hex string is identified with the number it denotes. */
module FieldElements {
  const BN254: nat := 21888242871839275222246405745257275088548364400416034343698204186575808495617
  const HEX64_LIMIT: nat := 0x1_0000_0000_0000_0000_0000_0000_0000_0000_0000_0000_0000_0000_0000_0000_0000_0000

  type Hex64 = n: int | 0 <= n < HEX64_LIMIT
  type Field = n: int | 0 <= n < BN254
  type Poseidon2 = (Field, Field) -> Field

  const ZERO: Hex64 := 0

  /** Every input of Poseidon is first reduced into the scalar field. */
  function Reduce(x: Hex64): Field {
    x % BN254
  }

  /** Two hex values that Poseidon cannot tell apart. */
  predicate SameElement(x: Hex64, y: Hex64) {
    Reduce(x) == Reduce(y)
  }

  predicate Canonical(x: Hex64) {
    x < BN254
  }

  /** poseidonHashHex64([l, r]). */
  function Node(h: Poseidon2, l: Hex64, r: Hex64): Hex64 {
    h(Reduce(l), Reduce(r))
  }

  lemma NodeIsCanonical(h: Poseidon2, l: Hex64, r: Hex64)
    ensures Canonical(Node(h, l, r)) && Reduce(Node(h, l, r)) == Node(h, l, r)
  {
    CanonicalIsReduced(Node(h, l, r));
  }

  lemma CanonicalIsReduced(x: Hex64)
    requires Canonical(x)
    ensures Reduce(x) == x
  {
  }
}

/** What the credential tree means: the complete binary tree over 2^depth leaves, padded with zeros.
    The hash is any function of two field elements. */
module MerkleTree {
  import opened Prelude
  import opened FieldElements

  /** Leaf index to commitment; every other leaf is zero. */
  type Tree = map<nat, Hex64>

  datatype Path = Path(siblings: seq<Hex64>, pathIndices: seq<nat>)

  function LeafValue(t: Tree, i: nat): Hex64 {
    if i in t then t[i] else ZERO
  }

  /** The node at height `level` and position `j`, computed without any sparseness. */
  function NodeAt(h: Poseidon2, t: Tree, level: nat, j: nat): Hex64 {
    if level == 0 then LeafValue(t, j)
    else Node(h, NodeAt(h, t, level - 1, 2 * j), NodeAt(h, t, level - 1, 2 * j + 1))
  }

  function Root(h: Poseidon2, t: Tree, depth: nat): Hex64 {
    NodeAt(h, t, depth, 0)
  }

  /** The hash of an all-zero subtree. */
  function ZeroHash(h: Poseidon2, level: nat): Hex64 {
    if level == 0 then ZERO
    else Node(h, ZeroHash(h, level - 1), ZeroHash(h, level - 1))
  }

  /** Independent reference: halve a full row of 2^depth leaves until one is left. */
  function CompleteRoot(h: Poseidon2, row: seq<Hex64>, depth: nat): Hex64
    requires |row| == Pow2(depth)
  {
    if depth == 0 then row[0]
    else
      var half := Pow2(depth - 1);
      h(CompleteRoot(h, row[..half], depth - 1) % BN254, CompleteRoot(h, row[half..], depth - 1) % BN254)
  }

  function PaddedRow(t: Tree, start: nat, width: nat): (row: seq<Hex64>)
    ensures |row| == width && forall k :: 0 <= k < width ==> row[k] == LeafValue(t, start + k)
  {
    if width == 0 then [] else PaddedRow(t, start, width - 1) + [LeafValue(t, start + width - 1)]
  }

  /** The 2 * half leaves below node j are those below its two children. */
  lemma ChildSpans(j: nat, half: nat)
    ensures j * (2 * half) == (2 * j) * half
    ensures (2 * j + 1) * half == j * (2 * half) + half
  {
  }

  lemma {:induction false} NodeIsCompleteRoot(h: Poseidon2, t: Tree, level: nat, j: nat, first: nat)
    requires first == j * Pow2(level)
    ensures NodeAt(h, t, level, j) == CompleteRoot(h, PaddedRow(t, first, Pow2(level)), level)
    decreases level
  {
    if level == 0 {
    } else {
      var half := Pow2(level - 1);
      ChildSpans(j, half);
      PaddedRowSplits(t, first, half);
      NodeIsCompleteRoot(h, t, level - 1, 2 * j, first);
      NodeIsCompleteRoot(h, t, level - 1, 2 * j + 1, first + half);
    }
  }

  lemma PaddedRowSplits(t: Tree, first: nat, half: nat)
    ensures PaddedRow(t, first, 2 * half)[..half] == PaddedRow(t, first, half)
    ensures PaddedRow(t, first, 2 * half)[half..] == PaddedRow(t, first + half, half)
  {
  }

  lemma RootIsCompleteRoot(h: Poseidon2, t: Tree, depth: nat)
    ensures Root(h, t, depth) == CompleteRoot(h, PaddedRow(t, 0, Pow2(depth)), depth)
  {
    NodeIsCompleteRoot(h, t, depth, 0, 0);
  }

  // ---------------------------------------------------------------- positions

  function Sibling(j: nat): (s: nat)
    ensures s != j && s / 2 == j / 2
  {
    if j % 2 == 0 then j + 1 else j - 1
  }

  /** Position of leaf i's ancestor at height `level`. */
  function Ancestor(i: nat, level: nat): nat {
    if level == 0 then i else Ancestor(i, level - 1) / 2
  }

  lemma {:induction false} AncestorBound(i: nat, depth: nat, level: nat)
    requires i < Pow2(depth) && level <= depth
    ensures Ancestor(i, level) < Pow2(depth - level)
  {
    if level == 0 {
    } else {
      AncestorBound(i, depth, level - 1);
    }
  }

  function IndexValue(bits: seq<nat>): nat {
    if bits == [] then 0 else IndexValue(bits[..|bits| - 1]) + bits[|bits| - 1] * Pow2(|bits| - 1)
  }

  function PathBits(i: nat, depth: nat): (bits: seq<nat>)
    ensures |bits| == depth
  {
    if depth == 0 then [] else PathBits(i, depth - 1) + [Ancestor(i, depth - 1) % 2]
  }

  lemma SplitDigit(a: nat, p: nat)
    ensures a * p == (a / 2) * (2 * p) + (a % 2) * p
  {
    assert a == 2 * (a / 2) + a % 2;
  }

  lemma {:induction false} BitsAndAncestor(i: nat, depth: nat)
    ensures IndexValue(PathBits(i, depth)) + Ancestor(i, depth) * Pow2(depth) == i
  {
    if depth == 0 {
    } else {
      BitsAndAncestor(i, depth - 1);
      var bits := PathBits(i, depth);
      assert bits[..depth - 1] == PathBits(i, depth - 1);
      SplitDigit(Ancestor(i, depth - 1), Pow2(depth - 1));
    }
  }

  /** The direction bits of a path are the binary digits of the leaf index. */
  lemma PathBitsSpellIndex(i: nat, depth: nat)
    requires i < Pow2(depth)
    ensures IndexValue(PathBits(i, depth)) == i
  {
    AncestorBound(i, depth, depth);
    BitsAndAncestor(i, depth);
  }

  // ---------------------------------------------------------------- membership paths

  /** The sibling of each ancestor of leaf i, from the leaf up. */
  function PathSiblings(h: Poseidon2, t: Tree, i: nat, depth: nat): (siblings: seq<Hex64>)
    ensures |siblings| == depth
  {
    if depth == 0 then []
    else PathSiblings(h, t, i, depth - 1) + [NodeAt(h, t, depth - 1, Sibling(Ancestor(i, depth - 1)))]
  }

  function PathOf(h: Poseidon2, t: Tree, i: nat, depth: nat): Path {
    Path(PathSiblings(h, t, i, depth), PathBits(i, depth))
  }

  /** What a verifier computes from a leaf and a path. */
  function Fold(h: Poseidon2, leaf: Hex64, siblings: seq<Hex64>, bits: seq<nat>): Hex64
    requires |siblings| == |bits|
  {
    if siblings == [] then leaf
    else
      var top := |siblings| - 1;
      var below := Fold(h, leaf, siblings[..top], bits[..top]);
      if bits[top] == 0 then Node(h, below, siblings[top]) else Node(h, siblings[top], below)
  }

  lemma FoldOneMore(h: Poseidon2, leaf: Hex64, siblings: seq<Hex64>, bits: seq<nat>, sibling: Hex64, bit: nat)
    requires |siblings| == |bits|
    ensures var below := Fold(h, leaf, siblings, bits);
      Fold(h, leaf, siblings + [sibling], bits + [bit])
      == if bit == 0 then Node(h, below, sibling) else Node(h, sibling, below)
  {
    assert (siblings + [sibling])[..|siblings|] == siblings;
    assert (bits + [bit])[..|bits|] == bits;
  }

  lemma ParentOfPair(h: Poseidon2, t: Tree, level: nat, a: nat)
    ensures var own, other := NodeAt(h, t, level, a), NodeAt(h, t, level, Sibling(a));
      NodeAt(h, t, level + 1, a / 2) == if a % 2 == 0 then Node(h, own, other) else Node(h, other, own)
  {
    if a % 2 == 0 {
      assert 2 * (a / 2) == a;
    } else {
      assert 2 * (a / 2) + 1 == a;
    }
  }

  lemma {:induction false} FoldClimbs(h: Poseidon2, t: Tree, i: nat, depth: nat)
    ensures Fold(h, LeafValue(t, i), PathSiblings(h, t, i, depth), PathBits(i, depth))
            == NodeAt(h, t, depth, Ancestor(i, depth))
  {
    if depth == 0 {
    } else {
      FoldClimbs(h, t, i, depth - 1);
      FoldClimbsOne(h, t, LeafValue(t, i), PathSiblings(h, t, i, depth - 1), PathBits(i, depth - 1),
                    depth - 1, Ancestor(i, depth - 1));
    }
  }

  lemma FoldClimbsOne(h: Poseidon2, t: Tree, leaf: Hex64, siblings: seq<Hex64>, bits: seq<nat>, level: nat, a: nat)
    requires |siblings| == |bits|
    requires Fold(h, leaf, siblings, bits) == NodeAt(h, t, level, a)
    ensures Fold(h, leaf, siblings + [NodeAt(h, t, level, Sibling(a))], bits + [a % 2])
         == NodeAt(h, t, level + 1, a / 2)
  {
    FoldOneMore(h, leaf, siblings, bits, NodeAt(h, t, level, Sibling(a)), a % 2);
    ParentOfPair(h, t, level, a);
  }

  lemma AncestorAtTop(i: nat, depth: nat)
    requires i < Pow2(depth)
    ensures Ancestor(i, depth) == 0
  {
    AncestorBound(i, depth, depth);
  }

  /** Every path is a proof of its leaf. */
  lemma PathFoldsToRoot(h: Poseidon2, t: Tree, i: nat, depth: nat)
    requires i < Pow2(depth)
    ensures Fold(h, LeafValue(t, i), PathSiblings(h, t, i, depth), PathBits(i, depth)) == Root(h, t, depth)
  {
    AncestorAtTop(i, depth);
    FoldClimbs(h, t, i, depth);
  }

  lemma {:induction false} OtherNodesKeep(h: Poseidon2, t: Tree, u: Tree, i: nat, level: nat, j: nat)
    requires forall k: nat :: k != i ==> LeafValue(t, k) == LeafValue(u, k)
    requires j != Ancestor(i, level)
    ensures NodeAt(h, t, level, j) == NodeAt(h, u, level, j)
    decreases level
  {
    if level == 0 {
    } else {
      OtherNodesKeep(h, t, u, i, level - 1, 2 * j);
      OtherNodesKeep(h, t, u, i, level - 1, 2 * j + 1);
    }
  }

  /** A leaf's path does not depend on the leaf: folding another value up the same path
      gives the root of the tree in which only that leaf was replaced. */
  lemma PathFoldsAnyLeaf(h: Poseidon2, t: Tree, u: Tree, i: nat, depth: nat)
    requires i < Pow2(depth)
    requires forall k: nat :: k != i ==> LeafValue(t, k) == LeafValue(u, k)
    ensures PathOf(h, t, i, depth) == PathOf(h, u, i, depth)
    ensures Fold(h, LeafValue(u, i), PathSiblings(h, t, i, depth), PathBits(i, depth)) == Root(h, u, depth)
  {
    PathIgnoresLeaf(h, t, u, i, depth);
    PathFoldsToRoot(h, u, i, depth);
  }

  lemma {:induction false} PathIgnoresLeaf(h: Poseidon2, t: Tree, u: Tree, i: nat, depth: nat)
    requires forall k: nat :: k != i ==> LeafValue(t, k) == LeafValue(u, k)
    ensures PathSiblings(h, t, i, depth) == PathSiblings(h, u, i, depth)
  {
    if depth == 0 {
    } else {
      PathIgnoresLeaf(h, t, u, i, depth - 1);
      OtherNodesKeep(h, t, u, i, depth - 1, Sibling(Ancestor(i, depth - 1)));
    }
  }

  // ---------------------------------------------------------------- binding

  /** The pair hashed at height k while folding. */
  function FoldInputs(h: Poseidon2, leaf: Hex64, siblings: seq<Hex64>, bits: seq<nat>, k: nat): (Hex64, Hex64)
    requires k < |siblings| == |bits|
  {
    var below := Fold(h, leaf, siblings[..k], bits[..k]);
    if bits[k] == 0 then (below, siblings[k]) else (siblings[k], below)
  }

  predicate Collides(h: Poseidon2, p: (Hex64, Hex64), q: (Hex64, Hex64)) {
    && Node(h, p.0, p.1) == Node(h, q.0, q.1)
    && !(SameElement(p.0, q.0) && SameElement(p.1, q.1))
  }

  /** The two folds meet in a hash collision at height k. */
  predicate FoldsCollide(h: Poseidon2, x: Hex64, xs: seq<Hex64>, y: Hex64, ys: seq<Hex64>, bits: seq<nat>, k: nat)
    requires k < |xs| == |ys| == |bits|
  {
    Collides(h, FoldInputs(h, x, xs, bits, k), FoldInputs(h, y, ys, bits, k))
  }

  /** Two openings of one root at one index open to the same element and the same siblings,
      unless the hash collides between the two openings themselves. */
  lemma {:induction false} FoldBinds(h: Poseidon2, x: Hex64, xs: seq<Hex64>, y: Hex64, ys: seq<Hex64>, bits: seq<nat>)
    requires |xs| == |ys| == |bits|
    requires SameElement(Fold(h, x, xs, bits), Fold(h, y, ys, bits))
    requires forall k :: 0 <= k < |bits| ==> !FoldsCollide(h, x, xs, y, ys, bits, k)
    ensures SameElement(x, y)
    ensures forall k :: 0 <= k < |bits| ==> SameElement(xs[k], ys[k])
    decreases |bits|
  {
    if bits == [] {
    } else {
      var top := |bits| - 1;
      var p, q := FoldInputs(h, x, xs, bits, top), FoldInputs(h, y, ys, bits, top);
      assert Fold(h, x, xs, bits) == Node(h, p.0, p.1);
      assert Fold(h, y, ys, bits) == Node(h, q.0, q.1);
      NodeIsCanonical(h, p.0, p.1);
      NodeIsCanonical(h, q.0, q.1);
      assert !FoldsCollide(h, x, xs, y, ys, bits, top);
      assert SameElement(p.0, q.0) && SameElement(p.1, q.1);
      forall k | 0 <= k < top
        ensures !FoldsCollide(h, x, xs[..top], y, ys[..top], bits[..top], k)
      {
        assert xs[..top][..k] == xs[..k];
        assert ys[..top][..k] == ys[..k];
        assert bits[..top][..k] == bits[..k];
        assert !FoldsCollide(h, x, xs, y, ys, bits, k);
      }
      FoldBinds(h, x, xs[..top], y, ys[..top], bits[..top]);
      forall k | 0 <= k < |bits|
        ensures SameElement(xs[k], ys[k])
      {
        if k < top {
          assert xs[k] == xs[..top][k] && ys[k] == ys[..top][k];
        }
      }
    }
  }

  /** No node of the one tree collides with the node in the same place of the other. */
  predicate NoCollisionBetween(h: Poseidon2, t: Tree, u: Tree, depth: nat) {
    forall l: nat, j: nat :: l < depth && j < Pow2(depth - 1 - l) ==> !NodesCollide(h, t, u, l, j)
  }

  predicate NodesCollide(h: Poseidon2, t: Tree, u: Tree, l: nat, j: nat) {
    Collides(h,
             (NodeAt(h, t, l, 2 * j), NodeAt(h, t, l, 2 * j + 1)),
             (NodeAt(h, u, l, 2 * j), NodeAt(h, u, l, 2 * j + 1)))
  }

  predicate SameLeaves(t: Tree, u: Tree, first: nat, count: nat) {
    forall i: nat :: first <= i < first + count ==> SameElement(LeafValue(t, i), LeafValue(u, i))
  }

  lemma {:induction false} EqualNodesHaveSameLeaves(h: Poseidon2, t: Tree, u: Tree, depth: nat, level: nat, j: nat)
    requires level <= depth && j < Pow2(depth - level)
    requires NoCollisionBetween(h, t, u, depth)
    requires SameElement(NodeAt(h, t, level, j), NodeAt(h, u, level, j))
    ensures SameLeaves(t, u, j * Pow2(level), Pow2(level))
    decreases level
  {
    if level == 0 {
    } else {
      var half := Pow2(level - 1);
      NodeIsCanonical(h, NodeAt(h, t, level - 1, 2 * j), NodeAt(h, t, level - 1, 2 * j + 1));
      NodeIsCanonical(h, NodeAt(h, u, level - 1, 2 * j), NodeAt(h, u, level - 1, 2 * j + 1));
      assert !NodesCollide(h, t, u, level - 1, j);
      EqualNodesHaveSameLeaves(h, t, u, depth, level - 1, 2 * j);
      EqualNodesHaveSameLeaves(h, t, u, depth, level - 1, 2 * j + 1);
      ChildSpans(j, half);
    }
  }

  lemma SameLeavesBelow(t: Tree, u: Tree, j: nat, half: nat)
    requires SameLeaves(t, u, j * (2 * half), 2 * half)
    ensures SameLeaves(t, u, (2 * j) * half, half) && SameLeaves(t, u, (2 * j + 1) * half, half)
  {
    ChildSpans(j, half);
  }

  lemma {:induction false} SameLeavesHaveEqualNodes(h: Poseidon2, t: Tree, u: Tree, level: nat, j: nat)
    requires SameLeaves(t, u, j * Pow2(level), Pow2(level))
    ensures SameElement(NodeAt(h, t, level, j), NodeAt(h, u, level, j))
    ensures level > 0 ==> NodeAt(h, t, level, j) == NodeAt(h, u, level, j)
    decreases level
  {
    if level == 0 {
      assert SameElement(LeafValue(t, j), LeafValue(u, j));
    } else {
      var half := Pow2(level - 1);
      SameLeavesBelow(t, u, j, half);
      SameLeavesHaveEqualNodes(h, t, u, level - 1, 2 * j);
      SameLeavesHaveEqualNodes(h, t, u, level - 1, 2 * j + 1);
    }
  }

  /** The root says exactly which field elements the leaves are: nothing less and nothing more. */
  lemma RootDeterminesLeaves(h: Poseidon2, t: Tree, u: Tree, depth: nat)
    requires depth > 0
    requires NoCollisionBetween(h, t, u, depth)
    ensures Root(h, t, depth) == Root(h, u, depth) <==> SameLeaves(t, u, 0, Pow2(depth))
  {
    if Root(h, t, depth) == Root(h, u, depth) {
      EqualNodesHaveSameLeaves(h, t, u, depth, depth, 0);
    }
    if SameLeaves(t, u, 0, Pow2(depth)) {
      SameLeavesHaveEqualNodes(h, t, u, depth, 0);
    }
  }

  predicate CanonicalTree(t: Tree) {
    forall i :: i in t ==> Canonical(t[i])
  }

  /** With commitments below the field modulus the root determines the hex values themselves. */
  lemma RootDeterminesCanonicalTree(h: Poseidon2, t: Tree, u: Tree, depth: nat)
    requires depth > 0
    requires NoCollisionBetween(h, t, u, depth)
    requires CanonicalTree(t) && CanonicalTree(u)
    ensures Root(h, t, depth) == Root(h, u, depth)
            <==> forall i: nat :: i < Pow2(depth) ==> LeafValue(t, i) == LeafValue(u, i)
  {
    RootDeterminesLeaves(h, t, u, depth);
    forall i: nat
      ensures SameElement(LeafValue(t, i), LeafValue(u, i)) <==> LeafValue(t, i) == LeafValue(u, i)
    {
      CanonicalIsReduced(LeafValue(t, i));
      CanonicalIsReduced(LeafValue(u, i));
    }
  }

  /** Without that bound it does not: a commitment equal to the modulus passes the 64-digit check
      and is invisible in the root, whatever the hash. */
  lemma ModulusLeafIsInvisible(h: Poseidon2, depth: nat)
    requires depth > 0
    ensures
      var t: Tree := map[0 := 21888242871839275222246405745257275088548364400416034343698204186575808495617];
      var u: Tree := map[];
      Root(h, t, depth) == Root(h, u, depth) && LeafValue(t, 0) != LeafValue(u, 0)
  {
    var t: Tree := map[0 := BN254];
    var u: Tree := map[];
    assert SameLeaves(t, u, 0, Pow2(depth));
    SameLeavesHaveEqualNodes(h, t, u, depth, 0);
  }

  /** Soundness of the verifier: an opening of the root at index i that meets no collision with
      the honest path starts from the element stored at i. */
  lemma OpeningIsHonest(h: Poseidon2, t: Tree, i: nat, depth: nat, leaf: Hex64, siblings: seq<Hex64>)
    requires i < Pow2(depth) && |siblings| == depth
    requires Fold(h, leaf, siblings, PathBits(i, depth)) == Root(h, t, depth)
    requires forall k :: 0 <= k < depth ==>
      !FoldsCollide(h, leaf, siblings, LeafValue(t, i), PathSiblings(h, t, i, depth), PathBits(i, depth), k)
    ensures SameElement(leaf, LeafValue(t, i))
  {
    PathFoldsToRoot(h, t, i, depth);
    FoldBinds(h, leaf, siblings, LeafValue(t, i), PathSiblings(h, t, i, depth), PathBits(i, depth));
  }
}
