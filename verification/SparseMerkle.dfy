/** The credential registry's tree builder: one map of known nodes per level, precomputed zero
    hashes, a `processed` set that pairs siblings, and the path extractor. */
module SparseMerkle {
  import opened Prelude
  import opened FieldElements
  import opened MerkleTree

  const DEFAULT_DEPTH: nat := 32
  const MAX_DEPTH: nat := 64

  datatype TreeError = DepthOutOfRange | NegativeLeafIndex | LeafIndexExceedsDepth

  datatype Leaf = Leaf(index: int, commitment: Hex64)

  datatype CredentialPath = CredentialPath(root: Hex64, path: Path)

  datatype Material = Material(root: Hex64, leafCount: nat, pathsByLeafIndex: map<nat, CredentialPath>)

  type Layer = map<nat, Hex64>

  function NormalizeMerkleDepth(value: Option<int>): Result<nat, TreeError> {
    var depth := if value.Some? then value.value else DEFAULT_DEPTH;
    if depth <= 0 || depth > MAX_DEPTH then Err(DepthOutOfRange) else Ok(depth)
  }

  function NormalizeLeafIndex(index: int, depth: nat): (r: Result<nat, TreeError>)
    ensures r.Ok? <==> 0 <= index < Pow2(depth)
    ensures r.Ok? ==> r.value == index
    ensures r == Err(NegativeLeafIndex) <==> index < 0
    ensures r == Err(LeafIndexExceedsDepth) <==> index >= Pow2(depth)
  {
    if index < 0 then Err(NegativeLeafIndex)
    else if index >= Pow2(depth) then Err(LeafIndexExceedsDepth)
    else Ok(index)
  }

  /** The first leaf, in list order, that the builder refuses. */
  function FirstLeafError(leaves: seq<Leaf>, depth: nat): Option<TreeError> {
    if leaves == [] then None
    else
      match NormalizeLeafIndex(leaves[0].index, depth)
      case Err(e) => Some(e)
      case Ok(_) => FirstLeafError(leaves[1..], depth)
  }

  predicate InRange(leaves: seq<Leaf>, depth: nat) {
    forall k :: 0 <= k < |leaves| ==> 0 <= leaves[k].index < Pow2(depth)
  }

  /** The leaves as a map; a later entry for an index replaces an earlier one. */
  function LeafMap(leaves: seq<Leaf>): Tree
    requires forall k :: 0 <= k < |leaves| ==> leaves[k].index >= 0
  {
    if leaves == [] then map[]
    else LeafMap(leaves[..|leaves| - 1])[leaves[|leaves| - 1].index := leaves[|leaves| - 1].commitment]
  }

  function LayerValue(layer: Layer, j: nat, zero: Hex64): Hex64 {
    if j in layer then layer[j] else zero
  }

  /** The sparse layer together with the level's zero hash is the level of the complete tree. */
  ghost predicate Represents(h: Poseidon2, t: Tree, layer: Layer, level: nat) {
    forall j: nat :: NodeMatches(h, t, layer, level, j)
  }

  ghost predicate NodeMatches(h: Poseidon2, t: Tree, layer: Layer, level: nat, j: nat) {
    LayerValue(layer, j, ZeroHash(h, level)) == NodeAt(h, t, level, j)
  }

  /** What the builder has to deliver, in terms of the complete tree. */
  function MaterialSpec(h: Poseidon2, leaves: seq<Leaf>, depth: Option<int>): Result<Material, TreeError> {
    match NormalizeMerkleDepth(depth)
    case Err(e) => Err(e)
    case Ok(d) =>
      match FirstLeafError(leaves, d)
      case Some(e) => Err(e)
      case None =>
        FirstLeafErrorIsExact(leaves, d);
        Ok(CompleteMaterial(h, leaves, d))
  }

  function CompleteMaterial(h: Poseidon2, leaves: seq<Leaf>, depth: nat): Material
    requires InRange(leaves, depth)
  {
    var t := LeafMap(leaves);
    var root := Root(h, t, depth);
    Material(root, |leaves|, AllPaths(h, t, t.Keys, root, depth))
  }

  function AllPaths(h: Poseidon2, t: Tree, indices: set<nat>, root: Hex64, depth: nat): map<nat, CredentialPath> {
    map i | i in indices :: CredentialPath(root, PathOf(h, t, i, depth))
  }

  lemma {:induction false} FirstLeafErrorIsExact(leaves: seq<Leaf>, depth: nat)
    ensures FirstLeafError(leaves, depth).None? <==> InRange(leaves, depth)
  {
    if leaves == [] {
    } else {
      FirstLeafErrorIsExact(leaves[1..], depth);
      if InRange(leaves[1..], depth) && 0 <= leaves[0].index < Pow2(depth) {
        assert forall k :: 0 < k < |leaves| ==> leaves[k] == leaves[1..][k - 1];
      }
      if InRange(leaves, depth) {
        assert leaves[0].index >= 0;
      }
    }
  }

  lemma {:induction false} LeafMapFacts(leaves: seq<Leaf>, depth: nat)
    requires InRange(leaves, depth)
    ensures forall i :: i in LeafMap(leaves) ==> i < Pow2(depth)
    ensures forall k :: 0 <= k < |leaves| ==> leaves[k].index in LeafMap(leaves)
    ensures |LeafMap(leaves)| <= |leaves|
  {
    if leaves == [] {
    } else {
      LeafMapFacts(leaves[..|leaves| - 1], depth);
    }
  }

  ghost predicate DistinctIndices(leaves: seq<Leaf>) {
    forall j, k :: 0 <= j < k < |leaves| ==> leaves[j].index != leaves[k].index
  }

  /** With distinct indices the map is just the set of leaves. */
  lemma {:induction false} LeafMapIsLeafSet(leaves: seq<Leaf>, i: nat, c: Hex64)
    requires forall k :: 0 <= k < |leaves| ==> leaves[k].index >= 0
    requires DistinctIndices(leaves)
    ensures (i in LeafMap(leaves) && LeafMap(leaves)[i] == c) <==> Leaf(i, c) in leaves
    ensures i in LeafMap(leaves) ==> Leaf(i, LeafMap(leaves)[i]) in leaves
  {
    if leaves == [] {
    } else {
      var init, last := leaves[..|leaves| - 1], leaves[|leaves| - 1];
      assert leaves == init + [last];
      LeafMapIsLeafSet(init, i, c);
      if Leaf(i, c) in init {
        var k :| 0 <= k < |init| && init[k] == Leaf(i, c);
        assert leaves[k].index != last.index;
      }
      assert Leaf(i, c) in leaves <==> Leaf(i, c) in init || last == Leaf(i, c);
    }
  }

  /** The order in which the leaves are listed does not matter. */
  lemma LeafOrderIsIrrelevant(h: Poseidon2, a: seq<Leaf>, b: seq<Leaf>, depth: nat)
    requires InRange(a, depth) && InRange(b, depth)
    requires DistinctIndices(a) && DistinctIndices(b)
    requires |a| == |b| && forall leaf :: leaf in a <==> leaf in b
    ensures CompleteMaterial(h, a, depth) == CompleteMaterial(h, b, depth)
  {
    forall i: nat
      ensures i in LeafMap(a) <==> i in LeafMap(b)
      ensures i in LeafMap(a) ==> LeafMap(a)[i] == LeafMap(b)[i]
    {
      if i in LeafMap(a) {
        LeafMapIsLeafSet(a, i, LeafMap(a)[i]);
        LeafMapIsLeafSet(b, i, LeafMap(a)[i]);
      }
      if i in LeafMap(b) {
        LeafMapIsLeafSet(b, i, LeafMap(b)[i]);
        LeafMapIsLeafSet(a, i, LeafMap(b)[i]);
      }
    }
    LeafMapFacts(a, depth);
    LeafMapFacts(b, depth);
    assert LeafMap(a) == LeafMap(b);
  }

  // ---------------------------------------------------------------- the builder

  method BuildZeroHashes(h: Poseidon2, depth: nat) returns (zeroHashes: seq<Hex64>, hashCalls: nat)
    ensures zeroHashes == ZeroHashes(h, depth)
    ensures hashCalls == depth
  {
    zeroHashes, hashCalls := [ZERO], 0;
    for level := 0 to depth
      invariant zeroHashes == ZeroHashes(h, level)
      invariant hashCalls == level
    {
      ZeroHashesAt(h, level, level);
      zeroHashes := zeroHashes + [Node(h, zeroHashes[level], zeroHashes[level])];
      hashCalls := hashCalls + 1;
    }
  }

  function ZeroHashes(h: Poseidon2, depth: nat): (zeroHashes: seq<Hex64>)
    ensures |zeroHashes| == depth + 1
  {
    if depth == 0 then [ZERO] else ZeroHashes(h, depth - 1) + [ZeroHash(h, depth)]
  }

  lemma {:induction false} ZeroHashesAt(h: Poseidon2, depth: nat, level: nat)
    requires level <= depth
    ensures ZeroHashes(h, depth)[level] == ZeroHash(h, level)
  {
    if level == depth {
    } else {
      ZeroHashesAt(h, depth - 1, level);
    }
  }

  lemma LeastElement(s: set<nat>) returns (least: nat)
    requires s != {}
    ensures least in s && forall y :: y in s ==> least <= y
  {
    least :| least in s;
    while exists y :: y in s && y < least
      invariant least in s
      decreases least
    {
      var previous := least;
      least :| least in s && least < previous;
    }
  }

  /** Array.from(current.keys()) in ascending order. */
  method SortedKeys(layer: Layer) returns (keys: seq<nat>)
    ensures |keys| == |layer|
    ensures Listed(keys) == layer.Keys
    ensures Ascending(keys)
  {
    keys := [];
    var remaining := layer.Keys;
    while remaining != {}
      invariant remaining <= layer.Keys
      invariant |keys| + |remaining| == |layer|
      invariant forall x :: x in layer ==> x in keys || x in remaining
      invariant forall x :: x in keys ==> x in layer
      invariant forall a :: 0 <= a < |keys| ==> Below(keys[a], remaining)
      invariant Ascending(keys)
      decreases |remaining|
    {
      ghost var least := LeastElement(remaining);
      var x :| x in remaining && forall y :: y in remaining ==> x <= y;
      keys := keys + [x];
      remaining := remaining - {x};
    }
  }

  ghost function Listed(keys: seq<nat>): set<nat> {
    set x | x in keys
  }

  ghost predicate Ascending(keys: seq<nat>) {
    forall a, b :: 0 <= a < b < |keys| ==> keys[a] < keys[b]
  }

  ghost predicate Below(x: nat, s: set<nat>) {
    forall y :: y in s ==> x < y
  }

  predicate PairKnown(layer: Layer, p: nat) {
    2 * p in layer || 2 * p + 1 in layer
  }

  function ParentValue(h: Poseidon2, layer: Layer, p: nat, zero: Hex64): Hex64 {
    Node(h, LayerValue(layer, 2 * p, zero), LayerValue(layer, 2 * p + 1, zero))
  }

  ghost predicate ParentsCorrect(h: Poseidon2, current: Layer, next: Layer, zero: Hex64) {
    forall p: nat :: p in next ==> PairKnown(current, p) && next[p] == ParentValue(h, current, p, zero)
  }

  ghost predicate IsParentLayer(h: Poseidon2, current: Layer, next: Layer, zero: Hex64) {
    && ParentsCorrect(h, current, next, zero)
    && (forall p: nat :: PairKnown(current, p) ==> p in next)
  }

  predicate HasParent(x: nat, next: Layer) {
    x / 2 in next
  }

  /** Hash a known node with its sibling, the smaller position on the left. */
  method HashPair(h: Poseidon2, current: Layer, index: nat, zero: Hex64) returns (parent: Hex64)
    requires index in current
    ensures PairKnown(current, index / 2)
    ensures parent == ParentValue(h, current, index / 2, zero)
  {
    var siblingIndex := Sibling(index);
    var isRight := index % 2 == 1;
    var ownValue := LayerValue(current, index, zero);
    var siblingValue := LayerValue(current, siblingIndex, zero);
    var left := if isRight then siblingValue else ownValue;
    var right := if isRight then ownValue else siblingValue;
    PairOfIndex(h, current, index, zero);
    parent := Node(h, left, right);
  }

  /** The parents of the listed positions. */
  function ParentLayer(h: Poseidon2, current: Layer, indices: seq<nat>, zero: Hex64): Layer {
    if indices == [] then map[]
    else
      var init, last := indices[..|indices| - 1], indices[|indices| - 1];
      ParentLayer(h, current, init, zero)[last / 2 := ParentValue(h, current, last / 2, zero)]
  }

  lemma {:induction false} ParentLayerFacts(h: Poseidon2, current: Layer, indices: seq<nat>, zero: Hex64)
    requires forall m :: 0 <= m < |indices| ==> PairKnown(current, indices[m] / 2)
    ensures ParentsCorrect(h, current, ParentLayer(h, current, indices, zero), zero)
    ensures forall m :: 0 <= m < |indices| ==> HasParent(indices[m], ParentLayer(h, current, indices, zero))
    ensures |ParentLayer(h, current, indices, zero)| <= |indices|
  {
    if indices == [] {
    } else {
      ParentLayerFacts(h, current, indices[..|indices| - 1], zero);
    }
  }

  /** What the loop knows after the first k positions. */
  ghost predicate PassedOver(h: Poseidon2, current: Layer, indices: seq<nat>, zero: Hex64, next: Layer,
      processed: set<nat>) {
    && next == ParentLayer(h, current, indices, zero)
    && (forall x :: x in processed ==> HasParent(x, next))
    && (forall m :: 0 <= m < |indices| ==> PairKnown(current, indices[m] / 2))
  }

  lemma PassOverProcessed(h: Poseidon2, current: Layer, indices: seq<nat>, zero: Hex64, next: Layer,
      processed: set<nat>, index: nat)
    requires PassedOver(h, current, indices, zero, next, processed)
    requires index in current && index in processed
    ensures PassedOver(h, current, indices + [index], zero, next, processed)
  {
    PairOfIndex(h, current, index, zero);
    ParentLayerFacts(h, current, indices, zero);
    assert HasParent(index, next);
    assert (indices + [index])[..|indices|] == indices;
    assert next[index / 2 := next[index / 2]] == next;
  }

  lemma PassOverNew(h: Poseidon2, current: Layer, indices: seq<nat>, zero: Hex64, next: Layer, processed: set<nat>,
      index: nat)
    requires PassedOver(h, current, indices, zero, next, processed)
    requires index in current
    ensures PassedOver(h, current, indices + [index], zero,
                       next[index / 2 := ParentValue(h, current, index / 2, zero)], processed + {index, Sibling(index)})
  {
    PairOfIndex(h, current, index, zero);
    ParentAdded(next, index, ParentValue(h, current, index / 2, zero));
    assert (indices + [index])[..|indices|] == indices;
  }

  /** One pass of the level loop: hash every pair that has a known member. */
  method HashPairs(h: Poseidon2, current: Layer, zero: Hex64) returns (next: Layer, hashCalls: nat)
    ensures IsParentLayer(h, current, next, zero)
    ensures |next| <= |current| && hashCalls <= |current|
  {
    next, hashCalls := map[], 0;
    var processed: set<nat> := {};
    var indices := SortedKeys(current);
    for k := 0 to |indices|
      invariant PassedOver(h, current, indices[..k], zero, next, processed)
      invariant hashCalls <= k
    {
      var index := indices[k];
      assert index in Listed(indices);
      assert indices[..k + 1] == indices[..k] + [index];
      if index in processed {
        PassOverProcessed(h, current, indices[..k], zero, next, processed, index);
        continue;
      }
      PassOverNew(h, current, indices[..k], zero, next, processed, index);
      var parent := HashPair(h, current, index, zero);
      next := next[index / 2 := parent];
      hashCalls := hashCalls + 1;
      processed := processed + {index, Sibling(index)};
    }
    assert indices[..|indices|] == indices;
    ParentLayerFacts(h, current, indices, zero);
    EveryPairHashed(current, next, indices);
  }

  lemma ParentAdded(next: Layer, index: nat, parent: Hex64)
    ensures var grown := next[index / 2 := parent];
      && HasParent(index, grown) && HasParent(Sibling(index), grown)
      && forall x :: HasParent(x, next) ==> HasParent(x, grown)
  {
  }

  lemma EveryPairHashed(current: Layer, next: Layer, indices: seq<nat>)
    requires Listed(indices) == current.Keys
    requires forall m :: 0 <= m < |indices| ==> HasParent(indices[m], next)
    ensures forall p: nat :: PairKnown(current, p) ==> p in next
  {
    forall p: nat | PairKnown(current, p)
      ensures p in next
    {
      var x := if 2 * p in current then 2 * p else 2 * p + 1;
      assert x in Listed(indices) && x / 2 == p;
    }
  }

  lemma PairOfIndex(h: Poseidon2, current: Layer, index: nat, zero: Hex64)
    requires index in current
    ensures PairKnown(current, index / 2)
    ensures var own, other := LayerValue(current, index, zero), LayerValue(current, Sibling(index), zero);
      ParentValue(h, current, index / 2, zero) == if index % 2 == 1 then Node(h, other, own) else Node(h, own, other)
  {
    if index % 2 == 1 {
      assert 2 * (index / 2) + 1 == index;
    } else {
      assert 2 * (index / 2) == index;
    }
  }

  lemma PairsRepresentParents(h: Poseidon2, t: Tree, current: Layer, next: Layer, level: nat)
    requires Represents(h, t, current, level)
    requires IsParentLayer(h, current, next, ZeroHash(h, level))
    ensures Represents(h, t, next, level + 1)
  {
    var up := level + 1;
    forall p: nat
      ensures NodeMatches(h, t, next, up, p)
    {
      PairRepresentsParent(h, t, current, next, level, p);
    }
  }

  lemma PairRepresentsParent(h: Poseidon2, t: Tree, current: Layer, next: Layer, level: nat, p: nat)
    requires Represents(h, t, current, level)
    requires IsParentLayer(h, current, next, ZeroHash(h, level))
    ensures NodeMatches(h, t, next, level + 1, p)
  {
    assert NodeMatches(h, t, current, level, 2 * p) && NodeMatches(h, t, current, level, 2 * p + 1);
    assert PairKnown(current, p) <==> p in next;
  }

  /** The first loop: check every index and place the commitments. */
  method PlaceLeaves(leaves: seq<Leaf>, depth: nat) returns (r: Result<Layer, TreeError>)
    ensures r.Ok? <==> InRange(leaves, depth)
    ensures r.Err? ==> FirstLeafError(leaves, depth) == Some(r.error)
    ensures r.Ok? ==> r.value == LeafMap(leaves)
  {
    var current: Layer := map[];
    for k := 0 to |leaves|
      invariant InRange(leaves[..k], depth)
      invariant current == LeafMap(leaves[..k])
      invariant FirstLeafError(leaves, depth) == FirstLeafError(leaves[k..], depth)
    {
      assert leaves[k..][0] == leaves[k] && leaves[k..][1..] == leaves[k + 1..];
      var leafIndex := NormalizeLeafIndex(leaves[k].index, depth);
      if leafIndex.Err? {
        return Err(leafIndex.error);
      }
      assert leaves[..k + 1][..k] == leaves[..k];
      current := current[leafIndex.value := leaves[k].commitment];
    }
    assert leaves[..|leaves|] == leaves;
    return Ok(current);
  }

  method BuildSparseMerkleLayers(h: Poseidon2, leaves: seq<Leaf>, depth: nat, zeroHashes: seq<Hex64>)
    returns (r: Result<seq<Layer>, TreeError>, hashCalls: nat)
    requires zeroHashes == ZeroHashes(h, depth)
    ensures r.Ok? <==> InRange(leaves, depth)
    ensures r.Err? ==> FirstLeafError(leaves, depth) == Some(r.error)
    ensures r.Ok? ==> RepresentsAll(h, LeafMap(leaves), r.value, depth)
    ensures hashCalls <= depth * |leaves|
  {
    hashCalls := 0;
    var placed := PlaceLeaves(leaves, depth);
    if placed.Err? {
      return Err(placed.error), 0;
    }
    LeafMapFacts(leaves, depth);
    var layers, calls := RaiseLayers(h, LeafMap(leaves), placed.value, depth, zeroHashes, |leaves|);
    return Ok(layers), calls;
  }

  lemma OneLevelMore(level: nat, size: nat)
    ensures (level + 1) * size == level * size + size
  {
  }

  /** The layers above a leaf layer, one level after the other. */
  method RaiseLayers(h: Poseidon2, ghost t: Tree, bottom: Layer, depth: nat, zeroHashes: seq<Hex64>, ghost size: nat)
    returns (layers: seq<Layer>, hashCalls: nat)
    requires zeroHashes == ZeroHashes(h, depth) && bottom == t && |bottom| <= size
    ensures RepresentsAll(h, t, layers, depth)
    ensures hashCalls <= depth * size
  {
    hashCalls := 0;
    var current := bottom;
    LeavesRepresentThemselves(h, t);
    layers := [current];
    for level := 0 to depth
      invariant RepresentsAll(h, t, layers, level) && layers[level] == current
      invariant |current| <= size && hashCalls <= level * size
    {
      ZeroHashesAt(h, depth, level);
      var next, calls := HashPairs(h, current, zeroHashes[level]);
      PairsRepresentParents(h, t, current, next, level);
      current := next;
      layers := layers + [current];
      OneLevelMore(level, size);
      hashCalls := hashCalls + calls;
    }
  }

  ghost predicate RepresentsAll(h: Poseidon2, t: Tree, layers: seq<Layer>, depth: nat) {
    && |layers| == depth + 1
    && forall l :: 0 <= l <= depth ==> Represents(h, t, layers[l], l)
  }

  lemma LeavesRepresentThemselves(h: Poseidon2, t: Tree)
    ensures Represents(h, t, t, 0)
  {
    forall j: nat
      ensures NodeMatches(h, t, t, 0, j)
    {
    }
  }

  lemma LookUpNode(h: Poseidon2, t: Tree, layers: seq<Layer>, depth: nat, level: nat, j: nat)
    requires RepresentsAll(h, t, layers, depth) && level <= depth
    ensures LayerValue(layers[level], j, ZeroHashes(h, depth)[level]) == NodeAt(h, t, level, j)
  {
    ZeroHashesAt(h, depth, level);
    assert Represents(h, t, layers[level], level);
    assert NodeMatches(h, t, layers[level], level, j);
  }

  lemma PathStep(h: Poseidon2, t: Tree, leafIndex: nat, level: nat)
    ensures var cursor := Ancestor(leafIndex, level);
      && Ancestor(leafIndex, level + 1) == cursor / 2
      && PathSiblings(h, t, leafIndex, level + 1) == PathSiblings(h, t, leafIndex, level)
          + [NodeAt(h, t, level, Sibling(cursor))]
      && PathBits(leafIndex, level + 1) == PathBits(leafIndex, level) + [if cursor % 2 == 1 then 1 else 0]
  {
  }

  method ExtractPath(h: Poseidon2, ghost t: Tree, layers: seq<Layer>, zeroHashes: seq<Hex64>, leafIndex: nat,
      depth: nat)
    returns (path: Path)
    requires zeroHashes == ZeroHashes(h, depth)
    requires RepresentsAll(h, t, layers, depth)
    ensures path == PathOf(h, t, leafIndex, depth)
  {
    var siblings: seq<Hex64> := [];
    var pathIndices: seq<nat> := [];
    var cursor := leafIndex;
    for level := 0 to depth
      invariant cursor == Ancestor(leafIndex, level)
      invariant siblings == PathSiblings(h, t, leafIndex, level)
      invariant pathIndices == PathBits(leafIndex, level)
    {
      var siblingIndex := Sibling(cursor);
      LookUpNode(h, t, layers, depth, level, siblingIndex);
      PathStep(h, t, leafIndex, level);
      siblings := siblings + [LayerValue(layers[level], siblingIndex, zeroHashes[level])];
      pathIndices := pathIndices + [if cursor % 2 == 1 then 1 else 0];
      cursor := cursor / 2;
    }
    path := Path(siblings, pathIndices);
  }

  method ExtractPaths(h: Poseidon2, leaves: seq<Leaf>, layers: seq<Layer>, zeroHashes: seq<Hex64>, root: Hex64,
      depth: nat)
    returns (paths: map<nat, CredentialPath>)
    requires InRange(leaves, depth)
    requires zeroHashes == ZeroHashes(h, depth)
    requires RepresentsAll(h, LeafMap(leaves), layers, depth)
    ensures paths == AllPaths(h, LeafMap(leaves), LeafMap(leaves).Keys, root, depth)
  {
    ghost var t := LeafMap(leaves);
    paths := map[];
    for k := 0 to |leaves|
      invariant paths == AllPaths(h, t, LeafMap(leaves[..k]).Keys, root, depth)
    {
      var leafIndex := leaves[k].index;
      var path := ExtractPath(h, t, layers, zeroHashes, leafIndex, depth);
      paths := paths[leafIndex := CredentialPath(root, path)];
      assert leaves[..k + 1][..k] == leaves[..k];
    }
    assert leaves[..|leaves|] == leaves;
  }

  method BuildCredentialRegistryMerkleMaterial(h: Poseidon2, leaves: seq<Leaf>, depth: Option<int>)
    returns (r: Result<Material, TreeError>, hashCalls: nat)
    ensures r == MaterialSpec(h, leaves, depth)
    ensures r.Ok? ==> hashCalls <= NormalizeMerkleDepth(depth).value * (|leaves| + 1)
  {
    hashCalls := 0;
    var normalized := NormalizeMerkleDepth(depth);
    if normalized.Err? {
      return Err(normalized.error), 0;
    }
    var d := normalized.value;
    var zeroHashes, zeroCalls := BuildZeroHashes(h, d);
    var built, layerCalls := BuildSparseMerkleLayers(h, leaves, d, zeroHashes);
    hashCalls := zeroCalls + layerCalls;
    assert d * (|leaves| + 1) == d * |leaves| + d;
    FirstLeafErrorIsExact(leaves, d);
    if built.Err? {
      return Err(built.error), hashCalls;
    }
    var layers := built.value;
    LookUpNode(h, LeafMap(leaves), layers, d, d, 0);
    var root := LayerValue(layers[d], 0, zeroHashes[d]);
    var paths := ExtractPaths(h, leaves, layers, zeroHashes, root, d);
    r := Ok(Material(root, |leaves|, paths));
  }

  /** The published contract of the builder: the root is that of the complete zero-padded row of
      2^depth leaves, and every listed leaf has a path of `depth` siblings that folds to it and
      whose bits spell its index. */
  lemma MaterialIsComplete(h: Poseidon2, leaves: seq<Leaf>, depth: nat, k: nat)
    requires InRange(leaves, depth) && k < |leaves|
    ensures var m := CompleteMaterial(h, leaves, depth);
      && m.root == CompleteRoot(h, PaddedRow(LeafMap(leaves), 0, Pow2(depth)), depth)
      && leaves[k].index in m.pathsByLeafIndex
      && var p := m.pathsByLeafIndex[leaves[k].index];
         && p.root == m.root
         && |p.path.siblings| == |p.path.pathIndices| == depth
         && Fold(h, LeafMap(leaves)[leaves[k].index], p.path.siblings, p.path.pathIndices) == m.root
         && IndexValue(p.path.pathIndices) == leaves[k].index
  {
    var t, i := LeafMap(leaves), leaves[k].index;
    LeafMapFacts(leaves, depth);
    RootIsCompleteRoot(h, t, depth);
    PathFoldsToRoot(h, t, i, depth);
    PathBitsSpellIndex(i, depth);
  }
}
