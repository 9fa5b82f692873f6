/**
 Merkle trees: layer-by-layer construction, proofs and in-place insertion
 (mod/primitives/pkg/merkle/tree.go, root.go, utils.go).

 The reference is the "Merkleization" section of the SSZ specification: a perfect
 binary tree whose missing leaves are zero chunks, here the function `Node`.
 */
module MerkleTree {
  import opened Bytes
  import opened MerkleBranch

  const MAX_TREE_DEPTH: nat := 62
  const MIN_PARALLELIZATION_SIZE: nat := 5000

  datatype TreeError =
    | EmptyLeaves | ZeroDepth | ExceededDepth | InsufficientDepthForLeaves
    | OddLengthTreeRoots | IndexOutOfRange | NegativeIndex

  /** Root of an all-zero subtree of height `d`. */
  function ZeroHash(h: HashFn, d: nat): Chunk {
    if d == 0 then ZERO_CHUNK else h(ZeroHash(h, d - 1), ZeroHash(h, d - 1))
  }

  /** Node `j` at height `d` of the zero-padded tree over `leaves`. */
  function Node(h: HashFn, leaves: seq<Chunk>, d: nat, j: nat): Chunk {
    if d == 0 then (if j < |leaves| then leaves[j] else ZERO_CHUNK)
    else h(Node(h, leaves, d - 1, 2 * j), Node(h, leaves, d - 1, 2 * j + 1))
  }

  /** The root of the zero-padded tree of height `depth`. */
  function TreeRoot(h: HashFn, leaves: seq<Chunk>, depth: nat): Chunk {
    Node(h, leaves, depth, 0)
  }

  /** Number of nodes at height `d` that cover at least one of `n` leaves. */
  function LayerLength(n: nat, d: nat): nat {
    if d == 0 then n else (LayerLength(n, d - 1) + 1) / 2
  }

  ghost predicate IsLayer(h: HashFn, leaves: seq<Chunk>, d: nat, layer: seq<Chunk>) {
    && |layer| == LayerLength(|leaves|, d)
    && forall j :: 0 <= j < |layer| ==> layer[j] == Node(h, leaves, d, j)
  }

  lemma {:induction false} PaddingIsZeroHash(h: HashFn, leaves: seq<Chunk>, d: nat, j: nat)
    requires LayerLength(|leaves|, d) <= j
    ensures Node(h, leaves, d, j) == ZeroHash(h, d)
  {
    if d == 0 {
    } else {
      PaddingIsZeroHash(h, leaves, d - 1, 2 * j);
      PaddingIsZeroHash(h, leaves, d - 1, 2 * j + 1);
    }
  }

  /** A layer reaches up to the node above the last leaf. */
  lemma {:induction false} LayerLengthClosed(n: nat, d: nat)
    requires 0 < n
    ensures LayerLength(n, d) == Shift(n - 1, d) + 1
  {
    if d == 0 {
    } else {
      LayerLengthClosed(n, d - 1);
      ShiftStep(n - 1, d - 1);
    }
  }

  /** A tree of height `depth` narrows to one node exactly when its leaves fit. */
  lemma {:induction false} TopLayerIsRoot(n: nat, depth: nat)
    requires 0 < n
    ensures LayerLength(n, depth) == 1 <==> n <= Pow2(depth)
    ensures 1 <= LayerLength(n, depth)
  {
    LayerLengthClosed(n, depth);
    ShiftIsZero(n - 1, depth);
  }

  // ------------------------------------------------------------ hashing one layer

  lemma {:induction false} DivNonNegative(x: nat, d: nat)
    requires 0 < d
    ensures 0 <= x / d
  {
  }

  function GroupSize(inputLength: nat, n: nat): nat {
    var routines: nat := Max(n, 1);
    DivNonNegative(inputLength, 2 * routines);
    inputLength / (2 * routines)
  }

  /** The output slots that the segments of the parallel hashing loop reach. */
  function CoveredOutputs(inputLength: nat, n: nat): int {
    if inputLength < MIN_PARALLELIZATION_SIZE then inputLength / 2
    else Min((n + 1) * GroupSize(inputLength, n), inputLength / 2)
  }

  predicate HashesWholeLayer(inputLength: nat, n: nat) {
    CoveredOutputs(inputLength, n) == inputLength / 2
  }

  /** gohashtree.Hash on one segment: each output is the hash of its pair of inputs. */
  method HashSegment(h: HashFn, output: array<Chunk>, input: seq<Chunk>, from: nat, to: nat)
    requires from <= to <= output.Length && 2 * output.Length <= |input|
    modifies output
    ensures forall i :: from <= i < to ==> output[i] == h(input[2 * i], input[2 * i + 1])
    ensures forall i :: 0 <= i < output.Length && !(from <= i < to) ==> output[i] == old(output[i])
  {
    for i := from to to
      invariant forall j :: from <= j < i ==> output[j] == h(input[2 * j], input[2 * j + 1])
      invariant forall j :: 0 <= j < output.Length && !(from <= j < i) ==> output[j] == old(output[j])
    {
      output[i] := h(input[2 * i], input[2 * i + 1]);
    }
  }

  /**
   BuildParentTreeRootsWithNRoutines. The goroutines write disjoint segments, so
   their order does not matter and they are run in turn. Slots beyond the last
   segment keep the zero value they were allocated with.
   */
  method BuildParentTreeRoots(h: HashFn, inputList: seq<Chunk>, n: nat) returns (r: Result<seq<Chunk>, TreeError>)
    ensures |inputList| % 2 != 0 <==> r == Err(OddLengthTreeRoots)
    ensures r.Ok? <==> |inputList| % 2 == 0
    ensures r.Ok? ==>
      && |r.value| == |inputList| / 2
      && forall i :: 0 <= i < |r.value| ==>
           r.value[i] == if i < CoveredOutputs(|inputList|, n) then h(inputList[2 * i], inputList[2 * i + 1])
                         else ZERO_CHUNK
    ensures r.Ok? && |inputList| < 5000 ==>
      forall i :: 0 <= i < |r.value| ==> r.value[i] == h(inputList[2 * i], inputList[2 * i + 1])
  {
    var inputLength := |inputList|;
    if inputLength % 2 != 0 {
      return Err(OddLengthTreeRoots);
    }
    var outputLength := inputLength / 2;
    var outputList := new Chunk[outputLength](_ => ZERO_CHUNK);
    if inputLength < MIN_PARALLELIZATION_SIZE {
      HashSegment(h, outputList, inputList, 0, outputLength);
      return Ok(outputList[..]);
    }
    var groupSize := GroupSize(inputLength, n);
    var start := 0;
    for j := 0 to n + 1
      invariant start == j * groupSize
      invariant forall i :: 0 <= i < outputLength ==>
        outputList[i] == if i < start then h(inputList[2 * i], inputList[2 * i + 1]) else ZERO_CHUNK
    {
      SegmentStartsInside(inputLength, n, j);
      assert (j + 1) * groupSize == start + groupSize;
      HashSegment(h, outputList, inputList, start, Min(start + groupSize, outputLength));
      start := start + groupSize;
    }
    r := Ok(outputList[..]);
  }

  lemma {:induction false} SegmentStartsInside(inputLength: nat, n: nat, j: nat)
    requires j <= n
    ensures j * GroupSize(inputLength, n) <= inputLength / 2
  {
    var g := GroupSize(inputLength, n);
    if n > 0 {
      assert g * (2 * n) <= inputLength;
      assert g * (2 * n) == 2 * (n * g);
      MulMonotone(j, n, g);
    }
  }

  /**
   Parallel hashing computes every parent of every even layer exactly when it is
   given at most 50 routines besides the calling one.
   */
  lemma {:induction false} ParallelHashingIsComplete(n: nat)
    ensures (forall inputLength: nat :: inputLength % 2 == 0 ==> HashesWholeLayer(inputLength, n)) <==> n <= 50
  {
    if n <= 50 {
      forall inputLength: nat | inputLength % 2 == 0
        ensures HashesWholeLayer(inputLength, n)
      {
        if MIN_PARALLELIZATION_SIZE <= inputLength {
          FewRoutinesCover(inputLength, n);
        }
      }
    } else {
      ManyRoutinesLeaveGap(n);
    }
  }

  lemma {:induction false} FewRoutinesCover(inputLength: nat, n: nat)
    requires n <= 50 && inputLength % 2 == 0 && MIN_PARALLELIZATION_SIZE <= inputLength
    ensures HashesWholeLayer(inputLength, n)
  {
    var half, m := inputLength / 2, Max(n, 1);
    var g, r := half / m, half % m;
    DivDiv(inputLength, 2, m);
    assert half == g * m + r;
    assert 50 <= g by {
      if g <= 49 {
        ProductBound(g, m);
      }
    }
    assert (n + 1) * g == n * g + g;
  }

  lemma {:induction false} ProductBound(g: nat, m: nat)
    requires g <= 49 && m <= 50
    ensures g * m <= 2450
  {
    MulMonotone(g, 49, m);
  }

  lemma {:induction false} ManyRoutinesLeaveGap(n: nat)
    requires 50 < n
    ensures exists inputLength: nat :: inputLength % 2 == 0 && !HashesWholeLayer(inputLength, n)
  {
    var half := (n - 2) * n + (n - 1);
    MulMonotone(49, n - 2, n);
    DivUnique(half, n, n - 2, n - 1);
    DivDiv(2 * half, 2, n);
    assert (n + 1) * (n - 2) == n * (n - 2) + (n - 2);
    assert !HashesWholeLayer(2 * half, n);
  }

  /** Length of layer `d` once it has been padded to an even length. */
  function EvenLayerLength(leaves: nat, d: nat): nat {
    LayerLength(leaves, d + 1) * 2
  }

  /** Every layer of a tree over `leaves` leaves is hashed in full by `n` routines. */
  predicate HashesWholeTree(leaves: nat, depth: nat, n: nat) {
    forall d :: 0 <= d < depth ==> HashesWholeLayer(EvenLayerLength(leaves, d), n)
  }

  lemma {:induction false} LayerLengthShrinks(leaves: nat, d: nat)
    ensures LayerLength(leaves, d) <= leaves
  {
    if d > 0 {
      LayerLengthShrinks(leaves, d - 1);
    }
  }

  /** Trees too small for the parallel path, and hosts with few routines, are always hashed in full. */
  lemma {:induction false} SmallTreesAreHashed(leaves: nat, depth: nat, n: nat)
    requires leaves + 1 < MIN_PARALLELIZATION_SIZE || n <= 50
    ensures HashesWholeTree(leaves, depth, n)
  {
    forall d | 0 <= d < depth
      ensures HashesWholeLayer(EvenLayerLength(leaves, d), n)
    {
      LayerLengthShrinks(leaves, d);
      var size := EvenLayerLength(leaves, d);
      if MIN_PARALLELIZATION_SIZE <= size {
        FewRoutinesCover(size, n);
      }
    }
  }

  /** One round of the layer loop: pad an odd layer with the zero hash, then hash the pairs. */
  method NextLayer(h: HashFn, layer: seq<Chunk>, d: nat, n: nat, ghost leaves: seq<Chunk>)
    returns (next: seq<Chunk>)
    requires |layer| == LayerLength(|leaves|, d)
    ensures |next| == LayerLength(|leaves|, d + 1)
    ensures IsLayer(h, leaves, d, layer) && HashesWholeLayer(EvenLayerLength(|leaves|, d), n) ==> IsLayer(h, leaves, d + 1, next)
  {
    var current := layer;
    if |current| % 2 == 1 {
      current := current + [ZeroHash(h, d)];
      PaddingIsZeroHash(h, leaves, d, |layer|);
    }
    var r := BuildParentTreeRoots(h, current, n);
    next := r.value;
  }

  function VerifySufficientDepth(numLeaves: nat, depth: nat): (failure: Option<TreeError>)
    ensures failure == None <==> 0 < numLeaves <= Pow2(depth) && 1 <= depth <= 62
    ensures numLeaves == 0 ==> failure == Some(EmptyLeaves)
    ensures 0 < numLeaves && 1 <= depth <= 62 && Pow2(depth) < numLeaves ==> failure == Some(InsufficientDepthForLeaves)
  {
    if numLeaves == 0 then Some(EmptyLeaves)
    else if depth == 0 then Some(ZeroDepth)
    else if depth > MAX_TREE_DEPTH then Some(ExceededDepth)
    else if numLeaves > Pow2(depth) then Some(InsufficientDepthForLeaves)
    else None
  }

  /** NewRootWithDepth: the second, tree-free way the code computes a root. */
  method NewRootWithDepth(h: HashFn, leaves: seq<Chunk>, depth: nat, n: nat) returns (root: Chunk)
    ensures HashesWholeTree(|leaves|, depth, n) ==>
      root == if |leaves| <= Pow2(depth) then TreeRoot(h, leaves, depth) else ZeroHash(h, depth)
  {
    if |leaves| == 0 {
      LayerLengthShrinks(0, depth);
      PaddingIsZeroHash(h, leaves, depth, 0);
      return ZeroHash(h, depth);
    }
    var layer := leaves;
    for i := 0 to depth
      invariant |layer| == LayerLength(|leaves|, i)
      invariant HashesWholeTree(|leaves|, depth, n) ==> IsLayer(h, leaves, i, layer)
    {
      layer := NextLayer(h, layer, i, n, leaves);
    }
    TopLayerIsRoot(|leaves|, depth);
    root := if |layer| != 1 then ZeroHash(h, depth) else layer[0];
  }

  // ------------------------------------------------------------ proofs

  /** x ^ 1 */
  function Sibling(x: nat): nat {
    if x % 2 == 0 then x + 1 else x - 1
  }

  /** The siblings met when climbing `depth` levels from node `x` at height `from`. */
  function TreeBranch(h: HashFn, leaves: seq<Chunk>, from: nat, depth: nat, x: nat): (b: seq<Chunk>)
    ensures |b| == depth
    decreases depth
  {
    if depth == 0 then []
    else [Node(h, leaves, from, Sibling(x))] + TreeBranch(h, leaves, from + 1, depth - 1, x / 2)
  }

  lemma {:induction false} TreeBranchAt(h: HashFn, leaves: seq<Chunk>, from: nat, depth: nat, x: nat, i: nat)
    requires i < depth
    ensures TreeBranch(h, leaves, from, depth, x)[i] == Node(h, leaves, from + i, Sibling(Shift(x, i)))
    decreases depth
  {
    if i == 0 {
    } else {
      TreeBranchAt(h, leaves, from + 1, depth - 1, x / 2, i - 1);
      ShiftStep(x, i - 1);
    }
  }

  lemma {:induction false} JoinIsParent(h: HashFn, leaves: seq<Chunk>, d: nat, x: nat)
    ensures Join(h, Node(h, leaves, d, x), Node(h, leaves, d, Sibling(x)), x) == Node(h, leaves, d + 1, x / 2)
  {
    if x % 2 == 0 {
      assert x == 2 * (x / 2);
    } else {
      assert x == 2 * (x / 2) + 1;
    }
  }

  /** Climbing the siblings of a node reaches its ancestor. */
  lemma {:induction false} TreeBranchClimbs(h: HashFn, leaves: seq<Chunk>, from: nat, depth: nat, x: nat)
    ensures BranchRoot(h, Node(h, leaves, from, x), TreeBranch(h, leaves, from, depth, x), x)
         == Node(h, leaves, from + depth, Shift(x, depth))
    decreases depth
  {
    if depth == 0 {
    } else {
      TreeBranchClimbs(h, leaves, from + 1, depth - 1, x / 2);
      ShiftStep(x, depth - 1);
      var b := TreeBranch(h, leaves, from, depth, x);
      assert b[1..] == TreeBranch(h, leaves, from + 1, depth - 1, x / 2);
      JoinIsParent(h, leaves, from, x);
    }
  }

  function LengthChunk(n: nat): Chunk {
    LittleEndian(n, 8) + Zeros(24)
  }

  /** A chunk that is a number: eight bytes, least significant first, and zeros. */
  ghost predicate IsLength(c: Chunk, n: nat) {
    && (forall i :: 0 <= i < 8 ==> c[i] == n / Pow256(i) % 256)
    && (forall i :: 8 <= i < 32 ==> c[i] == 0)
  }

  lemma {:induction false} LengthChunkIsLength(n: nat)
    ensures IsLength(LengthChunk(n), n)
    ensures forall c: Chunk :: IsLength(c, n) ==> c == LengthChunk(n)
  {
    forall i | 0 <= i < 8
      ensures LengthChunk(n)[i] == n / Pow256(i) % 256
    {
      LittleEndianDigit(n, 8, i);
    }
  }

  /** SSZ list root: the root of the elements mixed with the length. */
  function MixinLength(h: HashFn, root: Chunk, length: nat): Chunk {
    h(root, LengthChunk(length))
  }

  /** Replacing or appending one leaf changes only that leaf's ancestors. */
  lemma {:induction false} NodeAfterUpdate(h: HashFn, before: seq<Chunk>, after: seq<Chunk>, index: nat, d: nat, j: nat)
    requires index < |after| && |before| <= |after| <= |before| + 1
    requires |before| < |after| ==> index == |before|
    requires forall i :: 0 <= i < |before| && i != index ==> after[i] == before[i]
    requires j != Shift(index, d)
    ensures Node(h, after, d, j) == Node(h, before, d, j)
  {
    if d == 0 {
    } else {
      ShiftStep(index, d - 1);
      NodeAfterUpdate(h, before, after, index, d - 1, 2 * j);
      NodeAfterUpdate(h, before, after, index, d - 1, 2 * j + 1);
    }
  }

  ghost predicate IsUpdate(before: seq<Chunk>, after: seq<Chunk>, index: nat, item: Chunk) {
    && 0 < |before|
    && index <= |before|
    && after == if index < |before| then before[index := item] else before + [item]
  }

  /** The updated layer is as long as the layer of the updated leaves. */
  lemma {:induction false} UpdatedLayerLength(n: nat, index: nat, d: nat)
    requires 0 < n && index <= n
    ensures Shift(index, d) <= LayerLength(n, d)
    ensures LayerLength(if index < n then n else n + 1, d)
         == if Shift(index, d) < LayerLength(n, d) then LayerLength(n, d) else LayerLength(n, d) + 1
  {
    LayerLengthClosed(n, d);
    LayerLengthClosed(n + 1, d);
    if index < n {
      ShiftMonotone(index, n - 1, d);
    } else {
      ShiftMonotone(n - 1, n, d);
      ShiftOfSuccessor(n - 1, d);
    }
  }

  /** What Insert does to one layer: overwrite the ancestor `p` of the new leaf, or append it. */
  lemma {:induction false} UpdatedLayer(
    h: HashFn, before: seq<Chunk>, after: seq<Chunk>, index: nat, item: Chunk, d: nat, p: nat, layer: seq<Chunk>)
    requires IsUpdate(before, after, index, item) && IsLayer(h, before, d, layer) && p == Shift(index, d)
    ensures p <= |layer|
    ensures p < |layer| ==> IsLayer(h, after, d, layer[p := Node(h, after, d, p)])
    ensures p == |layer| ==> IsLayer(h, after, d, layer + [Node(h, after, d, p)])
  {
    UpdatedLayerLength(|before|, index, d);
    forall j | 0 <= j < |layer| && j != p
      ensures layer[j] == Node(h, after, d, j)
    {
      NodeAfterUpdate(h, before, after, index, d, j);
    }
  }

  /** One level of Insert: hash the changed node with its neighbour and store the parent. */
  method Raise(h: HashFn, here: seq<Chunk>, above: seq<Chunk>, i: nat, currentIndex: nat, node: Chunk)
    returns (parentIdx: nat, root: Chunk, updated: seq<Chunk>)
    ensures parentIdx == currentIndex / 2
    ensures forall before, after, index: nat, item ::
      IsUpdate(before, after, index, item) && currentIndex == Shift(index, i)
      && IsLayer(h, after, i, here) && node == Node(h, after, i, currentIndex) && IsLayer(h, before, i + 1, above)
      ==> root == Node(h, after, i + 1, parentIdx) && IsLayer(h, after, i + 1, updated)
  {
    var neighborIdx := Sibling(currentIndex);
    var neighbor := if neighborIdx >= |here| then ZeroHash(h, i) else here[neighborIdx];
    root := if currentIndex % 2 == 0 then h(node, neighbor) else h(neighbor, node);
    parentIdx := currentIndex / 2;
    if parentIdx >= |above| {
      updated := above + [root];
    } else {
      updated := above[parentIdx := root];
    }
    forall before, after, index: nat, item |
      IsUpdate(before, after, index, item) && currentIndex == Shift(index, i)
      && IsLayer(h, after, i, here) && node == Node(h, after, i, currentIndex) && IsLayer(h, before, i + 1, above)
      ensures root == Node(h, after, i + 1, parentIdx) && IsLayer(h, after, i + 1, updated)
    {
      if neighborIdx >= |here| {
        PaddingIsZeroHash(h, after, i, neighborIdx);
      }
      JoinIsParent(h, after, i, currentIndex);
      ShiftStep(index, i);
      UpdatedLayer(h, before, after, index, item, i + 1, parentIdx, above);
    }
  }

  /** Write a leaf, first extending the bottom layer with zero chunks until it has that index. */
  method PlaceLeaf(layer: seq<Chunk>, item: Chunk, index: nat) returns (r: seq<Chunk>)
    ensures |r| == Max(|layer|, index + 1) && r[index] == item
    ensures forall j :: 0 <= j < |layer| && j != index ==> r[j] == layer[j]
  {
    r := layer;
    while index >= |r|
      invariant |layer| <= |r| <= Max(|layer|, index + 1)
      invariant forall j :: 0 <= j < |layer| ==> r[j] == layer[j]
    {
      r := r + [ZERO_CHUNK];
    }
    r := r[index := item];
  }

  /** Layers up to `i` already cover the new leaves, the ones above still the old. */
  ghost predicate PartlyUpdated(h: HashFn, before: seq<Chunk>, after: seq<Chunk>, i: nat, layers: seq<seq<Chunk>>) {
    forall d :: 0 <= d < |layers| ==> IsLayer(h, if d <= i then after else before, d, layers[d])
  }

  /** The loop of Insert that rewrites one node in every layer above the changed leaf. */
  method UpdateAncestors(h: HashFn, depth: nat, layers: seq<seq<Chunk>>,
                         ghost before: seq<Chunk>, ghost after: seq<Chunk>, index: nat, item: Chunk)
    returns (updated: seq<seq<Chunk>>)
    requires |layers| == depth + 1
    ensures |updated| == depth + 1 && updated[0] == layers[0]
    ensures IsUpdate(before, after, index, item) && PartlyUpdated(h, before, after, 0, layers) ==>
              AreLayers(h, after, updated)
  {
    updated := layers;
    var currentIndex: nat, root: Chunk := index, item;
    ghost var inOrder := IsUpdate(before, after, index, item) && PartlyUpdated(h, before, after, 0, layers);
    for i := 0 to depth
      invariant |updated| == depth + 1 && updated[0] == layers[0]
      invariant currentIndex == Shift(index, i)
      invariant inOrder ==> root == Node(h, after, i, currentIndex) && PartlyUpdated(h, before, after, i, updated)
    {
      assert inOrder ==> IsLayer(h, after, i, updated[i]) && IsLayer(h, before, i + 1, updated[i + 1]);
      ShiftStep(index, i);
      var above;
      currentIndex, root, above := Raise(h, updated[i], updated[i + 1], i, currentIndex, root);
      updated := updated[i + 1 := above];
    }
  }

  class Tree {
    const h: HashFn
    const depth: nat
    var branches: seq<seq<Chunk>>
    var leaves: seq<Chunk>

    constructor (h: HashFn, depth: nat, branches: seq<seq<Chunk>>, leaves: seq<Chunk>)
      ensures this.h == h && this.depth == depth && this.branches == branches && this.leaves == leaves
    {
      this.h, this.depth, this.branches, this.leaves := h, depth, branches, leaves;
    }

    /** Every stored layer is the corresponding layer of the zero-padded tree over `leaves`. */
    ghost predicate Valid()
      reads this
    {
      && 0 < |leaves| <= Pow2(depth)
      && |branches| == depth + 1
      && forall d :: 0 <= d <= depth ==> IsLayer(h, leaves, d, branches[d])
    }

    /** Every stored layer has the length its leaves call for, whatever was hashed into it. */
    ghost predicate Shaped()
      reads this
    {
      && 0 < |leaves| <= Pow2(depth)
      && |branches| == depth + 1
      && forall d :: 0 <= d <= depth ==> |branches[d]| == LayerLength(|leaves|, d)
    }

    method Root() returns (root: Chunk)
      requires Valid()
      ensures root == TreeRoot(h, leaves, depth)
    {
      TopLayerIsRoot(|leaves|, depth);
      assert IsLayer(h, leaves, depth, branches[depth]);
      root := branches[|branches| - 1][0];
    }

    /** Root with the number of leaves mixed in; a single zero leaf counts as none. */
    method HashTreeRoot() returns (root: Chunk)
      requires Valid()
      ensures root == MixinLength(h, TreeRoot(h, leaves, depth), if leaves == [ZERO_CHUNK] then 0 else |leaves|)
      ensures forall c: Chunk :: IsLength(c, if leaves == [ZERO_CHUNK] then 0 else |leaves|) ==>
        root == h(TreeRoot(h, leaves, depth), c)
    {
      var numItems := |leaves|;
      if |leaves| == 1 && leaves[0] == ZERO_CHUNK {
        numItems := 0;
      }
      var top := Root();
      LengthChunkIsLength(numItems);
      root := MixinLength(h, top, numItems);
    }

    method MerkleProof(leafIndex: U64) returns (r: Result<seq<Chunk>, TreeError>)
      requires Shaped()
      ensures r == Err(IndexOutOfRange) <==> |leaves| <= leafIndex
      ensures r.Ok? <==> leafIndex < |leaves|
      ensures r.Ok? && Valid() ==> r.value == TreeBranch(h, leaves, 0, depth, leafIndex)
    {
      assert |branches[0]| == LayerLength(|leaves|, 0);
      if leafIndex >= |branches[0]| {
        return Err(IndexOutOfRange);
      }
      var proof: seq<Chunk> := [];
      for i := 0 to depth
        invariant |proof| == i
        invariant Valid() ==> forall k :: 0 <= k < i ==> proof[k] == TreeBranch(h, leaves, 0, depth, leafIndex)[k]
      {
        var subIndex := Sibling(Shift(leafIndex, i));
        assert Valid() ==> IsLayer(h, leaves, i, branches[i]);
        assert |branches[i]| == LayerLength(|leaves|, i);
        TreeBranchAt(h, leaves, 0, depth, leafIndex, i);
        if subIndex < |branches[i]| {
          proof := proof + [branches[i][subIndex]];
        } else {
          PaddingIsZeroHash(h, leaves, i, subIndex);
          proof := proof + [ZeroHash(h, i)];
        }
      }
      assert Valid() ==> proof == TreeBranch(h, leaves, 0, depth, leafIndex);
      r := Ok(proof);
    }

    method MerkleProofWithMixin(index: U64) returns (r: Result<seq<Chunk>, TreeError>)
      requires Shaped()
      ensures r == Err(IndexOutOfRange) <==> |leaves| <= index
      ensures r.Ok? <==> index < |leaves|
      ensures r.Ok? && Valid() ==> r.value == TreeBranch(h, leaves, 0, depth, index) + [LengthChunk(|leaves|)]
      ensures r.Ok? ==> r.value != [] && IsLength(r.value[|r.value| - 1], |leaves|)
    {
      r := MerkleProof(index);
      LengthChunkIsLength(|leaves|);
      if r.Ok? {
        r := Ok(r.value + [LengthChunk(|leaves|)]);
      }
    }

    /**
     Insert rewrites one leaf, or appends one, and then every node above it. It
     bounds the index neither by the capacity nor by the next free leaf: the tree
     stays the tree of its leaves exactly when the caller replaces a leaf, or
     appends the next one while there is room.
     */
    method Insert(item: Chunk, index: int) returns (failure: Option<TreeError>)
      requires Valid()
      modifies this
      ensures failure == if index < 0 then Some(NegativeIndex) else None
      ensures index < 0 ==> leaves == old(leaves) && branches == old(branches)
      ensures 0 <= index ==>
        leaves == if index < |old(leaves)| then old(leaves)[index := item] else old(leaves) + [item]
      ensures Valid() <==> index < 0 || (index <= |old(leaves)| && index < Pow2(depth))
    {
      if index < 0 {
        return Some(NegativeIndex);
      }
      ghost var before := leaves;
      assert IsLayer(h, before, 0, branches[0]);
      var bottom := PlaceLeaf(branches[0], item, index);
      if index >= |leaves| {
        leaves := leaves + [item];
      } else {
        leaves := leaves[index := item];
      }
      assert index <= |before| ==> IsLayer(h, leaves, 0, bottom);
      branches := UpdateAncestors(h, depth, branches[0 := bottom], before, leaves, index, item);
      assert Valid() ==> IsLayer(h, leaves, 0, branches[0]);
      return None;
    }
  }

  /** The layer loop of NewTreeFromLeavesWithDepth. */
  method BuildLayers(h: HashFn, leaves: seq<Chunk>, depth: nat, n: nat) returns (layers: seq<seq<Chunk>>)
    ensures |layers| == depth + 1
    ensures forall d :: 0 <= d <= depth ==> |layers[d]| == LayerLength(|leaves|, d)
    ensures HashesWholeTree(|leaves|, depth, n) ==> forall d :: 0 <= d <= depth ==> IsLayer(h, leaves, d, layers[d])
  {
    layers := [leaves];
    var layer := leaves;
    ghost var complete := HashesWholeTree(|leaves|, depth, n);
    for d := 0 to depth
      invariant |layers| == d + 1 && layer == layers[d]
      invariant LayerLengths(|leaves|, layers)
      invariant complete ==> AreLayers(h, leaves, layers)
    {
      assert complete ==> HashesWholeLayer(EvenLayerLength(|leaves|, d), n);
      assert complete ==> IsLayer(h, leaves, d, layer);
      layer := NextLayer(h, layer, d, n, leaves);
      AppendLayer(h, leaves, layers, layer);
      layers := layers + [layer];
    }
  }

  ghost predicate LayerLengths(n: nat, layers: seq<seq<Chunk>>) {
    forall d :: 0 <= d < |layers| ==> |layers[d]| == LayerLength(n, d)
  }

  ghost predicate AreLayers(h: HashFn, leaves: seq<Chunk>, layers: seq<seq<Chunk>>) {
    forall d :: 0 <= d < |layers| ==> IsLayer(h, leaves, d, layers[d])
  }

  lemma {:induction false} AppendLayer(h: HashFn, leaves: seq<Chunk>, layers: seq<seq<Chunk>>, layer: seq<Chunk>)
    requires LayerLengths(|leaves|, layers) && |layer| == LayerLength(|leaves|, |layers|)
    ensures LayerLengths(|leaves|, layers + [layer])
    ensures AreLayers(h, leaves, layers) && IsLayer(h, leaves, |layers|, layer) ==> AreLayers(h, leaves, layers + [layer])
  {
  }

  /** NewTreeFromLeavesWithDepth */
  method NewTree(h: HashFn, leaves: seq<Chunk>, depth: nat, n: nat) returns (r: Result<Tree, TreeError>)
    ensures r.Ok? <==> 0 < |leaves| <= Pow2(depth) && 1 <= depth <= 62
    ensures match VerifySufficientDepth(|leaves|, depth)
      case Some(e) => r == Err(e)
      case None => r.Ok? && fresh(r.value) && r.value.h == h && r.value.depth == depth && r.value.leaves == leaves
                   && r.value.Shaped() && (HashesWholeTree(|leaves|, depth, n) ==> r.value.Valid())
  {
    var failure := VerifySufficientDepth(|leaves|, depth);
    if failure.Some? {
      return Err(failure.value);
    }
    var layers := BuildLayers(h, leaves, depth, n);
    var tree := new Tree(h, depth, layers, leaves);
    r := Ok(tree);
  }

  /** Skipping a free leaf leaves a tree that is not the tree of its leaves. */
  method SkippingInsertBreaksTree(h: HashFn, leaf: Chunk, item: Chunk) returns (tree: Tree)
    ensures fresh(tree) && tree.depth == 2 && tree.leaves == [leaf, item] && !tree.Valid()
  {
    SmallTreesAreHashed(1, 2, 1);
    var r := NewTree(h, [leaf], 2, 1);
    tree := r.value;
    var failure := tree.Insert(item, 2);
  }
}
