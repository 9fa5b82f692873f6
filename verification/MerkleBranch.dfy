/**
 Merkle branches: the verifier's side of an inclusion proof
 (mod/primitives/pkg/merkle/proof.go).

 SHA-256 on a pair of 32-byte values is an arbitrary function `h`, passed as a
 parameter, so every statement below holds for every hash function.
 */
module MerkleBranch {
  import opened Bytes

  type Chunk = s: seq<Byte> | |s| == 32 witness Zeros(32)

  const ZERO_CHUNK: Chunk := Zeros(32)

  type HashFn = (Chunk, Chunk) -> Chunk

  /** Hash a node with its sibling; an odd index means the node is the right child. */
  function Join(h: HashFn, node: Chunk, sibling: Chunk, index: nat): Chunk {
    if index % 2 == 1 then h(sibling, node) else h(node, sibling)
  }

  /** The root reached from `leaf` at position `index` by climbing `branch`. */
  function BranchRoot(h: HashFn, leaf: Chunk, branch: seq<Chunk>, index: nat): Chunk
    decreases |branch|
  {
    if branch == [] then leaf
    else BranchRoot(h, Join(h, leaf, branch[0], index), branch[1..], index / 2)
  }

  /** The loop of RootFromBranch; it reads bit `i` of the index at level `i`. */
  method RootFromBranch(h: HashFn, leaf: Chunk, branch: seq<Chunk>, depth: nat, index: U64) returns (root: Chunk)
    requires depth <= |branch|
    ensures root == BranchRoot(h, leaf, branch[..depth], index)
  {
    root := leaf;
    for i := 0 to depth
      invariant BranchRoot(h, root, branch[i..depth], Shift(index, i)) == BranchRoot(h, leaf, branch[..depth], index)
    {
      var ithBit := Shift(index, i) % 2;
      ShiftStep(index, i);
      assert branch[i..depth][1..] == branch[i + 1..depth];
      if ithBit == 1 {
        root := h(branch[i], root);
      } else {
        root := h(root, branch[i]);
      }
    }
  }

  predicate ValidBranch(h: HashFn, leaf: Chunk, branch: seq<Chunk>, depth: nat, index: nat, root: Chunk) {
    |branch| == depth && BranchRoot(h, leaf, branch, index) == root
  }

  method IsValidMerkleBranch(h: HashFn, leaf: Chunk, branch: seq<Chunk>, depth: nat, index: U64, root: Chunk)
    returns (ok: bool)
    ensures ok == ValidBranch(h, leaf, branch, depth, index, root)
  {
    if |branch| != depth {
      return false;
    }
    var reached := RootFromBranch(h, leaf, branch, depth, index);
    assert branch[..depth] == branch;
    ok := reached == root;
  }

  /** Branches longer than a uint8 can count are rejected before any hashing. */
  method VerifyProof(h: HashFn, root: Chunk, leaf: Chunk, merkleIndex: U64, proof: seq<Chunk>) returns (ok: bool)
    ensures ok <==> |proof| <= 255 && BranchRoot(h, leaf, proof, merkleIndex) == root
  {
    if |proof| > 255 {
      return false;
    }
    ok := IsValidMerkleBranch(h, leaf, proof, |proof|, merkleIndex, root);
  }

  // ------------------------------------------------------------------ composition

  /** Proof concatenation: climbing p + q is climbing p and then q at the shifted index. */
  lemma {:induction false} BranchRootConcat(h: HashFn, leaf: Chunk, p: seq<Chunk>, q: seq<Chunk>, x: nat)
    ensures BranchRoot(h, leaf, p + q, x)
         == BranchRoot(h, BranchRoot(h, leaf, p, x), q, Shift(x, |p|))
    decreases |p|
  {
    if p == [] {
      assert p + q == q;
    } else {
      assert (p + q)[1..] == p[1..] + q;
      BranchRootConcat(h, Join(h, leaf, p[0], x), p[1..], q, x / 2);
      ShiftStep(x, |p| - 1);
    }
  }

  /** Only the low `|branch|` bits of the index matter. */
  lemma {:induction false} BranchRootModDepth(h: HashFn, leaf: Chunk, branch: seq<Chunk>, x: nat)
    ensures BranchRoot(h, leaf, branch, x) == BranchRoot(h, leaf, branch, x % Pow2(|branch|))
    decreases |branch|
  {
    if branch == [] {
    } else {
      var d := |branch| - 1;
      var r := x % Pow2(d + 1);
      ModPow2Step(x, d);
      BranchRootModDepth(h, Join(h, leaf, branch[0], x), branch[1..], x / 2);
    }
  }

  lemma {:induction false} ModPow2Step(x: nat, d: nat)
    ensures x % Pow2(d + 1) % 2 == x % 2
    ensures x % Pow2(d + 1) / 2 == x / 2 % Pow2(d)
  {
    var q, r := x / 2 / Pow2(d), x / 2 % Pow2(d);
    assert x == (q * Pow2(d) + r) * 2 + x % 2;
    assert (q * Pow2(d) + r) * 2 == q * Pow2(d + 1) + r * 2;
    DivUnique(x, Pow2(d + 1), q, r * 2 + x % 2);
  }

  // ------------------------------------------------------------------ soundness

  /** Two different preimages of the same hash. */
  datatype Preimages = Preimages(left1: Chunk, right1: Chunk, left2: Chunk, right2: Chunk)

  predicate IsCollision(h: HashFn, c: Preimages) {
    && (c.left1, c.right1) != (c.left2, c.right2)
    && h(c.left1, c.right1) == h(c.left2, c.right2)
  }

  function Inputs(node1: Chunk, sibling1: Chunk, node2: Chunk, sibling2: Chunk, index: nat): Preimages {
    if index % 2 == 1 then Preimages(sibling1, node1, sibling2, node2)
    else Preimages(node1, sibling1, node2, sibling2)
  }

  /** Climb both branches side by side and stop at the first level whose inputs collide. */
  function FindCollision(h: HashFn, leaf1: Chunk, branch1: seq<Chunk>, leaf2: Chunk, branch2: seq<Chunk>, index: nat)
    : Preimages
    requires |branch1| == |branch2|
    decreases |branch1|
  {
    if branch1 == [] then Preimages(leaf1, leaf1, leaf2, leaf2)
    else
      var here := Inputs(leaf1, branch1[0], leaf2, branch2[0], index);
      if IsCollision(h, here) then here
      else FindCollision(h, Join(h, leaf1, branch1[0], index), branch1[1..],
                         Join(h, leaf2, branch2[0], index), branch2[1..], index / 2)
  }

  /**
   Soundness for every hash function: two proofs of the same depth and index that
   reach the same root are the same proof, or FindCollision exhibits a collision.
   */
  lemma {:induction false} BranchSoundness(
    h: HashFn, leaf1: Chunk, branch1: seq<Chunk>, leaf2: Chunk, branch2: seq<Chunk>, index: nat)
    requires |branch1| == |branch2|
    requires BranchRoot(h, leaf1, branch1, index) == BranchRoot(h, leaf2, branch2, index)
    ensures (leaf1 == leaf2 && branch1 == branch2)
         || IsCollision(h, FindCollision(h, leaf1, branch1, leaf2, branch2, index))
    decreases |branch1|
  {
    if branch1 == [] {
    } else {
      BranchSoundness(h, Join(h, leaf1, branch1[0], index), branch1[1..],
                      Join(h, leaf2, branch2[0], index), branch2[1..], index / 2);
      assert branch1 == [branch1[0]] + branch1[1..];
      assert branch2 == [branch2[0]] + branch2[1..];
    }
  }
}
