/**
 Blob inclusion proofs: the sidecar factory that builds them and the verifier that
 checks them (mod/da/pkg/blob/factory.go, mod/da/pkg/types, and the KZG constants of
 mod/consensus-types/pkg/types/body.go). The two sides share no code.
 */
module Inclusion {
  import opened Bytes
  import opened MerkleBranch
  import opened MerkleTree

  const BODY_LENGTH: nat := 6
  const KZG_POSITION: nat := BODY_LENGTH - 1
  const KZG_MERKLE_INDEX: nat := 26

  /** NextPowerOfTwo panics above 2^63. */
  const MAX_POWER_OF_TWO: nat := 0x8000_0000_0000_0000

  type Commitment = s: seq<Byte> | |s| == 48 witness Zeros(48)

  datatype FieldError = FieldError(field: nat)

  /** The body as the factory sees it: field roots, each of which may fail to compute, and commitments. */
  datatype Body = Body(
    randaoRoot: Result<Chunk, FieldError>,
    eth1Root: Result<Chunk, FieldError>,
    graffiti: Chunk,
    depositsRoot: Result<Chunk, FieldError>,
    payloadRoot: Result<Chunk, FieldError>,
    commitments: seq<Commitment>)

  datatype FactoryError = TreeFailure(tree: TreeError) | FieldFailure(field: FieldError)

  datatype Header = Header(slot: U64, proposerIndex: U64, parentRoot: Chunk, stateRoot: Chunk, bodyRoot: Chunk)

  datatype Sidecar = Sidecar(
    index: U64, blob: seq<Byte>, commitment: Commitment, kzgProof: seq<Byte>,
    header: Header, inclusionProof: seq<Chunk>)

  // ------------------------------------------------------------ commitments as leaves

  function CommitmentRoot(h: HashFn, c: Commitment): Chunk {
    h(c[..32], c[32..] + Zeros(16))
  }

  function CommitmentRoots(h: HashFn, cs: seq<Commitment>): (leaves: seq<Chunk>)
    ensures |leaves| == |cs|
    ensures forall i :: 0 <= i < |cs| ==> leaves[i] == CommitmentRoot(h, cs[i])
  {
    if cs == [] then [] else CommitmentRoots(h, cs[..|cs| - 1]) + [CommitmentRoot(h, cs[|cs| - 1])]
  }

  /** Fill two zeroed chunks, then hash the pair over the first of them. */
  method ToHashChunks(h: HashFn, c: Commitment) returns (chunks: array<Chunk>)
    ensures fresh(chunks) && chunks.Length == 2 && chunks[0] == CommitmentRoot(h, c)
    ensures chunks[0] == h(c[..32], c[32..] + Zeros(16))
  {
    chunks := new Chunk[2](_ => ZERO_CHUNK);
    chunks[0] := c[..32];
    chunks[1] := c[32..] + chunks[1][16..];
    assert chunks[1] == c[32..] + Zeros(16);
    chunks[0] := h(chunks[0], chunks[1]);
  }

  method Leafify(h: HashFn, cs: seq<Commitment>) returns (leaves: seq<Chunk>)
    ensures leaves == CommitmentRoots(h, cs)
    ensures |leaves| == |cs| && forall i :: 0 <= i < |cs| ==> leaves[i] == h(cs[i][..32], cs[i][32..] + Zeros(16))
  {
    leaves := [];
    for i := 0 to |cs|
      invariant leaves == CommitmentRoots(h, cs[..i])
    {
      var chunks := ToHashChunks(h, cs[i]);
      assert cs[..i + 1][..i] == cs[..i];
      leaves := leaves + [chunks[0]];
    }
    assert cs[..|cs|] == cs;
  }

  // ------------------------------------------------------------ SSZ roots

  predicate FieldRootsComputed(body: Body) {
    body.randaoRoot.Ok? && body.eth1Root.Ok? && body.depositsRoot.Ok? && body.payloadRoot.Ok?
  }

  /** List root of the commitments under a limit of 2^k, per SSZ merkleization. */
  function CommitmentsRoot(h: HashFn, cs: seq<Commitment>, k: nat): Chunk {
    MixinLength(h, TreeRoot(h, CommitmentRoots(h, cs), k), |cs|)
  }

  /** The six field roots in container order. */
  function FieldRoots(h: HashFn, body: Body, last: Chunk): (roots: seq<Chunk>)
    requires FieldRootsComputed(body)
    ensures |roots| == BODY_LENGTH
  {
    [body.randaoRoot.value, body.eth1Root.value, body.graffiti, body.depositsRoot.value, body.payloadRoot.value, last]
  }

  /** Hash tree root of the body container: six fields padded to eight leaves. */
  function BodyRoot(h: HashFn, body: Body, k: nat): Chunk
    requires FieldRootsComputed(body)
  {
    TreeRoot(h, FieldRoots(h, body, CommitmentsRoot(h, body.commitments, k)), 3)
  }

  // ------------------------------------------------------------ the factory

  /** ceil(log2(max)): the height NewTreeWithMaxLeaves gives a tree. */
  function DepthForMaxLeaves(maxLeaves: nat): (d: nat)
    ensures maxLeaves <= Pow2(d)
    ensures d == 0 || Pow2(d - 1) < maxLeaves
  {
    if maxLeaves <= 1 then 0 else 1 + DepthForMaxLeaves((maxLeaves + 1) / 2)
  }

  lemma {:induction false} DepthOfPowerOfTwo(k: nat)
    ensures DepthForMaxLeaves(Pow2(k)) == k
  {
    var d := DepthForMaxLeaves(Pow2(k));
    if d < k {
      Pow2Monotone(d, k - 1);
    } else if k < d {
      Pow2Monotone(k, d - 1);
    }
  }

  function TopLevelRoots(h: HashFn, body: Body): Result<seq<Chunk>, FieldError> {
    if body.randaoRoot.Err? then Err(body.randaoRoot.error)
    else if body.eth1Root.Err? then Err(body.eth1Root.error)
    else if body.depositsRoot.Err? then Err(body.depositsRoot.error)
    else if body.payloadRoot.Err? then Err(body.payloadRoot.error)
    else Ok(FieldRoots(h, body, ZERO_CHUNK))
  }

  /** GetTopLevelRoots fills leaves 0 to 4 and leaves the commitments' leaf zero. */
  method GetTopLevelRoots(h: HashFn, body: Body) returns (r: Result<seq<Chunk>, FieldError>)
    ensures r == TopLevelRoots(h, body)
    ensures r.Ok? <==> body.randaoRoot.Ok? && body.eth1Root.Ok? && body.depositsRoot.Ok? && body.payloadRoot.Ok?
    ensures r.Ok? ==>
      && |r.value| == 6
      && r.value[0] == body.randaoRoot.value && r.value[1] == body.eth1Root.value && r.value[2] == body.graffiti
      && r.value[3] == body.depositsRoot.value && r.value[4] == body.payloadRoot.value && r.value[5] == ZERO_CHUNK
  {
    var layer := new Chunk[BODY_LENGTH](_ => ZERO_CHUNK);
    if body.randaoRoot.Err? {
      return Err(body.randaoRoot.error);
    }
    layer[0] := body.randaoRoot.value;
    if body.eth1Root.Err? {
      return Err(body.eth1Root.error);
    }
    layer[1] := body.eth1Root.value;
    layer[2] := body.graffiti;
    if body.depositsRoot.Err? {
      return Err(body.depositsRoot.error);
    }
    layer[3] := body.depositsRoot.value;
    if body.payloadRoot.Err? {
      return Err(body.payloadRoot.error);
    }
    layer[4] := body.payloadRoot.value;
    assert layer[..] == FieldRoots(h, body, ZERO_CHUNK);
    return Ok(layer[..]);
  }

  method BuildBlockBodyProof(h: HashFn, body: Body, n: nat) returns (r: Result<seq<Chunk>, FactoryError>)
    ensures match TopLevelRoots(h, body)
      case Err(e) => r == Err(FieldFailure(e))
      case Ok(roots) => r == Ok(TreeBranch(h, roots, 0, 3, KZG_POSITION))
    ensures r.Ok? <==> body.randaoRoot.Ok? && body.eth1Root.Ok? && body.depositsRoot.Ok? && body.payloadRoot.Ok?
    ensures r.Ok? ==>
      r.value == [body.payloadRoot.value,
                  h(ZERO_CHUNK, ZERO_CHUNK),
                  h(h(body.randaoRoot.value, body.eth1Root.value), h(body.graffiti, body.depositsRoot.value))]
  {
    var roots := GetTopLevelRoots(h, body);
    if roots.Err? {
      return Err(FieldFailure(roots.error));
    }
    assert Pow2(2) < BODY_LENGTH - 1 <= Pow2(3);
    BodyTreeDepth();
    var tree := NewTree(h, roots.value, DepthForMaxLeaves(BODY_LENGTH - 1), n);
    SmallTreesAreHashed(BODY_LENGTH, 3, n);
    var proof := tree.value.MerkleProof(KZG_POSITION);
    BodyBranchWrittenOut(h, roots.value);
    r := Ok(proof.value);
  }

  /** The branch of leaf 5 over six leaves: leaf 4, the two padding leaves, and the first four. */
  lemma {:induction false} BodyBranchWrittenOut(h: HashFn, roots: seq<Chunk>)
    requires |roots| == 6
    ensures TreeBranch(h, roots, 0, 3, 5)
         == [roots[4], h(ZERO_CHUNK, ZERO_CHUNK), h(h(roots[0], roots[1]), h(roots[2], roots[3]))]
  {
    SixLeaves(h, roots);
    assert TreeBranch(h, roots, 3, 0, 0) == [];
    assert TreeBranch(h, roots, 2, 1, 1) == [Node(h, roots, 2, 0)];
    assert TreeBranch(h, roots, 1, 2, 2) == [Node(h, roots, 1, 3)] + TreeBranch(h, roots, 2, 1, 1);
    assert TreeBranch(h, roots, 0, 3, 5) == [Node(h, roots, 0, 4)] + TreeBranch(h, roots, 1, 2, 2);
  }

  lemma {:induction false} SixLeaves(h: HashFn, roots: seq<Chunk>)
    requires |roots| == 6
    ensures Node(h, roots, 0, 4) == roots[4] && Node(h, roots, 1, 3) == h(ZERO_CHUNK, ZERO_CHUNK)
    ensures Node(h, roots, 2, 0) == h(h(roots[0], roots[1]), h(roots[2], roots[3]))
    ensures TreeRoot(h, roots, 3) ==
      h(h(h(roots[0], roots[1]), h(roots[2], roots[3])), h(h(roots[4], roots[5]), h(ZERO_CHUNK, ZERO_CHUNK)))
  {
    assert Node(h, roots, 1, 0) == h(roots[0], roots[1]) && Node(h, roots, 1, 1) == h(roots[2], roots[3]);
    assert Node(h, roots, 1, 2) == h(roots[4], roots[5]) && Node(h, roots, 1, 3) == h(ZERO_CHUNK, ZERO_CHUNK);
    assert Node(h, roots, 2, 0) == h(Node(h, roots, 1, 0), Node(h, roots, 1, 1));
    assert Node(h, roots, 2, 1) == h(Node(h, roots, 1, 2), Node(h, roots, 1, 3));
    assert Node(h, roots, 3, 0) == h(Node(h, roots, 2, 0), Node(h, roots, 2, 1));
  }

  /** The body root written out: six field roots and two zero chunks, the last root with the length mixed in. */
  lemma {:induction false} BodyRootWrittenOut(h: HashFn, body: Body, k: nat, length: Chunk)
    requires body.randaoRoot.Ok? && body.eth1Root.Ok? && body.depositsRoot.Ok? && body.payloadRoot.Ok?
    requires IsLength(length, |body.commitments|)
    ensures BodyRoot(h, body, k) ==
      h(h(h(body.randaoRoot.value, body.eth1Root.value), h(body.graffiti, body.depositsRoot.value)),
        h(h(body.payloadRoot.value, h(TreeRoot(h, CommitmentRoots(h, body.commitments), k), length)),
          h(ZERO_CHUNK, ZERO_CHUNK)))
  {
    LengthChunkIsLength(|body.commitments|);
    SixLeaves(h, FieldRoots(h, body, CommitmentsRoot(h, body.commitments, k)));
  }

  lemma {:induction false} BodyTreeDepth()
    ensures DepthForMaxLeaves(BODY_LENGTH - 1) == 3
    ensures VerifySufficientDepth(BODY_LENGTH, 3) == None
  {
    assert DepthForMaxLeaves(1) == 0;
    assert DepthForMaxLeaves(2) == 1 + DepthForMaxLeaves(1);
    assert DepthForMaxLeaves(3) == 1 + DepthForMaxLeaves(2);
    assert Pow2(1) == 2 && Pow2(3) == 4 * Pow2(1);
  }

  /** Why and whether BuildCommitmentProof fails. */
  function CommitmentProofFailure(count: nat, k: nat, index: nat): Option<TreeError> {
    match VerifySufficientDepth(count, k)
    case Some(e) => Some(e)
    case None => if index < count then None else Some(IndexOutOfRange)
  }

  function CommitmentProof(h: HashFn, cs: seq<Commitment>, k: nat, index: nat): seq<Chunk> {
    TreeBranch(h, CommitmentRoots(h, cs), 0, k, index) + [LengthChunk(|cs|)]
  }

  method BuildCommitmentProof(h: HashFn, body: Body, index: U64, maxCommitments: nat, n: nat)
    returns (r: Result<seq<Chunk>, FactoryError>)
    requires maxCommitments <= MAX_POWER_OF_TWO
    ensures var k := DepthForMaxLeaves(maxCommitments);
      match CommitmentProofFailure(|body.commitments|, k, index)
      case Some(e) => r == Err(TreeFailure(e))
      case None => r.Ok? && (HashesWholeTree(|body.commitments|, k, n) ==>
                               r.value == CommitmentProof(h, body.commitments, k, index))
  {
    var leaves := Leafify(h, body.commitments);
    var tree := NewTree(h, leaves, DepthForMaxLeaves(maxCommitments), n);
    if tree.Err? {
      return Err(TreeFailure(tree.error));
    }
    var proof := tree.value.MerkleProofWithMixin(index);
    if proof.Err? {
      return Err(TreeFailure(proof.error));
    }
    r := Ok(proof.value);
  }

  /** The commitments' proof followed by the body's proof. */
  function InclusionProof(h: HashFn, body: Body, k: nat, index: nat): (proof: seq<Chunk>)
    requires FieldRootsComputed(body)
    ensures |proof| == k + 4
  {
    CommitmentProof(h, body.commitments, k, index)
    + TreeBranch(h, FieldRoots(h, body, ZERO_CHUNK), 0, 3, KZG_POSITION)
  }

  method BuildKZGInclusionProof(h: HashFn, body: Body, index: U64, maxCommitments: nat, n: nat)
    returns (r: Result<seq<Chunk>, FactoryError>)
    requires maxCommitments <= MAX_POWER_OF_TWO
    ensures var k := DepthForMaxLeaves(maxCommitments);
      match CommitmentProofFailure(|body.commitments|, k, index)
      case Some(e) => r == Err(TreeFailure(e))
      case None =>
        match TopLevelRoots(h, body)
        case Err(e) => r == Err(FieldFailure(e))
        case Ok(_) => r.Ok? && (HashesWholeTree(|body.commitments|, k, n) ==>
                                  r.value == InclusionProof(h, body, k, index))
  {
    var commitmentsProof := BuildCommitmentProof(h, body, index, maxCommitments, n);
    if commitmentsProof.Err? {
      return commitmentsProof;
    }
    var bodyProof := BuildBlockBodyProof(h, body, n);
    if bodyProof.Err? {
      return bodyProof;
    }
    r := Ok(commitmentsProof.value + bodyProof.value);
  }

  // ------------------------------------------------------------ the verifier

  /** KZGMerkleIndexDeneb * MaxBlobCommitmentsPerBlock, in uint64 arithmetic. */
  function BlockBodyKZGOffset(maxCommitments: nat): U64 {
    KZG_MERKLE_INDEX * maxCommitments % U64_LIMIT
  }

  function VerifierIndex(offset: U64, index: U64): U64 {
    (offset + index) % U64_LIMIT
  }

  /** The proof's own length, cut to a uint8, is the depth it is checked at. */
  predicate HasValidInclusionProof(h: HashFn, sc: Sidecar, kzgOffset: U64) {
    ValidBranch(h, CommitmentRoot(h, sc.commitment), sc.inclusionProof, |sc.inclusionProof| % 256,
                VerifierIndex(kzgOffset, sc.index), sc.header.bodyRoot)
  }

  // ------------------------------------------------------------ builder and verifier agree

  /** A branch never contains the node it starts from, so the starting leaf cannot affect it. */
  lemma {:induction false} BranchIgnoresOwnLeaf(h: HashFn, leaves: seq<Chunk>, x: nat, leaf: Chunk, depth: nat)
    requires x < |leaves|
    ensures TreeBranch(h, leaves[x := leaf], 0, depth, x) == TreeBranch(h, leaves, 0, depth, x)
  {
    forall i | 0 <= i < depth
      ensures TreeBranch(h, leaves[x := leaf], 0, depth, x)[i] == TreeBranch(h, leaves, 0, depth, x)[i]
    {
      TreeBranchAt(h, leaves[x := leaf], 0, depth, x, i);
      TreeBranchAt(h, leaves, 0, depth, x, i);
      NodeAfterUpdate(h, leaves, leaves[x := leaf], x, i, Sibling(Shift(x, i)));
    }
  }

  /**
   The verifier's index arithmetic lands on commitment `index`, the left side of the
   length mix-in and body position 5 exactly when the configured maximum is a power of
   two that leaves the index within 64 bits.
   */
  lemma {:induction false} OffsetIsExact(maxCommitments: nat, index: U64)
    requires 0 < maxCommitments <= MAX_POWER_OF_TWO && index < maxCommitments
    ensures var k := DepthForMaxLeaves(maxCommitments);
      VerifierIndex(BlockBodyKZGOffset(maxCommitments), index) % Pow2(k + 4) == 10 * Pow2(k) + index
      <==> maxCommitments == Pow2(k) && k <= 60
  {
    OffsetIsExactAt(maxCommitments, index, DepthForMaxLeaves(maxCommitments));
  }

  lemma {:induction false} OffsetIsExactAt(maxCommitments: nat, index: U64, k: nat)
    requires index < maxCommitments <= Pow2(k) && (k == 0 || Pow2(k - 1) < maxCommitments)
    ensures VerifierIndex(BlockBodyKZGOffset(maxCommitments), index) % Pow2(k + 4) == 10 * Pow2(k) + index
      <==> maxCommitments == Pow2(k) && k <= 60
  {
    VerifierIndexIsSum(maxCommitments, index);
    if k <= 60 {
      OffsetWithinIndex(maxCommitments, index, k);
    } else {
      OffsetBeyondIndex(VerifierIndex(BlockBodyKZGOffset(maxCommitments), index), k);
    }
  }

  /** Without overflow the verifier checks at 26 times the maximum plus the index. */
  lemma {:induction false} VerifierIndexWrittenOut(maxCommitments: nat, index: U64)
    requires 26 * maxCommitments + index < U64_LIMIT
    ensures VerifierIndex(BlockBodyKZGOffset(maxCommitments), index) == 26 * maxCommitments + index
  {
    VerifierIndexIsSum(maxCommitments, index);
    DivUnique(26 * maxCommitments + index, U64_LIMIT, 0, 26 * maxCommitments + index);
  }

  /** Whatever the length of the proof: at most 255 chunks, and the climb reaches the header's body root. */
  lemma {:induction false} VerifierChecksClimb(h: HashFn, sc: Sidecar, kzgOffset: U64)
    ensures HasValidInclusionProof(h, sc, kzgOffset) <==>
      && |sc.inclusionProof| <= 255
      && BranchRoot(h, CommitmentRoot(h, sc.commitment), sc.inclusionProof, VerifierIndex(kzgOffset, sc.index))
         == sc.header.bodyRoot
  {
  }

  lemma {:induction false} VerifierIndexIsSum(maxCommitments: nat, index: U64)
    ensures VerifierIndex(BlockBodyKZGOffset(maxCommitments), index)
         == (KZG_MERKLE_INDEX * maxCommitments + index) % U64_LIMIT
  {
    ModAdd(KZG_MERKLE_INDEX * maxCommitments, index, U64_LIMIT);
  }

  lemma {:induction false} OffsetWithinIndex(maxCommitments: nat, index: nat, k: nat)
    requires index < maxCommitments <= Pow2(k) && (k == 0 || Pow2(k - 1) < maxCommitments) && k <= 60
    ensures (KZG_MERKLE_INDEX * maxCommitments + index) % U64_LIMIT % Pow2(k + 4) == 10 * Pow2(k) + index
       <==> maxCommitments == Pow2(k)
  {
    var x := KZG_MERKLE_INDEX * maxCommitments + index;
    U64KeepsLowBits(x, k + 4);
    SixteenFold(k);
    if maxCommitments == Pow2(k) {
      DivUnique(x, 16 * Pow2(k), 1, 10 * Pow2(k) + index);
    } else {
      OtherMaximaMiss(maxCommitments, index, k);
    }
  }

  lemma {:induction false} OffsetBeyondIndex(g: U64, k: nat)
    requires 60 < k
    ensures g % Pow2(k + 4) < 10 * Pow2(k)
  {
    U64IsPow2();
    Pow2Monotone(64, k + 3);
    assert Pow2(k + 3) == 8 * Pow2(k) by {
      assert Pow2(k + 1) == 2 * Pow2(k);
      assert Pow2(k + 3) == 4 * Pow2(k + 1);
    }
    DivUnique(g, Pow2(k + 4), 0, g);
  }

  lemma {:induction false} OtherMaximaMiss(maxCommitments: nat, index: nat, k: nat)
    requires index < maxCommitments < Pow2(k) && (k == 0 || Pow2(k - 1) < maxCommitments)
    ensures (KZG_MERKLE_INDEX * maxCommitments + index) % (16 * Pow2(k)) != 10 * Pow2(k) + index
  {
    var x, p := KZG_MERKLE_INDEX * maxCommitments + index, Pow2(k);
    if x % (16 * p) == 10 * p + index {
      var q := x / (16 * p);
      assert 26 * maxCommitments == q * (16 * p) + 10 * p;
      if q <= 0 {
        MulMonotone(q, 0, 16 * p);
      } else {
        MulMonotone(1, q, 16 * p);
      }
    }
  }

  lemma {:induction false} Pow2Square(n: nat, p: nat)
    requires Pow2(n) == p
    ensures Pow2(2 * n) == p * p
  {
    Pow2Add(n, n);
  }

  lemma {:induction false} U64IsPow2()
    ensures Pow2(64) == U64_LIMIT
  {
    Pow2Square(8, 0x100);
    Pow2Square(16, 0x1_0000);
    Pow2Square(32, 0x1_0000_0000);
  }

  lemma {:induction false} SixteenFold(k: nat)
    ensures Pow2(k + 4) == 16 * Pow2(k)
  {
    assert Pow2(k + 2) == 4 * Pow2(k);
    assert Pow2(k + 4) == 4 * Pow2(k + 2);
  }

  lemma {:induction false} ModAdd(a: nat, b: nat, m: nat)
    requires 0 < m
    ensures (a % m + b) % m == (a + b) % m
  {
    var y := a % m + b;
    assert a + b == (a / m + y / m) * m + y % m by {
      assert (a / m + y / m) * m == a / m * m + y / m * m;
    }
    DivUnique(a + b, m, a / m + y / m, y % m);
  }

  lemma {:induction false} ModOfProduct(x: nat, p: nat, q: nat)
    requires 0 < p && 0 < q
    ensures 0 < p * q && x % (p * q) % p == x % p
  {
    var t, y := x / (p * q), x % (p * q);
    assert t * (p * q) == t * q * p;
    assert (t * q + y / p) * p == t * q * p + y / p * p;
    DivUnique(x, p, t * q + y / p, y % p);
  }

  lemma {:induction false} U64KeepsLowBits(x: nat, bits: nat)
    requires bits <= 64
    ensures x % U64_LIMIT % Pow2(bits) == x % Pow2(bits)
  {
    U64IsPow2();
    Pow2Add(bits, 64 - bits);
    ModOfProduct(x, Pow2(bits), Pow2(64 - bits));
  }

  /** A leaf of the padded list tree: a commitment's root, or zero past the last commitment. */
  function LeafAt(h: HashFn, cs: seq<Commitment>, index: nat): Chunk {
    if index < |cs| then CommitmentRoot(h, cs[index]) else ZERO_CHUNK
  }

  /** First leg: from a leaf to the root of the commitments' tree. */
  lemma {:induction false} CommitmentLeg(h: HashFn, cs: seq<Commitment>, k: nat, index: nat, x: nat)
    requires |cs| <= Pow2(k) && index < Pow2(k) && x % Pow2(k) == index
    ensures BranchRoot(h, LeafAt(h, cs, index), TreeBranch(h, CommitmentRoots(h, cs), 0, k, index), x)
         == TreeRoot(h, CommitmentRoots(h, cs), k)
  {
    var leaves := CommitmentRoots(h, cs);
    BranchRootModDepth(h, LeafAt(h, cs, index), TreeBranch(h, leaves, 0, k, index), x);
    TreeBranchClimbs(h, leaves, 0, k, index);
    ShiftIsZero(index, k);
  }

  /** Last leg: from the commitments' root to the body root, untouched by the zero at leaf 5. */
  lemma {:induction false} BodyLeg(h: HashFn, body: Body, last: Chunk)
    requires FieldRootsComputed(body)
    ensures BranchRoot(h, last, TreeBranch(h, FieldRoots(h, body, ZERO_CHUNK), 0, 3, KZG_POSITION), KZG_POSITION)
         == TreeRoot(h, FieldRoots(h, body, last), 3)
  {
    var roots := FieldRoots(h, body, last);
    assert FieldRoots(h, body, ZERO_CHUNK) == roots[5 := ZERO_CHUNK];
    BranchIgnoresOwnLeaf(h, roots, 5, ZERO_CHUNK, 3);
    TreeBranchClimbs(h, roots, 0, 3, 5);
    assert Pow2(1) == 2 && Pow2(3) == 8;
  }

  /** The factory's proof for any leaf of the padded list climbs from that leaf to the body root. */
  lemma {:induction false} InclusionProofClimbs(h: HashFn, body: Body, k: nat, index: nat)
    requires FieldRootsComputed(body) && |body.commitments| <= Pow2(k) && index < Pow2(k)
    ensures BranchRoot(h, LeafAt(h, body.commitments, index), InclusionProof(h, body, k, index),
                       10 * Pow2(k) + index) == BodyRoot(h, body, k)
  {
    var cs, x := body.commitments, 10 * Pow2(k) + index;
    var leaf, top := LeafAt(h, cs, index), TreeRoot(h, CommitmentRoots(h, cs), k);
    var a, m := TreeBranch(h, CommitmentRoots(h, cs), 0, k, index), [LengthChunk(|cs|)];
    var b := TreeBranch(h, FieldRoots(h, body, ZERO_CHUNK), 0, 3, KZG_POSITION);
    LowBitsOfPosition(k, index);
    CommitmentLeg(h, cs, k, index, x);
    assert InclusionProof(h, body, k, index) == a + (m + b);
    BranchRootConcat(h, leaf, a, m + b, x);
    MixinLeg(h, top, |cs|, b);
    BodyLeg(h, body, CommitmentsRoot(h, cs, k));
  }

  lemma {:induction false} LowBitsOfPosition(k: nat, index: nat)
    requires index < Pow2(k)
    ensures (10 * Pow2(k) + index) % Pow2(k) == index && Shift(10 * Pow2(k) + index, k) == 10
  {
    DivUnique(10 * Pow2(k) + index, Pow2(k), 10, index);
    ShiftOfSum(10, index, k);
  }

  /** Middle leg: the length is the right-hand sibling, so index 10 becomes body position 5. */
  lemma {:induction false} MixinLeg(h: HashFn, top: Chunk, length: nat, rest: seq<Chunk>)
    ensures BranchRoot(h, top, [LengthChunk(length)] + rest, 10)
         == BranchRoot(h, MixinLength(h, top, length), rest, KZG_POSITION)
  {
    var m := [LengthChunk(length)];
    assert (m + rest)[0] == LengthChunk(length) && (m + rest)[1..] == rest;
  }

  /** Where a verifier that is handed `index` looks in a tree of depth k + 4: only the low k + 4 bits count. */
  function Position(k: nat, index: nat): nat {
    (10 * Pow2(k) + index % Pow2(k + 4)) % Pow2(k + 4)
  }

  /** Below 2^k that is commitment `index`, the left side of the mix-in and body position 5. */
  lemma {:induction false} PositionOfLeaf(k: nat, index: nat)
    requires index % Pow2(k + 4) < Pow2(k)
    ensures Position(k, index) == 10 * Pow2(k) + index % Pow2(k + 4)
  {
    var y := index % Pow2(k + 4);
    SixteenFold(k);
    DivUnique(10 * Pow2(k) + y, Pow2(k + 4), 0, 10 * Pow2(k) + y);
  }

  lemma {:induction false} SmallIndex(k: nat, index: nat)
    requires index < Pow2(k)
    ensures index % Pow2(k + 4) == index
  {
    SixteenFold(k);
    DivUnique(index, Pow2(k + 4), 0, index);
  }

  lemma {:induction false} VerifierIndexPosition(k: nat, index: U64)
    requires k <= 60
    ensures VerifierIndex(BlockBodyKZGOffset(Pow2(k)), index) % Pow2(k + 4) == Position(k, index)
  {
    LowBitsOfVerifierIndex(k, index);
    TurnToPosition(k, index);
  }

  lemma {:induction false} LowBitsOfVerifierIndex(k: nat, index: U64)
    requires k <= 60
    ensures VerifierIndex(BlockBodyKZGOffset(Pow2(k)), index) % Pow2(k + 4) == (KZG_MERKLE_INDEX * Pow2(k) + index) % Pow2(k + 4)
  {
    VerifierIndexIsSum(Pow2(k), index);
    U64KeepsLowBits(KZG_MERKLE_INDEX * Pow2(k) + index, k + 4);
  }

  lemma {:induction false} TurnToPosition(k: nat, index: nat)
    ensures (KZG_MERKLE_INDEX * Pow2(k) + index) % Pow2(k + 4) == Position(k, index)
  {
    SixteenFold(k);
    assert KZG_MERKLE_INDEX * Pow2(k) + index == 10 * Pow2(k) + Pow2(k + 4) + index;
    DropOneTurn(10 * Pow2(k), index, Pow2(k + 4));
  }

  lemma {:induction false} DropOneTurn(x: nat, index: nat, m: nat)
    requires 0 < m
    ensures (x + m + index) % m == (x + index % m) % m
  {
    var y := x + index;
    assert (y / m + 1) * m == y / m * m + m;
    DivUnique(y + m, m, y / m + 1, y % m);
    ModAdd(index, x, m);
  }

  /** On full-length proofs the verifier decides the climb from that position, for every 64-bit index. */
  lemma {:induction false} VerifierVerdict(h: HashFn, k: nat, sc: Sidecar)
    requires k <= 60 && |sc.inclusionProof| == k + 4
    ensures HasValidInclusionProof(h, sc, BlockBodyKZGOffset(Pow2(k)))
       <==> BranchRoot(h, CommitmentRoot(h, sc.commitment), sc.inclusionProof, Position(k, sc.index))
            == sc.header.bodyRoot
  {
    var leaf, g := CommitmentRoot(h, sc.commitment), VerifierIndex(BlockBodyKZGOffset(Pow2(k)), sc.index);
    var x := Position(k, sc.index);
    assert g % Pow2(|sc.inclusionProof|) == x by {
      VerifierIndexPosition(k, sc.index);
    }
    BranchRootModDepth(h, leaf, sc.inclusionProof, g);
    VerifierChecksClimb(h, sc, BlockBodyKZGOffset(Pow2(k)));
  }

  /** Completeness: for every hash, body and index, the factory's proof has length k + 4 and verifies. */
  lemma {:induction false} InclusionProofVerifies(h: HashFn, body: Body, k: nat, sc: Sidecar)
    requires k <= 60 && FieldRootsComputed(body) && |body.commitments| <= Pow2(k)
    requires sc.index < |body.commitments| && sc.commitment == body.commitments[sc.index]
    requires sc.inclusionProof == InclusionProof(h, body, k, sc.index)
    requires sc.header.bodyRoot == BodyRoot(h, body, k)
    ensures |sc.inclusionProof| == k + 4
    ensures HasValidInclusionProof(h, sc, BlockBodyKZGOffset(Pow2(k)))
  {
    InclusionProofClimbs(h, body, k, sc.index);
    SmallIndex(k, sc.index);
    PositionOfLeaf(k, sc.index);
    VerifierVerdict(h, k, sc);
  }

  // ------------------------------------------------------------ what an accepted sidecar can be

  /** The verdict depends only on the index modulo 2^(k + 4), so an accepted index need not be the commitment's. */
  lemma {:induction false} VerdictIgnoresHighBits(h: HashFn, k: nat, sc: Sidecar, index: U64)
    requires k <= 60 && |sc.inclusionProof| == k + 4 && index % Pow2(k + 4) == sc.index % Pow2(k + 4)
    ensures HasValidInclusionProof(h, sc.(index := index), BlockBodyKZGOffset(Pow2(k)))
       <==> HasValidInclusionProof(h, sc, BlockBodyKZGOffset(Pow2(k)))
  {
    VerifierVerdict(h, k, sc);
    VerifierVerdict(h, k, sc.(index := index));
  }

  /** An honest sidecar under the index i + 2^(k + 4), beyond every commitment, still passes. */
  lemma {:induction false} ReplayedIndexPasses(h: HashFn, body: Body, k: nat, sc: Sidecar)
    requires k < 60 && FieldRootsComputed(body) && |body.commitments| <= Pow2(k)
    requires sc.index < |body.commitments| && sc.commitment == body.commitments[sc.index]
    requires sc.inclusionProof == InclusionProof(h, body, k, sc.index)
    requires sc.header.bodyRoot == BodyRoot(h, body, k)
    ensures |body.commitments| <= sc.index + Pow2(k + 4) < U64_LIMIT
    ensures HasValidInclusionProof(h, sc.(index := sc.index + Pow2(k + 4)), BlockBodyKZGOffset(Pow2(k)))
  {
    ReplayedIndex(k, sc.index);
    InclusionProofVerifies(h, body, k, sc);
    VerdictIgnoresHighBits(h, k, sc, sc.index + Pow2(k + 4));
  }

  lemma {:induction false} ReplayedIndex(k: nat, i: nat)
    requires k < 60 && i < Pow2(k)
    ensures Pow2(k) <= i + Pow2(k + 4) < U64_LIMIT
    ensures (i + Pow2(k + 4)) % Pow2(k + 4) == i % Pow2(k + 4)
  {
    SixteenFold(k);
    Pow2Monotone(k + 4, 63);
    U64IsPow2();
    assert Pow2(64) == 2 * Pow2(63);
    SmallIndex(k, i);
    DivUnique(i + Pow2(k + 4), Pow2(k + 4), 1, i);
  }

  /** Leaf `f` of the body's tree: a field root, or zero for the two padding leaves. */
  function TopLevelNode(h: HashFn, body: Body, k: nat, f: nat): Chunk
    requires FieldRootsComputed(body)
  {
    Node(h, FieldRoots(h, body, CommitmentsRoot(h, body.commitments, k)), 0, f)
  }

  function TopLevelBranch(h: HashFn, body: Body, k: nat, f: nat): (b: seq<Chunk>)
    requires FieldRootsComputed(body)
    ensures |b| == 3
  {
    TreeBranch(h, FieldRoots(h, body, CommitmentsRoot(h, body.commitments, k)), 0, 3, f)
  }

  /** The node that the first k + 1 siblings of a proof lead to. */
  function ClaimedNode(h: HashFn, k: nat, sc: Sidecar): Chunk
    requires |sc.inclusionProof| == k + 4
  {
    BranchRoot(h, CommitmentRoot(h, sc.commitment), sc.inclusionProof[..k + 1], Position(k, sc.index))
  }

  /** The collision a wrongly accepted sidecar would give away. */
  function InclusionCollision(h: HashFn, body: Body, k: nat, sc: Sidecar): Preimages
    requires FieldRootsComputed(body) && |sc.inclusionProof| == k + 4
  {
    var cs, y, x := body.commitments, sc.index % Pow2(k + 4), Position(k, sc.index);
    if y < Pow2(k) then
      var c := FindCollision(h, LeafAt(h, cs, y), InclusionProof(h, body, k, y),
                             CommitmentRoot(h, sc.commitment), sc.inclusionProof, x);
      if IsCollision(h, c) || |cs| <= y then c else ChunkPreimages(cs[y], sc.commitment)
    else
      var f := Shift(x, k + 1);
      FindCollision(h, TopLevelNode(h, body, k, f), TopLevelBranch(h, body, k, f),
                    ClaimedNode(h, k, sc), sc.inclusionProof[k + 1..], f)
  }

  function ChunkPreimages(c: Commitment, d: Commitment): Preimages {
    Preimages(c[..32], c[32..] + Zeros(16), d[..32], d[32..] + Zeros(16))
  }

  lemma {:induction false} CommitmentRootSoundness(h: HashFn, c: Commitment, d: Commitment)
    requires CommitmentRoot(h, c) == CommitmentRoot(h, d)
    ensures c == d || IsCollision(h, ChunkPreimages(c, d))
  {
    if c[..32] == d[..32] && c[32..] + Zeros(16) == d[32..] + Zeros(16) {
      ChunksDetermineCommitment(c, d);
    }
  }

  /** An accepted sidecar whose index points into the list tree. */
  lemma {:induction false} LeafSoundness(h: HashFn, body: Body, k: nat, sc: Sidecar)
    requires k <= 60 && FieldRootsComputed(body) && |body.commitments| <= Pow2(k)
    requires |sc.inclusionProof| == k + 4 && sc.header.bodyRoot == BodyRoot(h, body, k)
    requires HasValidInclusionProof(h, sc, BlockBodyKZGOffset(Pow2(k)))
    ensures var y := sc.index % Pow2(k + 4);
      || Pow2(k) <= y
      || IsCollision(h, InclusionCollision(h, body, k, sc))
      || (&& sc.inclusionProof == InclusionProof(h, body, k, y)
          && if y < |body.commitments| then sc.commitment == body.commitments[y]
             else CommitmentRoot(h, sc.commitment) == ZERO_CHUNK)
  {
    var cs, y, leaf := body.commitments, sc.index % Pow2(k + 4), CommitmentRoot(h, sc.commitment);
    if y < Pow2(k) {
      PositionOfLeaf(k, sc.index);
      InclusionProofClimbs(h, body, k, y);
      VerifierVerdict(h, k, sc);
      BranchSoundness(h, LeafAt(h, cs, y), InclusionProof(h, body, k, y), leaf, sc.inclusionProof, Position(k, sc.index));
      if y < |cs| && leaf == CommitmentRoot(h, cs[y]) {
        CommitmentRootSoundness(h, cs[y], sc.commitment);
      }
    }
  }

  lemma {:induction false} FieldOfPosition(x: nat, k: nat)
    requires x < Pow2(k + 4)
    ensures Shift(Shift(x, k + 1), 3) == 0
  {
    ShiftIsZero(x, k + 4);
    ShiftStep(x, k + 1);
    ShiftStep(x, k + 2);
    ShiftStep(x, k + 3);
    ShiftStep(Shift(x, k + 1), 1);
    ShiftStep(Shift(x, k + 1), 2);
  }

  /** An accepted sidecar whose index points elsewhere: its claim hangs below the field it points into. */
  lemma {:induction false} FieldSoundness(h: HashFn, body: Body, k: nat, sc: Sidecar)
    requires k <= 60 && FieldRootsComputed(body) && |body.commitments| <= Pow2(k)
    requires |sc.inclusionProof| == k + 4 && sc.header.bodyRoot == BodyRoot(h, body, k)
    requires HasValidInclusionProof(h, sc, BlockBodyKZGOffset(Pow2(k)))
    ensures var f := Shift(Position(k, sc.index), k + 1);
      || sc.index % Pow2(k + 4) < Pow2(k)
      || IsCollision(h, InclusionCollision(h, body, k, sc))
      || (ClaimedNode(h, k, sc) == TopLevelNode(h, body, k, f)
          && sc.inclusionProof[k + 1..] == TopLevelBranch(h, body, k, f))
  {
    var x, lower, upper := Position(k, sc.index), sc.inclusionProof[..k + 1], sc.inclusionProof[k + 1..];
    var f := Shift(x, k + 1);
    VerifierVerdict(h, k, sc);
    assert sc.inclusionProof == lower + upper;
    BranchRootConcat(h, CommitmentRoot(h, sc.commitment), lower, upper, x);
    FieldOfPosition(x, k);
    TreeBranchClimbs(h, FieldRoots(h, body, CommitmentsRoot(h, body.commitments, k)), 0, 3, f);
    BranchSoundness(h, TopLevelNode(h, body, k, f), TopLevelBranch(h, body, k, f), ClaimedNode(h, k, sc), upper, f);
  }

  /**
   Soundness, for every 64-bit index: of a sidecar whose proof has the full length and verifies
   against a body's root, with y the low k + 4 bits of its index, a hash collision is extracted, or
   - y is a commitment's index, and the sidecar carries that commitment and the factory's proof; or
   - y is a padding leaf of the list, and the sidecar's commitment hashes to zero; or
   - y is past the list, and the commitment is claimed to lie below the field that y points into.
   */
  lemma {:induction false} InclusionSoundness(h: HashFn, body: Body, k: nat, sc: Sidecar)
    requires k <= 60 && FieldRootsComputed(body) && |body.commitments| <= Pow2(k)
    requires |sc.inclusionProof| == k + 4 && sc.header.bodyRoot == BodyRoot(h, body, k)
    requires HasValidInclusionProof(h, sc, BlockBodyKZGOffset(Pow2(k)))
    ensures var y, f := sc.index % Pow2(k + 4), Shift(Position(k, sc.index), k + 1);
      || IsCollision(h, InclusionCollision(h, body, k, sc))
      || (y < |body.commitments| && sc.commitment == body.commitments[y]
          && sc.inclusionProof == InclusionProof(h, body, k, y))
      || (|body.commitments| <= y < Pow2(k) && CommitmentRoot(h, sc.commitment) == ZERO_CHUNK
          && sc.inclusionProof == InclusionProof(h, body, k, y))
      || (Pow2(k) <= y && ClaimedNode(h, k, sc) == TopLevelNode(h, body, k, f)
          && sc.inclusionProof[k + 1..] == TopLevelBranch(h, body, k, f))
  {
    if sc.index % Pow2(k + 4) < Pow2(k) {
      LeafSoundness(h, body, k, sc);
    } else {
      FieldSoundness(h, body, k, sc);
    }
  }

  lemma {:induction false} ChunksDetermineCommitment(c: Commitment, d: Commitment)
    requires c[..32] == d[..32] && c[32..] + Zeros(16) == d[32..] + Zeros(16)
    ensures c == d
  {
    assert c[32..] == (c[32..] + Zeros(16))[..16] == d[32..];
    assert c == c[..32] + c[32..];
    assert d == d[..32] + d[32..];
  }

  // ------------------------------------------------------------ whole bundles

  datatype SidecarError = NilSidecar | InvalidInclusionProof | DifferingBlockRoots | HeaderRootFailed

  datatype Bundle = Bundle(blobs: seq<seq<Byte>>, commitments: seq<Commitment>, proofs: seq<seq<Byte>>)

  /** The sidecar BuildSidecars places in slot `i` when every proof can be built. */
  function ExpectedSidecar(h: HashFn, body: Body, header: Header, bundle: Bundle, k: nat, i: nat): Sidecar
    requires FieldRootsComputed(body) && i < |bundle.blobs| <= U64_LIMIT
    requires |bundle.blobs| <= |bundle.commitments| && |bundle.blobs| <= |bundle.proofs|
  {
    Sidecar(i, bundle.blobs[i], bundle.commitments[i], bundle.proofs[i], header, InclusionProof(h, body, k, i))
  }

  /** Each sidecar holds its own blob, commitment and proof, and the proof climbs from that index. */
  ghost predicate AreExpected(h: HashFn, body: Body, header: Header, bundle: Bundle, k: nat, sidecars: seq<Sidecar>) {
    && |sidecars| <= |bundle.blobs| <= U64_LIMIT
    && |bundle.blobs| <= |bundle.commitments| && |bundle.blobs| <= |bundle.proofs|
    && (sidecars != [] ==> FieldRootsComputed(body))
    && forall i :: 0 <= i < |sidecars| ==> sidecars[i] == ExpectedSidecar(h, body, header, bundle, k, i)
  }

  /** Sidecar `i` has index `i`, blob `i`, commitment `i`, KZG proof `i` and the block's header. */
  ghost predicate CarryTheirOwn(bundle: Bundle, header: Header, sidecars: seq<Sidecar>) {
    && |sidecars| <= |bundle.blobs| && |sidecars| <= |bundle.commitments| && |sidecars| <= |bundle.proofs|
    && forall i :: 0 <= i < |sidecars| ==>
         && sidecars[i].index == i && sidecars[i].blob == bundle.blobs[i] && sidecars[i].header == header
         && sidecars[i].commitment == bundle.commitments[i] && sidecars[i].kzgProof == bundle.proofs[i]
  }

  predicate CanBuildAll(h: HashFn, body: Body, k: nat, count: nat) {
    && (count == 0 || VerifySufficientDepth(|body.commitments|, k) == None)
    && count <= |body.commitments|
    && (count == 0 || FieldRootsComputed(body))
  }

  /** BuildSidecars; each goroutine writes its own slot, so slots are filled in turn. */
  method BuildSidecars(h: HashFn, body: Body, header: Header, bundle: Bundle, maxCommitments: nat, n: nat)
    returns (r: Result<seq<Sidecar>, FactoryError>)
    requires maxCommitments <= MAX_POWER_OF_TWO && |bundle.blobs| <= U64_LIMIT
    requires |bundle.blobs| <= |bundle.commitments| && |bundle.blobs| <= |bundle.proofs|
    ensures r.Ok? <==> CanBuildAll(h, body, DepthForMaxLeaves(maxCommitments), |bundle.blobs|)
    ensures r.Ok? <==>
            (|| |bundle.blobs| == 0
             || (&& |bundle.blobs| <= |body.commitments| <= Pow2(DepthForMaxLeaves(maxCommitments))
                 && 1 <= DepthForMaxLeaves(maxCommitments) <= 62
                 && body.randaoRoot.Ok? && body.eth1Root.Ok? && body.depositsRoot.Ok? && body.payloadRoot.Ok?))
    ensures r.Ok? ==> |r.value| == |bundle.blobs| && CarryTheirOwn(bundle, header, r.value)
    ensures r.Ok? && HashesWholeTree(|body.commitments|, DepthForMaxLeaves(maxCommitments), n) ==>
      AreExpected(h, body, header, bundle, DepthForMaxLeaves(maxCommitments), r.value)
  {
    var k := DepthForMaxLeaves(maxCommitments);
    var sidecars: seq<Sidecar> := [];
    for i := 0 to |bundle.blobs|
      invariant |sidecars| == i
      invariant CanBuildAll(h, body, k, i) && CarryTheirOwn(bundle, header, sidecars)
      invariant HashesWholeTree(|body.commitments|, k, n) ==> AreExpected(h, body, header, bundle, k, sidecars)
    {
      var proof := BuildKZGInclusionProof(h, body, i, maxCommitments, n);
      if proof.Err? {
        return Err(proof.error);
      }
      sidecars := sidecars +
        [Sidecar(i, bundle.blobs[i], bundle.commitments[i], bundle.proofs[i], header, proof.value)];
    }
    r := Ok(sidecars);
  }

  predicate AllProofsValid(h: HashFn, sidecars: seq<Option<Sidecar>>, kzgOffset: U64) {
    forall i :: 0 <= i < |sidecars| ==> sidecars[i].Some? && HasValidInclusionProof(h, sidecars[i].value, kzgOffset)
  }

  /** VerifyInclusionProofs joins one error per failing sidecar; no errors means success. */
  method VerifyInclusionProofs(h: HashFn, sidecars: seq<Option<Sidecar>>, kzgOffset: U64)
    returns (errors: seq<SidecarError>)
    ensures errors == [] <==> AllProofsValid(h, sidecars, kzgOffset)
  {
    errors := [];
    for i := 0 to |sidecars|
      invariant errors == [] <==> AllProofsValid(h, sidecars[..i], kzgOffset)
    {
      assert sidecars[..i + 1] == sidecars[..i] + [sidecars[i]];
      if sidecars[i].None? {
        errors := errors + [NilSidecar];
      } else if !HasValidInclusionProof(h, sidecars[i].value, kzgOffset) {
        errors := errors + [InvalidInclusionProof];
      }
    }
    assert sidecars[..|sidecars|] == sidecars;
  }

  /** With two or more sidecars, every header's root can be computed and is the same. */
  ghost predicate SameBlockRoots(headerRoot: Header -> Result<Chunk, SidecarError>, sidecars: seq<Sidecar>) {
    && (forall i :: 0 <= i < |sidecars| ==> headerRoot(sidecars[i].header).Ok?)
    && (forall i, j :: 0 <= i < j < |sidecars| ==> headerRoot(sidecars[i].header) == headerRoot(sidecars[j].header))
  }

  /** ValidateBlockRoots compares every header root with the first. */
  method ValidateBlockRoots(headerRoot: Header -> Result<Chunk, SidecarError>, sidecars: seq<Sidecar>)
    returns (failure: Option<SidecarError>)
    ensures failure == None <==> |sidecars| <= 1 || SameBlockRoots(headerRoot, sidecars)
    ensures failure.Some? ==>
      failure.value == DifferingBlockRoots || exists i :: 0 <= i < |sidecars| && headerRoot(sidecars[i].header) == Err(failure.value)
  {
    if |sidecars| > 1 {
      var firstHtr := headerRoot(sidecars[0].header);
      if firstHtr.Err? {
        return Some(firstHtr.error);
      }
      for i := 1 to |sidecars|
        invariant forall j :: 0 <= j < i ==> headerRoot(sidecars[j].header) == firstHtr
      {
        var nextHtr := headerRoot(sidecars[i].header);
        if nextHtr.Err? {
          return Some(nextHtr.error);
        }
        if firstHtr != nextHtr {
          return Some(DifferingBlockRoots);
        }
      }
    }
    return None;
  }

  /** Every sidecar that BuildSidecars makes for an honest proposal passes the verifier's inclusion check. */
  lemma {:induction false} HonestBundleVerifies(
    h: HashFn, body: Body, header: Header, bundle: Bundle, k: nat, sidecars: seq<Sidecar>)
    requires k <= 60 && FieldRootsComputed(body) && |sidecars| <= |body.commitments| <= Pow2(k)
    requires bundle.commitments == body.commitments && header.bodyRoot == BodyRoot(h, body, k)
    requires AreExpected(h, body, header, bundle, k, sidecars)
    ensures AllProofsValid(h, seq(|sidecars|, i requires 0 <= i < |sidecars| => Some(sidecars[i])),
                           BlockBodyKZGOffset(Pow2(k)))
  {
    forall i | 0 <= i < |sidecars|
      ensures HasValidInclusionProof(h, sidecars[i], BlockBodyKZGOffset(Pow2(k)))
    {
      InclusionProofVerifies(h, body, k, sidecars[i]);
    }
  }

  /** From the builder to the verifier: what BuildSidecars returns at a maximum of 2^k is accepted. */
  method BuildThenVerify(h: HashFn, body: Body, header: Header, bundle: Bundle, k: nat, n: nat)
    returns (r: Result<seq<Sidecar>, FactoryError>, errors: seq<SidecarError>)
    requires k <= 60 && |bundle.blobs| <= |bundle.proofs| && bundle.commitments == body.commitments
    requires |bundle.blobs| <= |body.commitments| <= U64_LIMIT
    requires FieldRootsComputed(body) ==> header.bodyRoot == BodyRoot(h, body, k)
    requires n <= 50 || |body.commitments| + 1 < MIN_PARALLELIZATION_SIZE
    ensures r.Ok? <==> CanBuildAll(h, body, k, |bundle.blobs|)
    ensures r.Ok? ==> |r.value| == |bundle.blobs| && errors == []
    ensures r.Ok? ==> forall i :: 0 <= i < |r.value| ==>
      HasValidInclusionProof(h, r.value[i], BlockBodyKZGOffset(Pow2(k)))
  {
    errors := [];
    Pow2Monotone(k, 63);
    U64IsPow2();
    assert Pow2(64) == 2 * Pow2(63);
    DepthOfPowerOfTwo(k);
    SmallTreesAreHashed(|body.commitments|, k, n);
    r := BuildSidecars(h, body, header, bundle, Pow2(k), n);
    if r.Ok? && r.value != [] {
      SufficientDepthFits(|body.commitments|, k);
      HonestBundleVerifies(h, body, header, bundle, k, r.value);
      var received := seq(|r.value|, i requires 0 <= i < |r.value| => Some(r.value[i]));
      errors := VerifyInclusionProofs(h, received, BlockBodyKZGOffset(Pow2(k)));
      assert forall i :: 0 <= i < |r.value| ==> received[i] == Some(r.value[i]);
    }
  }

  lemma {:induction false} SufficientDepthFits(count: nat, k: nat)
    requires VerifySufficientDepth(count, k) == None
    ensures count <= Pow2(k)
  {
  }
}
