/** Key blocks that have a part of their config at several places, and what the pieces of their proofs are worth. */
module SharedParts {
  import opened Cells
  import opened BitStrings
  import opened HashPreservation
  import opened BlockUtils
  import opened Volumes
  import opened ProofHashes
  import opened Paths
  import opened Grafting
  import opened SetValidators
  import opened HonestTrees
  import opened BlockProofs
  import opened Results

  predicate IsFlawless(c: Cell) {
    Finalized(c) && PlainStubs(c) && Whole(c) && NoMerkle(c)
  }

  /** A tree that measuring leaves in one piece, and splits off from the cell above it. */
  predicate IsOnePart(c: Cell) {
    IsFlawless(c) && Volume(c) > 64 && PartsOf(c) == [] && !StartsWithOne(c)
  }

  lemma FlawlessAbove(c: Cell)
    requires c.kind.Ordinary? && forall i | 0 <= i < |c.refs| :: IsFlawless(c.refs[i])
    ensures IsFlawless(c)
  {
  }

  const EMPTY := Cell(Ordinary, [], [])

  /** A parameter 34 with one part. */
  function SharedParam(part: Cell): Cell {
    Cell(Ordinary, [], [part])
  }

  /** `m` cells above parameter 34, each with that part three times. */
  function Chain(part: Cell, m: nat): Cell {
    if m == 0 then SharedParam(part) else Cell(Ordinary, [], [Chain(part, m - 1), part, part, part])
  }

  function SharedConfig(part: Cell, m: nat): Cell {
    Cell(Ordinary, [true], [Chain(part, m)])
  }

  function SharedCustom(bits: seq<bool>, part: Cell, m: nat): Cell {
    Cell(Ordinary, bits, [SharedConfig(part, m)])
  }

  function SharedExtra(bits: seq<bool>, part: Cell, m: nat): Cell {
    Cell(Ordinary, [], [EMPTY, EMPTY, EMPTY, SharedCustom(bits, part, m)])
  }

  /** A key block with such a config that has the part at the root, too. */
  function SharedBlock(bits: seq<bool>, part: Cell, m: nat): Cell {
    Cell(Ordinary, [], [EMPTY, part, EMPTY, SharedExtra(bits, part, m)])
  }

  /** What the config dictionary stores under key 34. */
  function SharedHash(part: Cell): Cell -> Option<Digest> {
    config => Some(Hash0(SharedParam(part)))
  }

  // ------------------------------------------------------------------ the path

  /** The cells from the top of the chain down to parameter 34. */
  function Down(part: Cell, m: nat): (path: seq<Cell>)
    ensures |path| == m + 1 && path[0] == Chain(part, m)
  {
    if m == 0 then [SharedParam(part)] else [Chain(part, m)] + Down(part, m - 1)
  }

  function ConfigDown(part: Cell, m: nat): seq<Cell> {
    [SharedConfig(part, m)] + Down(part, m)
  }

  function SharedPath(bits: seq<bool>, part: Cell, m: nat): seq<Cell> {
    [SharedBlock(bits, part, m), SharedExtra(bits, part, m), SharedCustom(bits, part, m)] + ConfigDown(part, m)
  }

  lemma {:induction false} ChainIsFlawless(part: Cell, m: nat)
    requires IsFlawless(part)
    ensures IsFlawless(Chain(part, m)) && forall k | 0 <= k < |Down(part, m)| :: IsFlawless(Down(part, m)[k])
  {
    if m > 0 { ChainIsFlawless(part, m - 1); }
    FlawlessAbove(Chain(part, m));
  }

  lemma SharedBlockIsFlawless(bits: seq<bool>, part: Cell, m: nat)
    requires IsFlawless(part)
    ensures forall k | 0 <= k < |SharedPath(bits, part, m)| :: IsFlawless(SharedPath(bits, part, m)[k])
    ensures IsFlawless(SharedBlock(bits, part, m))
  {
    ChainIsFlawless(part, m);
    FlawlessAbove(EMPTY);
    FlawlessAbove(SharedConfig(part, m));
    FlawlessAbove(SharedCustom(bits, part, m));
    FlawlessAbove(SharedExtra(bits, part, m));
    FlawlessAbove(SharedBlock(bits, part, m));
  }

  /** Parameter 34 and the part are deeper than the chain. */
  lemma {:induction false} ChainIsLarger(part: Cell, m: nat)
    requires Finalized(part)
    ensures Hash0(part) < Hash0(Chain(part, m))
    ensures m > 0 ==> Hash0(SharedParam(part)) < Hash0(Chain(part, m))
  {
    if m > 0 {
      ChainIsLarger(part, m - 1);
      RefHashSmaller(Chain(part, m), 1);
    }
    RefHashSmaller(Chain(part, m), 0);
  }

  lemma FoundBelow(c: Cell, hash: Digest, path: seq<Cell>)
    requires c.refs != [] && Hash0(c) != hash && FirstEnding(Chains(c.refs[0]), hash) == Some(path)
    ensures FirstEnding(Chains(c), hash) == Some([c] + path)
  {
    assert [[c]] + RefChains(c, 0) == [[c]];
    SearchStep(c, 0, hash);
  }

  lemma {:induction false} ParamIsFound(part: Cell, m: nat)
    requires Finalized(part)
    ensures FirstEnding(Chains(Chain(part, m)), Hash0(SharedParam(part))) == Some(Down(part, m))
  {
    if m == 0 {
      assert Chains(SharedParam(part))[0] == [SharedParam(part)];
    } else {
      ParamIsFound(part, m - 1);
      ChainIsLarger(part, m);
      FoundBelow(Chain(part, m), Hash0(SharedParam(part)), Down(part, m - 1));
    }
  }

  lemma ConfigIsFound(part: Cell, m: nat)
    requires Finalized(part)
    ensures FirstEnding(Chains(SharedConfig(part, m)), Hash0(SharedParam(part))) == Some(ConfigDown(part, m))
  {
    ParamIsFound(part, m);
    ChainIsLarger(part, m);
    RefHashSmaller(SharedConfig(part, m), 0);
    FoundBelow(SharedConfig(part, m), Hash0(SharedParam(part)), Down(part, m));
  }

  lemma SharedBlockIsKey(bits: seq<bool>, part: Cell, m: nat)
    requires IsKeyExtra(SharedCustom(bits, part, m))
    ensures var root := SharedBlock(bits, part, m);
            && IsKeyBlock(root) && Config(root) == SharedConfig(part, m)
            && Extra(root) == SharedExtra(bits, part, m) && Custom(root) == SharedCustom(bits, part, m)
  {
  }

  lemma SharedPathIsFound(bits: seq<bool>, part: Cell, m: nat)
    requires Finalized(part) && IsKeyExtra(SharedCustom(bits, part, m))
    ensures PathToConfig(SharedBlock(bits, part, m), SharedHash(part)) == Some(SharedPath(bits, part, m))
  {
    ConfigIsFound(part, m);
    SharedBlockIsKey(bits, part, m);
  }

  // ----------------------------------------------------------------- the proof

  lemma {:induction false} ProofHasNoMerkle(path: seq<Cell>, cloneTail: bool)
    requires path != [] && forall k | 0 <= k < |path| :: NoMerkle(path[k])
    ensures NoMerkle(ProofOf(path, cloneTail))
    decreases |path|
  {
    var c, n := path[0], ProofOf(path, cloneTail);
    forall i | 0 <= i < |c.refs|
      ensures NoMerkle(n.refs[i])
    {
      assert n.refs[i] == ProofRef(path, cloneTail, c.refs[i]) && NoMerkle(c) && NoMerkle(c.refs[i]);
      if OnPath(path, c.refs[i]) { ProofHasNoMerkle(path[1..], cloneTail); }
    }
  }

  /** What the proof keeps of the chain. */
  function KeptChain(part: Cell, m: nat): Cell {
    ProofOf(Down(part, m), true)
  }

  function KeptConfig(part: Cell, m: nat): Cell {
    ProofOf(ConfigDown(part, m), true)
  }

  lemma ParamIsKept(part: Cell)
    ensures KeptChain(part, 0) == SharedParam(part)
  {
    PathUntouchedExactly([SharedParam(part)], true);
  }

  lemma NextIsKept(path: seq<Cell>, i: nat)
    requires |path| > 1 && i < |path[0].refs| && path[0].refs[i] == path[1]
    ensures ProofOf(path, true).refs[i] == ProofOf(path[1..], true)
  {
    assert ProofOf(path, true).refs[i] == ProofRef(path, true, path[0].refs[i]);
  }

  lemma OtherIsCut(path: seq<Cell>, i: nat)
    requires |path| > 1 && i < |path[0].refs|
    requires Hash0(path[0].refs[i]) != Hash0(path[1]) && !StartsWithOne(path[0].refs[i])
    ensures ProofOf(path, true).refs[i] == FreshStub(path[0].refs[i])
  {
    assert ProofOf(path, true).refs[i] == ProofRef(path, true, path[0].refs[i]);
  }

  lemma DownFrom(part: Cell, m: nat)
    requires m > 0
    ensures var path := Down(part, m);
            && |path| > 1 && path[1] == Chain(part, m - 1) && path[1..] == Down(part, m - 1)
            && path[0].refs == [Chain(part, m - 1), part, part, part]
  {
  }

  /** Of a chain cell the proof keeps the way down, and cuts away the part. */
  lemma ChainRefKept(part: Cell, m: nat, i: nat)
    requires Finalized(part) && !StartsWithOne(part) && m > 0 && i < 4
    ensures |KeptChain(part, m).refs| == 4
    ensures KeptChain(part, m).refs[i] == if i == 0 then KeptChain(part, m - 1) else FreshStub(part)
  {
    var path := Down(part, m);
    DownFrom(part, m);
    if i == 0 {
      NextIsKept(path, 0);
    } else {
      assert path[0].refs[i] == part;
      ChainIsLarger(part, m - 1);
      OtherIsCut(path, i);
    }
  }

  lemma ConfigRefKept(part: Cell, m: nat)
    ensures KeptConfig(part, m).refs == [KeptChain(part, m)]
  {
    var path := ConfigDown(part, m);
    assert path[1..] == Down(part, m);
    NextIsKept(path, 0);
  }

  lemma SharedProof(bits: seq<bool>, part: Cell, m: nat, proof: Cell) returns (a: Address)
    requires IsOnePart(part) && IsKeyExtra(SharedCustom(bits, part, m))
    requires proof == ValidatorsProof(SharedBlock(bits, part, m), SharedPath(bits, part, m))
    ensures NoMerkle(proof) && HasConfig(proof) && ProofConfig(proof) == KeptConfig(part, m)
  {
    var root, path := SharedBlock(bits, part, m), SharedPath(bits, part, m);
    SharedPathIsFound(bits, part, m);
    SharedBlockIsFlawless(bits, part, m);
    ProofHasNoMerkle(path, true);
    FlawlessAbove(EMPTY);
    ProofHasNoMerkle([EMPTY], false);
    a := BlockOfPath(root, SharedHash(part), proof);
    assert path[3..] == ConfigDown(part, m);
  }

  // ----------------------------------------------------------------- the parts

  /** A reference that is too large on its own is split off. */
  lemma OneLargeRef(c: Cell)
    requires |c.refs| == 1 && Volume(c.refs[0]) > 64
    ensures Volume(c) == 1 && PartsOf(c) == PartsOf(c.refs[0]) + [SubTree(c.refs[0], c, 0)]
  {
    assert SumVolumes(c, 1) == SumVolumes(c, 0) + Volume(c.refs[0]);
    assert IsPartRef(c, 0) && KeptVolumes(c, 1) == KeptVolumes(c, 0);
    assert OwnParts(c, 1) == OwnParts(c, 0) + [SubTree(c.refs[0], c, 0)];
    assert ChildParts(c, 1) == ChildParts(c, 0) + PartsOf(c.refs[0]);
  }

  /** One that is small enough is not. */
  lemma OneSmallRef(c: Cell)
    requires |c.refs| == 1 && Volume(c.refs[0]) <= 64
    ensures Volume(c) == 1 + Volume(c.refs[0]) && PartsOf(c) == PartsOf(c.refs[0])
  {
    assert SumVolumes(c, 1) == SumVolumes(c, 0) + Volume(c.refs[0]);
    KeptAll(c, 1);
    assert ChildParts(c, 1) == ChildParts(c, 0) + PartsOf(c.refs[0]);
  }

  /** Four references of which the last three have equal volumes and no parts. */
  lemma FourRefs(c: Cell, rest: nat)
    requires |c.refs| == 4 && forall i | 1 <= i < 4 :: Volume(c.refs[i]) == rest && PartsOf(c.refs[i]) == []
    ensures SumVolumes(c, 4) == Volume(c.refs[0]) + 3 * rest && ChildParts(c, 4) == PartsOf(c.refs[0])
  {
    assert SumVolumes(c, 1) == SumVolumes(c, 0) + Volume(c.refs[0]);
    assert ChildParts(c, 1) == ChildParts(c, 0) + PartsOf(c.refs[0]);
    assert SumVolumes(c, 2) == SumVolumes(c, 1) + rest && ChildParts(c, 2) == ChildParts(c, 1);
    assert SumVolumes(c, 3) == SumVolumes(c, 2) + rest && ChildParts(c, 3) == ChildParts(c, 2);
  }

  /** References that are no parts themselves all stay. */
  lemma {:induction false} NoPartRefs(c: Cell, k: nat)
    requires k <= |c.refs| && forall i | 0 <= i < |c.refs| :: !IsPartRef(c, i)
    ensures OwnParts(c, k) == [] && KeptVolumes(c, k) == SumVolumes(c, k)
    decreases k
  {
    if k > 0 { NoPartRefs(c, k - 1); }
  }

  lemma NoRefs(c: Cell)
    requires c.refs == []
    ensures Volume(c) == 1 && PartsOf(c) == []
  {
  }

  /** A reference beside three cells without references: four cells more. */
  lemma FourMoreCells(c: Cell)
    requires |c.refs| == 4 && Volume(c.refs[0]) <= 61 && forall i | 1 <= i < 4 :: c.refs[i].refs == []
    ensures Volume(c) == 4 + Volume(c.refs[0]) && PartsOf(c) == PartsOf(c.refs[0])
  {
    forall i | 1 <= i < 4
      ensures Volume(c.refs[i]) == 1 && PartsOf(c.refs[i]) == []
    {
      NoRefs(c.refs[i]);
    }
    FourRefs(c, 1);
    NoPartRefs(c, 4);
  }

  lemma OneMoreChainCell(part: Cell, m: nat)
    requires IsOnePart(part) && m > 0 && Volume(KeptChain(part, m - 1)) <= 61
    ensures Volume(KeptChain(part, m)) == 4 + Volume(KeptChain(part, m - 1))
    ensures PartsOf(KeptChain(part, m)) == PartsOf(KeptChain(part, m - 1))
  {
    ChainRefKept(part, m, 0);
    ChainRefKept(part, m, 1);
    ChainRefKept(part, m, 2);
    ChainRefKept(part, m, 3);
    FourMoreCells(KeptChain(part, m));
  }

  lemma {:induction false} KeptChainParts(part: Cell, m: nat)
    requires IsOnePart(part) && m <= 16
    ensures Volume(KeptChain(part, m)) == 1 + 4 * m
    ensures PartsOf(KeptChain(part, m)) == [SubTree(part, SharedParam(part), 0)]
  {
    if m == 0 {
      ParamIsKept(part);
      OneLargeRef(SharedParam(part));
    } else {
      KeptChainParts(part, m - 1);
      OneMoreChainCell(part, m);
    }
  }

  /** From sixteen cells on, what the proof keeps of the chain becomes a part itself. */
  lemma KeptConfigParts(part: Cell, m: nat)
    requires IsOnePart(part) && m <= 16
    ensures Roots(PartsOf(KeptConfig(part, m))) == if m < 16 then [part] else [part, KeptChain(part, m)]
  {
    KeptChainParts(part, m);
    ConfigRefKept(part, m);
    if m < 16 {
      OneSmallRef(KeptConfig(part, m));
    } else {
      OneLargeRef(KeptConfig(part, m));
    }
  }

  lemma PartIsKept(part: Cell, parts: seq<Cell>)
    requires IsOnePart(part) && part in parts
    ensures IsKept(parts, Hash0(part))
  {
    var l :| 0 <= l < |parts| && parts[l] == part;
    WholeHasNoStub(part, Hashes(parts));
  }

  /** What the proof keeps of the chain has pruned branches in the places of the part. */
  lemma ChainIsNotKept(part: Cell, m: nat, parts: seq<Cell>)
    requires IsOnePart(part) && m > 0 && parts == [part, KeptChain(part, m)]
    ensures !EveryPartKept(parts)
  {
    var kept := KeptChain(part, m);
    ChainRefKept(part, m, 1);
    assert Hash0(kept.refs[1]) == Hash0(part);
    RefHashSmaller(kept, 1);
    SecondIsNotKept(part, kept, parts);
  }

  lemma SecondIsNotKept(part: Cell, kept: Cell, parts: seq<Cell>)
    requires parts == [part, kept] && Hash0(part) != Hash0(kept)
    requires |kept.refs| > 1 && kept.refs[1].kind.Pruned? && Hash0(kept.refs[1]) == Hash0(part)
    ensures !EveryPartKept(parts)
  {
    assert Hash0(parts[0]) in Hashes(parts) && Hash0(parts[1]) in Hashes(parts);
    assert !NoStubCut(kept, Hashes(parts));
    assert !IsKept(parts, Hash0(parts[1]));
  }

  lemma SharedPartsKept(part: Cell, m: nat, parts: seq<Cell>)
    requires IsOnePart(part) && m <= 16
    requires parts == if m < 16 then [part] else [part, KeptChain(part, m)]
    ensures part in parts && (EveryPartKept(parts) <==> m < 16)
  {
    assert parts[0] == part;
    PartIsKept(part, parts);
    if m == 16 { ChainIsNotKept(part, m, parts); }
  }

  // ----------------------------------------------------------------- the blocks

  lemma PartIsCut(bits: seq<bool>, part: Cell, m: nat)
    requires IsOnePart(part)
    ensures Hash0(part) != Hash0(SharedExtra(bits, part, m))
  {
    ChainIsLarger(part, m);
    SharedBlockIsFlawless(bits, part, m);
    RefHashSmaller(SharedConfig(part, m), 0);
    RefHashSmaller(SharedCustom(bits, part, m), 0);
    RefHashSmaller(SharedExtra(bits, part, m), 3);
  }

  /**
   * The first piece never has the hash of such a block, because the part is also a reference of its root. Grafted
   * together, the pieces have it and lead to parameter 34 as long as the chain has less than sixteen cells; with
   * sixteen a path cell becomes a part that has pruned branches for the other part, and the pieces lead there no more.
   */
  lemma SharedBlockProves(bits: seq<bool>, part: Cell, m: nat) returns (a: Address)
    requires IsOnePart(part) && IsKeyExtra(SharedCustom(bits, part, m)) && m <= 16
    ensures var root := SharedBlock(bits, part, m);
            && IsFlawless(root) && PathToConfig(root, SharedHash(part)).Some?
            && IsAddress(root, a) && At(root, a) == SharedParam(part)
            && var proof := ValidatorsProof(root, PathToConfig(root, SharedHash(part)).value);
               && HasConfig(proof) && Finalized(Pieces(proof)[0]) && AllFinalized(Pieces(proof)[1..])
               && Hash0(Pieces(proof)[0]) != Hash0(root)
               && var whole := Graft(Pieces(proof)[0], Pieces(proof)[1..]);
                  && (IsAddress(whole, a) <==> m < 16)
                  && (m < 16 ==> Hash0(whole) == Hash0(root) && At(whole, a) == SharedParam(part))
  {
    SharedPathIsFound(bits, part, m);
    SharedBlockIsFlawless(bits, part, m);
    a := SharedProofProves(bits, part, m, ValidatorsProof(SharedBlock(bits, part, m), SharedPath(bits, part, m)));
    ParamIsEnd(SharedBlock(bits, part, m), part, a);
  }

  lemma SharedProofProves(bits: seq<bool>, part: Cell, m: nat, proof: Cell) returns (a: Address)
    requires IsOnePart(part) && IsKeyExtra(SharedCustom(bits, part, m)) && m <= 16
    requires proof == ValidatorsProof(SharedBlock(bits, part, m), SharedPath(bits, part, m))
    ensures var root := SharedBlock(bits, part, m);
            && IsAddress(root, a) && Hash0(At(root, a)) == Hash0(SharedParam(part))
            && HasConfig(proof) && Finalized(Pieces(proof)[0]) && AllFinalized(Pieces(proof)[1..])
            && Hash0(Pieces(proof)[0]) != Hash0(root)
            && var whole := Graft(Pieces(proof)[0], Pieces(proof)[1..]);
               && (IsAddress(whole, a) <==> m < 16)
               && (m < 16 ==> Hash0(whole) == Hash0(root) && At(whole, a) == At(root, a))
  {
    SharedPathIsFound(bits, part, m);
    SharedBlockIsFlawless(bits, part, m);
    SharedProofParts(bits, part, m, proof);
    FirstPieceLosesHash(bits, part, m, proof);
    a := BlockPiecesProveValidators(SharedBlock(bits, part, m), SharedHash(part), proof);
  }

  lemma SharedProofParts(bits: seq<bool>, part: Cell, m: nat, proof: Cell)
    requires IsOnePart(part) && IsKeyExtra(SharedCustom(bits, part, m)) && m <= 16
    requires proof == ValidatorsProof(SharedBlock(bits, part, m), SharedPath(bits, part, m))
    ensures NoMerkle(proof) && HasConfig(proof)
    ensures var parts := Roots(PartsOf(ProofConfig(proof)));
            Hash0(part) in Hashes(parts) && (EveryPartKept(parts) <==> m < 16)
  {
    var _ := SharedProof(bits, part, m, proof);
    KeptConfigParts(part, m);
    var parts := Roots(PartsOf(ProofConfig(proof)));
    SharedPartsKept(part, m, parts);
    assert parts[0] == part;
  }

  lemma FirstPieceLosesHash(bits: seq<bool>, part: Cell, m: nat, proof: Cell)
    requires IsOnePart(part) && IsKeyExtra(SharedCustom(bits, part, m)) && NoMerkle(proof) && HasConfig(proof)
    requires proof == ValidatorsProof(SharedBlock(bits, part, m), SharedPath(bits, part, m))
    requires Hash0(part) in Hashes(Roots(PartsOf(ProofConfig(proof))))
    ensures Hash0(Pieces(proof)[0]) != Hash0(SharedBlock(bits, part, m))
  {
    SharedPathIsFound(bits, part, m);
    SharedBlockIsFlawless(bits, part, m);
    PartIsCut(bits, part, m);
    PartElsewhereLosesRootHash(SharedBlock(bits, part, m), SharedHash(part), proof, 1);
  }

  /** Whole trees with the hash of parameter 34 are parameter 34. */
  lemma ParamIsEnd(root: Cell, part: Cell, a: Address)
    requires IsFlawless(root) && IsFlawless(part)
    requires IsAddress(root, a) && Hash0(At(root, a)) == Hash0(SharedParam(part))
    ensures At(root, a) == SharedParam(part)
  {
    FlawlessAbove(SharedParam(part));
    FinalizedIsPlain(root);
    FinalizedIsPlain(SharedParam(part));
    AtIsWhole(root, a);
    WholeHashDetermines(At(root, a), SharedParam(part));
  }

  lemma {:induction false} AtIsWhole(c: Cell, a: Address)
    requires IsAddress(c, a) && Plain(c) && Whole(c) && NoMerkle(c)
    ensures Plain(At(c, a)) && Whole(At(c, a))
    decreases |a|
  {
    if a != [] { AtIsWhole(c.refs[a[0]], a[1..]); }
  }

  // --------------------------------------------------------------- one such block

  /** Four times four times four cells, and those above them. */
  function Bush(n: nat): Cell {
    Cell(Ordinary, [], if n == 0 then [] else [Bush(n - 1), Bush(n - 1), Bush(n - 1), Bush(n - 1)])
  }

  function BushSize(n: nat): nat {
    if n == 0 then 1 else 1 + 4 * BushSize(n - 1)
  }

  lemma {:induction false} BushIsWhole(n: nat)
    ensures IsFlawless(Bush(n))
  {
    if n > 0 { BushIsWhole(n - 1); }
    FlawlessAbove(Bush(n));
  }

  /** A bush of up to 85 cells has no reference that is large enough to be a part. */
  lemma {:induction false} BushParts(n: nat)
    requires n > 0 ==> BushSize(n - 1) <= 32
    ensures Volume(Bush(n)) == BushSize(n) && PartsOf(Bush(n)) == []
  {
    var c := Bush(n);
    if n == 0 {
      NoRefs(c);
    } else {
      BushParts(n - 1);
      FourRefs(c, BushSize(n - 1));
      NoPartRefs(c, 4);
    }
  }

  lemma NoBits()
    ensures ReadUint8([]) == 0
  {
    var bits: seq<bool> := [];
    ZeroBits(seq(8, i requires 0 <= i < 8 => i < |bits| && bits[i]));
  }

  lemma BushIsOnePart()
    ensures IsOnePart(Bush(3))
  {
    BushIsWhole(3);
    assert BushSize(2) == 21 && BushSize(3) == 85;
    BushParts(3);
    NoBits();
  }

  /** Blocks of bushes: with fewer than sixteen cells above parameter 34 it is proven, with sixteen it is not. */
  lemma BushBlockProves(m: nat) returns (a: Address)
    requires m <= 16
    ensures var root := SharedBlock(KEY_BITS, Bush(3), m);
            && IsFlawless(root) && PathToConfig(root, SharedHash(Bush(3))).Some? && IsAddress(root, a)
            && var proof := ValidatorsProof(root, PathToConfig(root, SharedHash(Bush(3))).value);
               && HasConfig(proof) && Finalized(Pieces(proof)[0]) && AllFinalized(Pieces(proof)[1..])
               && Hash0(Pieces(proof)[0]) != Hash0(root)
               && (IsAddress(Graft(Pieces(proof)[0], Pieces(proof)[1..]), a) <==> m < 16)
  {
    BushIsOnePart();
    KeyBitsAreKey();
    a := SharedBlockProves(KEY_BITS, Bush(3), m);
  }
}
