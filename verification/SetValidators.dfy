/** From a key block to the pieces that prove its validator set. */
module SetValidators {
  import opened Cells
  import opened BitStrings
  import opened HashPreservation
  import opened BlockUtils
  import opened Volumes
  import opened ProofHashes
  import opened Paths
  import opened Grafting
  import opened Results

  // ------------------------------------------------------- the path to the config

  const MC_BLOCK_EXTRA := 0xcca5

  /** A masterchain extra that is marked as a key block and has a config. */
  predicate IsKeyExtra(custom: Cell) {
    |custom.bits| > 16 && BitsToNat(custom.bits[..16]) == MC_BLOCK_EXTRA && custom.bits[16] && custom.refs != []
  }

  predicate IsKeyBlock(root: Cell) {
    |root.refs| > 3 && root.refs[3].refs != [] && IsKeyExtra(root.refs[3].refs[|root.refs[3].refs| - 1])
  }

  function Extra(root: Cell): Cell
    requires IsKeyBlock(root)
  {
    root.refs[3]
  }

  function Custom(root: Cell): Cell
    requires IsKeyBlock(root)
  {
    Extra(root).refs[|Extra(root).refs| - 1]
  }

  function Config(root: Cell): Cell
    requires IsKeyBlock(root)
  {
    Custom(root).refs[|Custom(root).refs| - 1]
  }

  function ConfigAddress(root: Cell): Address
    requires IsKeyBlock(root)
  {
    [3, |Extra(root).refs| - 1, |Custom(root).refs| - 1]
  }

  /** The path to config parameter 34; `param34` tells which hash a config dictionary stores under that key. */
  function PathToConfig(root: Cell, param34: Cell -> Option<Digest>): Option<seq<Cell>> {
    if !IsKeyBlock(root) then None
    else
      match param34(Config(root))
      case None => None
      case Some(hash) =>
        match FirstEnding(Chains(Config(root)), hash)
        case None => None
        case Some(p) => Some([root, Extra(root), Custom(root)] + p)
  }

  method BuildPathToConfig(c: Cell, param34: Cell -> Option<Digest>) returns (r: Option<seq<Cell>>)
    ensures r == PathToConfig(c, param34)
  {
    var path := [c];
    if |c.refs| <= 3 {
      return None;
    }
    var extra := c.refs[3];
    path := path + [extra];
    if |extra.refs| == 0 {
      return None;
    }
    var custom := extra.refs[|extra.refs| - 1];
    path := path + [custom];
    if |custom.bits| < 17 || BitsToNat(custom.bits[..16]) != MC_BLOCK_EXTRA {
      return None;
    }
    var keyBlock := custom.bits[16];
    if !keyBlock || |custom.refs| == 0 {
      return None;
    }
    var config := custom.refs[|custom.refs| - 1];
    assert IsKeyExtra(custom) && IsKeyBlock(c) && config == Config(c);
    var hash34 := param34(config);
    if hash34.None? {
      return None;
    }
    var p := BuildPath(hash34.value, config);
    if p.None? {
      return None;
    }
    assert path == [c, extra, custom];
    r := Some(path + p.value);
  }

  /** The path leads, by way of the config, to the first cell of the config with the hash of parameter 34. */
  lemma PathToConfigLeads(root: Cell, param34: Cell -> Option<Digest>) returns (a: Address)
    requires PathToConfig(root, param34).Some?
    ensures IsAddress(root, ConfigAddress(root) + a) && IsFirstWith(Config(root), param34(Config(root)).value, a)
    ensures PathToConfig(root, param34).value == Along(root, ConfigAddress(root) + a)
    ensures At(root, ConfigAddress(root) + a) == At(Config(root), a)
  {
    a := PathToFirst(Config(root), param34(Config(root)).value);
    AlongThree(root, 3, |Extra(root).refs| - 1, |Custom(root).refs| - 1, a);
  }

  /** 0xcca5 and the mark of a key block. */
  const KEY_BITS := HEX_C + HEX_C + HEX_A + HEX_5 + [true]

  lemma KeyBitsAreKey()
    ensures |KEY_BITS| == 17 && BitsToNat(KEY_BITS[..16]) == MC_BLOCK_EXTRA && KEY_BITS[16]
  {
    FourBits([], true, true, false, false);
    assert [] + HEX_C == HEX_C;
    FourBits(HEX_C, true, true, false, false);
    FourBits(HEX_C + HEX_C, true, false, true, false);
    FourBits(HEX_C + HEX_C + HEX_A, false, true, false, true);
    assert KEY_BITS[..16] == HEX_C + HEX_C + HEX_A + HEX_5;
  }

  /** A masterchain extra counts exactly if it starts with these bits and has a reference. */
  lemma KeyExtraMeans(custom: Cell)
    ensures IsKeyExtra(custom) <==> KEY_BITS <= custom.bits && custom.refs != []
  {
    KeyBitsAreKey();
    if |custom.bits| > 16 {
      var tag := custom.bits[..16];
      if BitsToNat(tag) == MC_BLOCK_EXTRA { SameBits(tag, KEY_BITS[..16]); }
      assert KEY_BITS == KEY_BITS[..16] + [true];
      assert custom.bits[..17] == tag + [custom.bits[16]];
      assert KEY_BITS <= custom.bits <==> custom.bits[..17] == KEY_BITS;
    }
  }

  /**
   * The path exists exactly for a key block whose config has a cell with the hash of parameter 34. It goes by the
   * fourth reference of the block and the last reference of each cell on to the config, and there to the first such
   * cell.
   */
  lemma PathToConfigExactly(root: Cell, param34: Cell -> Option<Digest>) returns (a: Address)
    ensures PathToConfig(root, param34).Some? <==>
            && |root.refs| > 3 && root.refs[3].refs != []
            && var custom := root.refs[3].refs[|root.refs[3].refs| - 1];
               && KEY_BITS <= custom.bits && custom.refs != []
               && var config := custom.refs[|custom.refs| - 1];
                  param34(config).Some? && HasHash(config, param34(config).value)
    ensures PathToConfig(root, param34).Some? ==>
              var extra := root.refs[3];
              var custom := extra.refs[|extra.refs| - 1];
              var config := custom.refs[|custom.refs| - 1];
              && IsFirstWith(config, param34(config).value, a)
              && PathToConfig(root, param34).value == [root, extra, custom] + Along(config, a)
  {
    a := [];
    if |root.refs| > 3 && root.refs[3].refs != [] {
      KeyExtraMeans(root.refs[3].refs[|root.refs[3].refs| - 1]);
      if IsKeyBlock(root) && param34(Config(root)).Some? {
        a := PathToFirst(Config(root), param34(Config(root)).value);
      }
    }
  }

  lemma AlongThree(c: Cell, i: nat, j: nat, k: nat, a: Address)
    requires i < |c.refs| && j < |c.refs[i].refs| && k < |c.refs[i].refs[j].refs|
    requires IsAddress(c.refs[i].refs[j].refs[k], a)
    ensures var below := c.refs[i].refs[j].refs[k];
            && IsAddress(c, [i, j, k] + a) && At(c, [i, j, k] + a) == At(below, a)
            && Along(c, [i, j, k] + a) == [c, c.refs[i], c.refs[i].refs[j]] + Along(below, a)
  {
    var d, e := c.refs[i], c.refs[i].refs[j];
    AlongCons(e, k, a);
    AlongCons(d, j, [k] + a);
    AlongCons(c, i, [j] + ([k] + a));
    assert [i, j, k] + a == [i] + ([j] + ([k] + a));
    assert [c, d, e] + Along(e.refs[k], a) == [c] + ([d] + ([e] + Along(e.refs[k], a)));
  }

  lemma AlongCons(c: Cell, i: nat, a: Address)
    requires i < |c.refs| && IsAddress(c.refs[i], a)
    ensures IsAddress(c, [i] + a) && Along(c, [i] + a) == [c] + Along(c.refs[i], a)
    ensures At(c, [i] + a) == At(c.refs[i], a)
  {
    assert ([i] + a)[1..] == a;
  }

  // ------------------------------------------------------------- the pieces

  function Roots(parts: seq<SubTree>): (r: seq<Cell>)
    ensures |r| == |parts| && forall j | 0 <= j < |r| :: r[j] == parts[j].root
  {
    seq(|parts|, j requires 0 <= j < |parts| => parts[j].root)
  }

  /** The proof before it is split: the path to parameter 34, all of that parameter, and the block info. */
  function ValidatorsProof(root: Cell, path: seq<Cell>): Cell
    requires path != [] && path[0] == root && root.refs != []
  {
    var proof := ProofOf(path, true);
    proof.(refs := proof.refs[0 := ProofOf([root.refs[0]], false)])
  }

  predicate HasConfig(proof: Cell) {
    |proof.refs| > 3 && |proof.refs[3].refs| > 3 && proof.refs[3].refs[3].refs != []
  }

  function ProofConfig(proof: Cell): Cell
    requires HasConfig(proof)
  {
    var custom := proof.refs[3].refs[3];
    custom.refs[|custom.refs| - 1]
  }

  /** The pruned root, followed by the parts of its config. */
  function Pieces(proof: Cell): seq<Cell>
    requires HasConfig(proof)
  {
    var parts := Roots(PartsOf(ProofConfig(proof)));
    [CutExcept(proof, Hashes(parts))] + CutAll(parts, Hashes(parts))
  }

  method BuildValidatorsData(root: Cell, param34: Cell -> Option<Digest>) returns (r: Result<seq<Cell>>)
    ensures r.Ok? <==>
              PathToConfig(root, param34).Some? && HasConfig(ValidatorsProof(root, PathToConfig(root, param34).value))
    ensures r.Ok? ==> r.value == Pieces(ValidatorsProof(root, PathToConfig(root, param34).value))
  {
    var p := BuildPathToConfig(root, param34);
    if p.None? {
      return Error("Path not found");
    }
    var built := BuildProof(p.value, true);
    var info := BuildProof([root.refs[0]], false);
    var proof := built.value.(refs := built.value.refs[0 := info.value]);
    if |proof.refs[3].refs| <= 3 || |proof.refs[3].refs[3].refs| == 0 {
      return Error("no config in the proof");
    }
    var pieces := SplitProof(proof);
    r := Ok(pieces);
  }

  method PartsIndex(parts: seq<SubTree>) returns (keys: set<Digest>)
    ensures keys == Hashes(Roots(parts))
  {
    ghost var roots := Roots(parts);
    keys := {};
    for i := 0 to |parts|
      invariant keys == Hashes(roots[..i])
    {
      HashesOfPrefix(roots, i);
      keys := keys + {Hash0(parts[i].root)};
    }
    assert roots[..|parts|] == roots;
  }

  method MakeLeaves(parts: seq<SubTree>, keys: set<Digest>) returns (leaves: seq<Cell>)
    ensures leaves == CutAll(Roots(parts), keys)
  {
    leaves := [];
    for i := 0 to |parts|
      invariant |leaves| == i && forall j | 0 <= j < i :: leaves[j] == CutExcept(parts[j].root, keys)
    {
      var leaf := BuildProofExcept(parts[i].root, keys);
      leaves := leaves + [leaf];
    }
  }

  method SplitProof(proof: Cell) returns (proofParts: seq<Cell>)
    requires HasConfig(proof)
    ensures proofParts == Pieces(proof)
  {
    var list := new PartList();
    var _ := PrintTreeVolume(ProofConfig(proof), list);
    assert list.parts == PartsOf(ProofConfig(proof));
    var keysPartsIndex := PartsIndex(list.parts);
    proofParts := MakeLeaves(list.parts, keysPartsIndex);
    var proofPruned := BuildProofExcept(proof, keysPartsIndex);
    proofParts := [proofPruned] + proofParts;
  }

  lemma HashesOfPrefix(roots: seq<Cell>, i: nat)
    requires i < |roots|
    ensures Hashes(roots[..i + 1]) == Hashes(roots[..i]) + {Hash0(roots[i])}
  {
    var next := roots[..i + 1];
    assert forall j | 0 <= j < i :: next[j] == roots[..i][j];
    assert next[i] == roots[i];
  }

  lemma PiecesAre(proof: Cell, parts: seq<Cell>)
    requires HasConfig(proof) && parts == Roots(PartsOf(ProofConfig(proof)))
    ensures |Pieces(proof)| == 1 + |parts|
    ensures Pieces(proof)[0] == CutExcept(proof, Hashes(parts)) && Pieces(proof)[1..] == CutAll(parts, Hashes(parts))
  {
  }

  lemma PartsAreListed(parts: seq<SubTree>)
    ensures Lists(Hashes(Roots(parts)), parts)
  {
    forall p | p in parts
      ensures Hash0(p.root) in Hashes(Roots(parts))
    {
      var j :| 0 <= j < |parts| && parts[j] == p;
      assert Roots(parts)[j] == p.root;
    }
  }

  /** Every part that is emitted, and what stays of the config, holds at most 129 copied cells. */
  lemma PiecesAreSmall(proof: Cell)
    requires HasConfig(proof) && AtMostFourRefs(ProofConfig(proof))
    ensures var roots := Roots(PartsOf(ProofConfig(proof)));
            && CopiedCells(ProofConfig(proof), Hashes(roots)) <= 129
            && Pieces(proof)[1..] == CutAll(roots, Hashes(roots))
            && forall j | 0 <= j < |roots| :: CopiedCells(roots[j], Hashes(roots)) <= 129
  {
    var parts := PartsOf(ProofConfig(proof));
    var roots := Roots(parts);
    PartsAreListed(parts);
    EmittedPiecesAreSmall(ProofConfig(proof), Hashes(roots));
    PiecesAre(proof, roots);
    forall j | 0 <= j < |roots|
      ensures CopiedCells(roots[j], Hashes(roots)) <= 129
    {
      assert parts[j] in parts && roots[j] == parts[j].root;
    }
  }
}
