/** Cells, their level masks, and the hashes and depths that finalising a tree of cells computes. */
module Cells {

  /** Which of the levels 1, 2 and 3 are significant (the three bits of a level mask). */
  datatype LevelMask = LevelMask(one: bool, two: bool, three: bool) {
    predicate Has(level: nat) {
      (level == 1 && one) || (level == 2 && two) || (level == 3 && three)
    }

    function Or(other: LevelMask): LevelMask {
      LevelMask(one || other.one, two || other.two, three || other.three)
    }

    /** A Merkle cell hides one level of the cells below it. */
    function Shift(): LevelMask {
      LevelMask(two, three, false)
    }

    function Below(level: nat): LevelMask {
      LevelMask(one && level >= 1, two && level >= 2, three && level >= 3)
    }

    function Count(): nat {
      (if one then 1 else 0) + (if two then 1 else 0) + (if three then 1 else 0)
    }
  }

  const NO_LEVELS := LevelMask(false, false, false)
  const LEVEL_ONE := LevelMask(true, false, false)

  /** The type of a cell. Exotic kinds carry what their bits encode. */
  datatype Kind =
    | Ordinary
    | Pruned(mask: LevelMask, hashes: seq<Digest>, depths: seq<nat>)
    | Library
    | MerkleProof(hash: Digest, depth: nat)
    | MerkleUpdate(oldHash: Digest, newHash: Digest, oldDepth: nat, newDepth: nat)
  {
    predicate IsMerkle() { MerkleProof? || MerkleUpdate? }

    predicate IsExotic() { !Ordinary? }

    /** The level at which a cell of this kind looks at its references. */
    function ChildLevel(level: nat): nat {
      if IsMerkle() then level + 1 else level
    }
  }

  datatype Cell = Cell(kind: Kind, bits: seq<bool>, refs: seq<Cell>)

  /** A digest is the hashed representation itself, so distinct representations never collide. */
  datatype Digest = Digest(mask: LevelMask, content: Content, depths: seq<nat>, children: seq<Digest>)
  datatype Content = Own(kind: Kind, bits: seq<bool>) | Lower(hash: Digest)

  function MaskOfRefs(refs: seq<Cell>): LevelMask {
    if refs == [] then NO_LEVELS else Mask(refs[0]).Or(MaskOfRefs(refs[1..]))
  }

  function Mask(c: Cell): LevelMask {
    match c.kind
    case Ordinary => MaskOfRefs(c.refs)
    case Pruned(mask, _, _) => mask
    case Library => NO_LEVELS
    case MerkleProof(_, _) => MaskOfRefs(c.refs).Shift()
    case MerkleUpdate(_, _, _, _) => MaskOfRefs(c.refs).Shift()
  }

  function MaxOf(s: seq<nat>): nat {
    if s == [] then 0 else if s[0] >= MaxOf(s[1..]) then s[0] else MaxOf(s[1..])
  }

  function DepthAt(c: Cell, level: nat): nat
    decreases c, level + 1
  {
    if c.kind.Pruned? then
      var k := c.kind.mask.Below(level).Count();
      if k < c.kind.mask.Count() && k < |c.kind.depths| then c.kind.depths[k] else 0
    else if level > 0 && !Mask(c).Has(level) then DepthAt(c, level - 1)
    else if c.refs == [] then 0
    else 1 + MaxOf(RefDepths(c, c.kind.ChildLevel(level)))
  }

  function RefDepths(c: Cell, level: nat): (ds: seq<nat>)
    ensures |ds| == |c.refs|
    ensures forall i | 0 <= i < |ds| :: ds[i] == DepthAt(c.refs[i], level)
    decreases c, 0
  {
    seq(|c.refs|, i requires 0 <= i < |c.refs| => DepthAt(c.refs[i], level))
  }

  function HashAt(c: Cell, level: nat): Digest
    decreases c, level + 1
  {
    if c.kind.Pruned? then
      var k := c.kind.mask.Below(level).Count();
      if k < c.kind.mask.Count() && k < |c.kind.hashes| then c.kind.hashes[k]
      else Digest(c.kind.mask, Own(c.kind, c.bits), [], [])
    else if level > 0 && !Mask(c).Has(level) then HashAt(c, level - 1)
    else
      Digest(Mask(c).Below(level),
             if level == 0 then Own(c.kind, c.bits) else Lower(HashAt(c, level - 1)),
             RefDepths(c, c.kind.ChildLevel(level)),
             RefHashes(c, c.kind.ChildLevel(level)))
  }

  function RefHashes(c: Cell, level: nat): (hs: seq<Digest>)
    ensures |hs| == |c.refs|
    ensures forall i | 0 <= i < |hs| :: hs[i] == HashAt(c.refs[i], level)
    decreases c, 0
  {
    seq(|c.refs|, i requires 0 <= i < |c.refs| => HashAt(c.refs[i], level))
  }

  /** What `getHash()` returns. */
  function Hash0(c: Cell): Digest {
    HashAt(c, 0)
  }

  function Depth0(c: Cell): nat {
    DepthAt(c, 0)
  }

  /** What `depth[0]` holds: the level-0 depth, except that a pruned branch only has its own depth, zero. */
  function OwnDepth(c: Cell): nat {
    if c.kind.Pruned? then 0 else Depth0(c)
  }

  /** The pruned branch that stands for `c` once `c` is cut away. */
  function FreshStub(c: Cell): Cell {
    Cell(Pruned(LEVEL_ONE, [Hash0(c)], [OwnDepth(c)]), [], [])
  }

  /** What finalising checks of one cell (sizes of bit strings and the depth limit aside). */
  predicate FinalizedNode(c: Cell) {
    match c.kind
    case Ordinary => true
    case Pruned(mask, hashes, depths) =>
      c.refs == [] && c.bits == [] && mask.Count() > 0 && |hashes| == |depths| == mask.Count()
    case Library => c.refs == []
    case MerkleProof(h, d) =>
      c.bits == [] && |c.refs| == 1 && h == Hash0(c.refs[0]) && d == Depth0(c.refs[0])
    case MerkleUpdate(h0, h1, d0, d1) =>
      && c.bits == [] && |c.refs| == 2
      && h0 == Hash0(c.refs[0]) && d0 == Depth0(c.refs[0])
      && h1 == Hash0(c.refs[1]) && d1 == Depth0(c.refs[1])
  }

  predicate Finalized(c: Cell) {
    FinalizedNode(c) && forall i | 0 <= i < |c.refs| :: Finalized(c.refs[i])
  }

  /** Every pruned branch of the tree is a plain level-1 stub, the only kind this repository writes. */
  predicate PlainStubs(c: Cell) {
    && (c.kind.Pruned? ==> c.kind.mask == LEVEL_ONE)
    && forall i | 0 <= i < |c.refs| :: PlainStubs(c.refs[i])
  }

  /** An unsigned integer, most significant bit first. */
  function BitsToNat(bits: seq<bool>): nat {
    if bits == [] then 0
    else 2 * BitsToNat(bits[..|bits| - 1]) + if bits[|bits| - 1] then 1 else 0
  }

  predicate AtMostFourRefs(c: Cell) {
    |c.refs| <= 4 && forall i | 0 <= i < |c.refs| :: AtMostFourRefs(c.refs[i])
  }

  function CellCount(c: Cell): nat
    decreases c, |c.refs| + 1
  {
    1 + CountRefs(c, |c.refs|)
  }

  /** The cells below the first `k` references of `c`. */
  function CountRefs(c: Cell, k: nat): nat
    requires k <= |c.refs|
    decreases c, k
  {
    if k == 0 then 0 else CountRefs(c, k - 1) + CellCount(c.refs[k - 1])
  }

  lemma MaskOfRefsHas(refs: seq<Cell>, level: nat)
    ensures MaskOfRefs(refs).Has(level) <==> exists i | 0 <= i < |refs| :: Mask(refs[i]).Has(level)
  {
    if refs != [] {
      MaskOfRefsHas(refs[1..], level);
      if i :| 0 <= i < |refs| && Mask(refs[i]).Has(level) {
        if i > 0 { assert refs[1..][i - 1] == refs[i]; }
      }
    }
  }

  lemma NodeDigest(c: Cell)
    requires !c.kind.Pruned?
    ensures Hash0(c).content == Own(c.kind, c.bits)
    ensures Hash0(c).children == RefHashes(c, c.kind.ChildLevel(0))
    ensures Hash0(c).depths == RefDepths(c, c.kind.ChildLevel(0))
  {
  }

  /** `h` is hashed as a part of `d`: for a child, or as what a Merkle cell says about a child. */
  predicate IsPartOf(h: Digest, d: Digest) {
    || h in d.children
    || (d.content.Own? && d.content.kind.MerkleProof? && h == d.content.kind.hash)
    || (d.content.Own? && d.content.kind.MerkleUpdate? && h in [d.content.kind.oldHash, d.content.kind.newHash])
  }

  lemma PartSmaller(h: Digest, d: Digest)
    requires IsPartOf(h, d)
    ensures h < d
  {
  }

  lemma ChildHashIsPart(c: Cell, i: nat)
    requires c.kind.Ordinary? && i < |c.refs|
    ensures IsPartOf(Hash0(c.refs[i]), Hash0(c))
  {
    NodeDigest(c);
    assert Hash0(c).children[i] == RefHashes(c, 0)[i];
  }

  lemma MerkleHashIsPart(c: Cell, h: Digest)
    requires || (c.kind.MerkleProof? && h == c.kind.hash)
             || (c.kind.MerkleUpdate? && (h == c.kind.oldHash || h == c.kind.newHash))
    ensures IsPartOf(h, Hash0(c))
  {
    NodeDigest(c);
  }

  /** The level-0 hash of a reference is a proper part of the level-0 hash of its parent. */
  lemma RefHashSmaller(c: Cell, i: nat)
    requires FinalizedNode(c) && i < |c.refs|
    ensures Hash0(c.refs[i]) < Hash0(c)
  {
    if c.kind.Ordinary? {
      ChildHashIsPart(c, i);
    } else {
      MerkleHashIsPart(c, Hash0(c.refs[i]));
    }
    PartSmaller(Hash0(c.refs[i]), Hash0(c));
  }
}
