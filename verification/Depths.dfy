/** What level masks and depths mean for the positions of a tree, and what a pruned branch that is cut stores. */
module Depths {
  import opened Cells
  import opened HashPreservation
  import opened BlockUtils
  import opened Paths
  import opened Grafting

  // --------------------------------------------------------------- level masks

  /** The Merkle cells on the way from `c` to a position below it. */
  function Merkles(c: Cell, a: Address): nat
    requires IsAddress(c, a)
    decreases |a|
  {
    if a == [] then 0 else (if c.kind.IsMerkle() then 1 else 0) + Merkles(c.refs[a[0]], a[1..])
  }

  /** At this position stands a pruned branch that makes the level significant for `c`. */
  predicate HidesLevel(c: Cell, level: nat, a: Address) {
    IsAddress(c, a) && At(c, a).kind.Pruned? && At(c, a).kind.mask.Has(level + Merkles(c, a))
  }

  lemma HidesBelow(c: Cell, level: nat, i: nat, a: Address)
    requires i < |c.refs| && IsAddress(c.refs[i], a)
    ensures HidesLevel(c, level, [i] + a) <==> HidesLevel(c.refs[i], c.kind.ChildLevel(level), a)
  {
    assert ([i] + a)[1..] == a;
  }

  /** A level is significant exactly when a pruned branch hides it, each Merkle cell above taking one level away. */
  lemma {:induction false} MaskMeans(c: Cell, level: nat)
    requires Finalized(c) && level >= 1
    ensures Mask(c).Has(level) <==> exists a :: HidesLevel(c, level, a)
    decreases c
  {
    var z := c.kind.ChildLevel(level);
    forall i | 0 <= i < |c.refs|
      ensures Mask(c.refs[i]).Has(z) <==> exists a :: HidesLevel(c.refs[i], z, a)
    {
      MaskMeans(c.refs[i], z);
    }
    MaskMeansHere(c, level);
  }

  lemma MaskMeansHere(c: Cell, level: nat)
    requires FinalizedNode(c) && level >= 1
    requires var z := c.kind.ChildLevel(level);
             forall i | 0 <= i < |c.refs| :: Mask(c.refs[i]).Has(z) <==> exists a :: HidesLevel(c.refs[i], z, a)
    ensures Mask(c).Has(level) <==> exists a :: HidesLevel(c, level, a)
  {
    assert HidesLevel(c, level, []) <==> c.kind.Pruned? && c.kind.mask.Has(level);
    if Mask(c).Has(level) && !c.kind.Pruned? {
      var z := c.kind.ChildLevel(level);
      MaskAbove(c, level);
      var i :| 0 <= i < |c.refs| && Mask(c.refs[i]).Has(z);
      var a :| HidesLevel(c.refs[i], z, a);
      HidesBelow(c, level, i, a);
    }
    forall a | HidesLevel(c, level, a) && a != []
      ensures Mask(c).Has(level)
    {
      HiddenBelow(c, level, a);
    }
  }

  lemma HiddenBelow(c: Cell, level: nat, a: Address)
    requires FinalizedNode(c) && level >= 1 && a != [] && HidesLevel(c, level, a)
    requires var z := c.kind.ChildLevel(level);
             forall i | 0 <= i < |c.refs| :: Mask(c.refs[i]).Has(z) <==> exists a :: HidesLevel(c.refs[i], z, a)
    ensures Mask(c).Has(level)
  {
    MaskAbove(c, level);
    HidesBelow(c, level, a[0], a[1..]);
    assert [a[0]] + a[1..] == a;
  }

  lemma MaskAbove(c: Cell, level: nat)
    requires FinalizedNode(c) && level >= 1 && !c.kind.Pruned?
    ensures Mask(c).Has(level) <==> exists i | 0 <= i < |c.refs| :: Mask(c.refs[i]).Has(c.kind.ChildLevel(level))
  {
    MaskOfRefsHas(c.refs, c.kind.ChildLevel(level));
  }

  /** The significant levels from 1 up to `level`. */
  function Significant(mask: LevelMask, level: nat): set<nat> {
    set x | 1 <= x <= level && mask.Has(x)
  }

  lemma {:induction false} CountMeans(mask: LevelMask, level: nat)
    ensures mask.Below(level).Count() == |Significant(mask, level)|
    decreases level
  {
    if level > 0 {
      CountMeans(mask, level - 1);
      OneMoreLevel(mask, level);
      var before := Significant(mask, level - 1);
      if mask.Has(level) {
        assert Significant(mask, level) == before + {level};
      } else {
        assert Significant(mask, level) == before;
      }
    } else {
      assert Significant(mask, 0) == {};
    }
  }

  lemma OneMoreLevel(mask: LevelMask, level: nat)
    requires level > 0
    ensures mask.Below(level).Count() == mask.Below(level - 1).Count() + if mask.Has(level) then 1 else 0
  {
  }

  /** A pruned branch stores a hash and a depth for level 0 and each significant level but the highest. */
  lemma StubStores(c: Cell, level: nat)
    requires Finalized(c) && c.kind.Pruned?
    ensures var n := |Significant(c.kind.mask, level)|;
            if exists x :: x > level && c.kind.mask.Has(x) then
              n < |c.kind.hashes| && HashAt(c, level) == c.kind.hashes[n] && DepthAt(c, level) == c.kind.depths[n]
            else HashAt(c, level) == Digest(c.kind.mask, Own(c.kind, c.bits), [], []) && DepthAt(c, level) == 0
  {
    CountMeans(c.kind.mask, level);
    var mask := c.kind.mask;
    if mask.Below(level).Count() < mask.Count() {
      assert (mask.Has(1) && 1 > level) || (mask.Has(2) && 2 > level) || (mask.Has(3) && 3 > level);
    }
  }

  /** It is accepted exactly if it hides some level and has one hash and one depth for every level that it hides. */
  lemma StubAcceptedExactly(mask: LevelMask, hashes: seq<Digest>, depths: seq<nat>, refs: seq<Cell>)
    ensures Finalized(Cell(Pruned(mask, hashes, depths), [], refs)) <==>
            && refs == [] && (mask.one || mask.two || mask.three)
            && |hashes| == |depths| == |Significant(mask, 3)|
  {
    CountMeans(mask, 3);
  }

  // -------------------------------------------------------------------- depths

  /** The cells below `c` on the way to the position, and those below it that a pruned branch there stands for. */
  function WayLength(c: Cell, a: Address, level: nat): nat
    requires IsAddress(c, a)
  {
    var end := At(c, a).kind;
    |a| + if level == 0 && Merkles(c, a) == 0 && end.Pruned? && end.depths != [] then end.depths[0] else 0
  }

  /** No way is longer, and one is as long. Below a Merkle cell a pruned branch counts only as itself. */
  ghost predicate IsLongestWay(c: Cell, level: nat, d: nat) {
    (forall a | IsAddress(c, a) :: WayLength(c, a, level) <= d)
    && exists a | IsAddress(c, a) :: WayLength(c, a, level) == d
  }

  lemma WayBelow(c: Cell, i: nat, a: Address, level: nat)
    requires i < |c.refs| && IsAddress(c.refs[i], a)
    ensures IsAddress(c, [i] + a)
    ensures WayLength(c, [i] + a, level) == 1 + WayLength(c.refs[i], a, c.kind.ChildLevel(level))
  {
    assert ([i] + a)[1..] == a;
  }

  lemma {:induction false} MaxIsReached(s: seq<nat>) returns (i: nat)
    requires s != []
    ensures i < |s| && s[i] == MaxOf(s) && forall j | 0 <= j < |s| :: s[j] <= MaxOf(s)
  {
    i := 0;
    if |s| > 1 {
      var k := MaxIsReached(s[1..]);
      if s[0] < MaxOf(s[1..]) { i := k + 1; }
      forall j | 0 <= j < |s|
        ensures s[j] <= MaxOf(s)
      {
        if j > 0 { assert s[1..][j - 1] == s[j]; }
      }
    }
  }

  /** One cell above references whose longest ways are known. */
  lemma LongestAbove(c: Cell, level: nat)
    requires !c.kind.Pruned? && c.refs != []
    requires var z := c.kind.ChildLevel(level);
             forall i | 0 <= i < |c.refs| :: IsLongestWay(c.refs[i], z, DepthAt(c.refs[i], z))
    ensures IsLongestWay(c, level, 1 + MaxOf(RefDepths(c, c.kind.ChildLevel(level))))
  {
    var z := c.kind.ChildLevel(level);
    var k := MaxIsReached(RefDepths(c, z));
    forall a | IsAddress(c, a)
      ensures WayLength(c, a, level) <= 1 + MaxOf(RefDepths(c, z))
    {
      if a != [] {
        WayBelow(c, a[0], a[1..], level);
        assert [a[0]] + a[1..] == a;
        assert RefDepths(c, z)[a[0]] <= MaxOf(RefDepths(c, z));
      }
    }
    var b :| IsAddress(c.refs[k], b) && WayLength(c.refs[k], b, z) == DepthAt(c.refs[k], z);
    WayBelow(c, k, b, level);
  }

  /** An insignificant level 1 means that no pruned branch is reached without passing a Merkle cell. */
  lemma SameWays(c: Cell, a: Address)
    requires Finalized(c) && PlainStubs(c) && !Mask(c).Has(1) && IsAddress(c, a)
    ensures WayLength(c, a, 0) == WayLength(c, a, 1)
  {
    if At(c, a).kind.Pruned? && Merkles(c, a) == 0 {
      MaskMeans(c, 1);
      PlainAt(c, a);
      assert HidesLevel(c, 1, a);
    }
  }

  lemma {:induction false} PlainAt(c: Cell, a: Address)
    requires IsAddress(c, a)
    ensures PlainStubs(c) ==> PlainStubs(At(c, a))
    ensures Finalized(c) ==> Finalized(At(c, a))
    decreases |a|
  {
    if a != [] { PlainAt(c.refs[a[0]], a[1..]); }
  }

  /** An insignificant level has the depth of the level below it. */
  lemma LongestWayHigher(c: Cell, level: nat)
    requires Finalized(c) && PlainStubs(c) && !c.kind.Pruned? && level > 0 && !Mask(c).Has(level)
    requires IsLongestWay(c, level - 1, DepthAt(c, level - 1))
    ensures IsLongestWay(c, level, DepthAt(c, level))
  {
    forall a | IsAddress(c, a)
      ensures WayLength(c, a, level) == WayLength(c, a, level - 1)
    {
      if level == 1 { SameWays(c, a); }
    }
  }

  lemma {:induction false} DepthIsLongestWayAt(c: Cell, level: nat)
    requires Finalized(c) && PlainStubs(c)
    ensures IsLongestWay(c, level, DepthAt(c, level))
    decreases c, level
  {
    if c.kind.Pruned? {
      OnlyWay(c, level);
    } else if level > 0 && !Mask(c).Has(level) {
      DepthIsLongestWayAt(c, level - 1);
      LongestWayHigher(c, level);
    } else if c.refs == [] {
      OnlyWay(c, level);
    } else {
      forall i | 0 <= i < |c.refs|
        ensures IsLongestWay(c.refs[i], c.kind.ChildLevel(level), DepthAt(c.refs[i], c.kind.ChildLevel(level)))
      {
        DepthIsLongestWayAt(c.refs[i], c.kind.ChildLevel(level));
      }
      LongestAbove(c, level);
    }
  }

  lemma OnlyWay(c: Cell, level: nat)
    requires c.refs == []
    requires if c.kind.Pruned? then Finalized(c) && PlainStubs(c) else DepthAt(c, level) == 0
    ensures IsLongestWay(c, level, DepthAt(c, level))
  {
    assert IsAddress(c, []) && forall a | IsAddress(c, a) :: a == [];
    assert WayLength(c, [], level) == DepthAt(c, level);
  }

  /** The depth of a tree is the length of its longest way, as its pruned branches tell it. */
  lemma DepthIsLongestWay(c: Cell)
    requires Finalized(c) && PlainStubs(c)
    ensures forall a | IsAddress(c, a) :: WayLength(c, a, 0) <= Depth0(c)
    ensures exists a | IsAddress(c, a) :: WayLength(c, a, 0) == Depth0(c)
  {
    DepthIsLongestWayAt(c, 0);
  }

  lemma {:induction false} WholeLongestWay(c: Cell)
    requires Whole(c) && NoMerkle(c)
    ensures IsLongestWay(c, 0, Depth0(c))
    decreases c
  {
    if c.refs == [] {
      OnlyWay(c, 0);
    } else {
      forall i | 0 <= i < |c.refs|
        ensures IsLongestWay(c.refs[i], 0, Depth0(c.refs[i]))
      {
        WholeLongestWay(c.refs[i]);
      }
      LongestAbove(c, 0);
    }
  }

  lemma {:induction false} WholeEnds(c: Cell, a: Address)
    requires Whole(c) && NoMerkle(c) && IsAddress(c, a)
    ensures WayLength(c, a, 0) == |a|
    decreases |a|
  {
    if a != [] { WholeEnds(c.refs[a[0]], a[1..]); }
  }

  /** Without pruned branches and Merkle cells that is the number of steps to the deepest cell. */
  lemma DepthIsLongestAddress(c: Cell)
    requires Whole(c) && NoMerkle(c)
    ensures forall a | IsAddress(c, a) :: |a| <= Depth0(c)
    ensures exists a | IsAddress(c, a) :: |a| == Depth0(c)
  {
    WholeLongestWay(c);
    forall a | IsAddress(c, a)
      ensures WayLength(c, a, 0) == |a|
    {
      WholeEnds(c, a);
    }
  }

  /** Only one number is the longest way. */
  lemma OneLongestWay(c: Cell, level: nat, d: nat, e: nat)
    requires IsLongestWay(c, level, d) && IsLongestWay(c, level, e)
    ensures d == e
  {
    var a :| IsAddress(c, a) && WayLength(c, a, level) == d;
    var b :| IsAddress(c, b) && WayLength(c, b, level) == e;
  }

  lemma LongestWayExactly(c: Cell, d: nat)
    requires Finalized(c) && PlainStubs(c)
    ensures IsLongestWay(c, 0, d) <==> d == Depth0(c)
  {
    DepthIsLongestWay(c);
    if IsLongestWay(c, 0, d) { OneLongestWay(c, 0, d, Depth0(c)); }
  }

  lemma FinalizedAbove(c: Cell)
    requires forall i | 0 <= i < |c.refs| :: Finalized(c.refs[i])
    ensures Finalized(c) <==> FinalizedNode(c)
  {
  }

  /** A Merkle cell is accepted exactly if it states the hash and the longest way of its reference. */
  lemma MerkleProofAcceptedExactly(c: Cell)
    requires c.kind.MerkleProof? && c.bits == [] && |c.refs| == 1 && Finalized(c.refs[0]) && PlainStubs(c.refs[0])
    ensures Finalized(c) <==> c.kind.hash == Hash0(c.refs[0]) && IsLongestWay(c.refs[0], 0, c.kind.depth)
  {
    LongestWayExactly(c.refs[0], c.kind.depth);
    FinalizedAbove(c);
  }

  /** A Merkle update states both for its old and its new tree. */
  lemma MerkleUpdateAcceptedExactly(c: Cell)
    requires c.kind.MerkleUpdate? && c.bits == [] && |c.refs| == 2
    requires forall i | 0 <= i < 2 :: Finalized(c.refs[i]) && PlainStubs(c.refs[i])
    ensures Finalized(c) <==>
            && c.kind.oldHash == Hash0(c.refs[0]) && IsLongestWay(c.refs[0], 0, c.kind.oldDepth)
            && c.kind.newHash == Hash0(c.refs[1]) && IsLongestWay(c.refs[1], 0, c.kind.newDepth)
  {
    LongestWayExactly(c.refs[0], c.kind.oldDepth);
    LongestWayExactly(c.refs[1], c.kind.newDepth);
    FinalizedAbove(c);
  }
}
