/** What measuring a tree says about it, and about the pieces that cutting it leaves. */
module Volumes {
  import opened Cells
  import opened BlockUtils

  function SumParts(parts: seq<SubTree>): nat {
    if parts == [] then 0 else SumParts(parts[..|parts| - 1]) + Volume(parts[|parts| - 1].root)
  }

  lemma {:induction false} SumPartsAppend(a: seq<SubTree>, b: seq<SubTree>)
    ensures SumParts(a + b) == SumParts(a) + SumParts(b)
    decreases |b|
  {
    if b == [] {
      assert a + b == a;
    } else {
      assert (a + b)[..|a + b| - 1] == a + b[..|b| - 1];
      SumPartsAppend(a, b[..|b| - 1]);
    }
  }

  /** Every cell is counted once: with the tree, or with exactly one of its parts. */
  lemma {:induction false} VolumeConservation(c: Cell)
    ensures CellCount(c) == Volume(c) + SumParts(PartsOf(c))
    decreases c, |c.refs| + 1
  {
    RefVolumeConservation(c, |c.refs|);
    SumPartsAppend(ChildParts(c, |c.refs|), OwnParts(c, |c.refs|));
  }

  lemma {:induction false} RefVolumeConservation(c: Cell, k: nat)
    requires k <= |c.refs|
    ensures CountRefs(c, k) == KeptVolumes(c, k) + SumParts(ChildParts(c, k)) + SumParts(OwnParts(c, k))
    decreases c, k
  {
    if k > 0 {
      RefVolumeConservation(c, k - 1);
      VolumeConservation(c.refs[k - 1]);
      SumPartsAppend(ChildParts(c, k - 1), PartsOf(c.refs[k - 1]));
      var own := if IsPartRef(c, k - 1) then [SubTree(c.refs[k - 1], c, k - 1)] else [];
      SumPartsAppend(OwnParts(c, k - 1), own);
      assert own != [] ==> own[..0] == [];
    }
  }

  lemma OwnPartsWhere(c: Cell, k: nat, p: SubTree)
    requires k <= |c.refs|
    ensures p in OwnParts(c, k) <==>
            p.parentCell == c && p.refIndex < k && p.root == c.refs[p.refIndex] && IsPartRef(c, p.refIndex)
  {
  }

  lemma ChildPartsWhere(c: Cell, k: nat, p: SubTree)
    requires k <= |c.refs|
    ensures p in ChildParts(c, k) <==> exists i | 0 <= i < k :: p in PartsOf(c.refs[i])
    decreases k
  {
    if k > 0 {
      ChildPartsWhere(c, k - 1, p);
    }
  }

  /** A part is the root of a reference that its own parent holds. */
  lemma {:induction false} PartIsReference(c: Cell, p: SubTree)
    requires p in PartsOf(c)
    ensures p.refIndex < |p.parentCell.refs| && p.root == p.parentCell.refs[p.refIndex]
    ensures IsPartRef(p.parentCell, p.refIndex)
    decreases c
  {
    OwnPartsWhere(c, |c.refs|, p);
    ChildPartsWhere(c, |c.refs|, p);
    if p !in OwnParts(c, |c.refs|) {
      var i :| 0 <= i < |c.refs| && p in PartsOf(c.refs[i]);
      PartIsReference(c.refs[i], p);
    }
  }

  /** With at most four references a cell, a tree keeps at most 129 cells and a part has 33 to 129. */
  lemma {:induction false} VolumeBounds(c: Cell)
    requires AtMostFourRefs(c)
    ensures 1 <= Volume(c) <= 129
    ensures forall p | p in PartsOf(c) :: 33 <= Volume(p.root) <= 129
    decreases c
  {
    KeptBound(c, |c.refs|);
    forall p | p in PartsOf(c)
      ensures 33 <= Volume(p.root) <= 129
    {
      OwnPartsWhere(c, |c.refs|, p);
      ChildPartsWhere(c, |c.refs|, p);
      if p in OwnParts(c, |c.refs|) {
        VolumeBounds(p.root);
      } else {
        var i :| 0 <= i < |c.refs| && p in PartsOf(c.refs[i]);
        VolumeBounds(c.refs[i]);
      }
    }
  }

  lemma {:induction false} KeptBound(c: Cell, k: nat)
    requires k <= |c.refs|
    ensures KeptVolumes(c, k) <= SumVolumes(c, k)
    ensures SumVolumes(c, |c.refs|) > 64 ==> KeptVolumes(c, k) <= 32 * k
    decreases k
  {
    if k > 0 {
      KeptBound(c, k - 1);
    }
  }

  lemma {:induction false} SumPartsBound(parts: seq<SubTree>)
    requires forall p | p in parts :: 33 <= Volume(p.root)
    ensures SumParts(parts) >= 33 * |parts|
    decreases |parts|
  {
    if parts != [] {
      assert parts[|parts| - 1] in parts;
      SumPartsBound(parts[..|parts| - 1]);
    }
  }

  /** A tree is never split into more parts than its size allows. */
  lemma PartsAreFew(c: Cell)
    requires AtMostFourRefs(c)
    ensures 33 * |PartsOf(c)| + 1 <= CellCount(c)
  {
    VolumeBounds(c);
    VolumeConservation(c);
    SumPartsBound(PartsOf(c));
  }

  /** `inner` stands in `list` from index `from` on. */
  predicate StandsAt(inner: seq<SubTree>, list: seq<SubTree>, from: nat) {
    from + |inner| <= |list| && list[from..from + |inner|] == inner
  }

  lemma StandsIndex(inner: seq<SubTree>, list: seq<SubTree>, from: nat, k: nat)
    requires StandsAt(inner, list, from) && k < |inner|
    ensures list[from + k] == inner[k]
  {
    assert list[from..from + |inner|][k] == inner[k];
  }

  lemma StandsDeeper(a: seq<SubTree>, b: seq<SubTree>, c: seq<SubTree>, i: nat, j: nat)
    requires StandsAt(a, b, i) && StandsAt(b, c, j)
    ensures StandsAt(a, c, j + i)
  {
    forall k | 0 <= k < |a|
      ensures c[j + i + k] == a[k]
    {
      StandsIndex(a, b, i, k);
      StandsIndex(b, c, j, i + k);
    }
  }

  lemma ChildPartsFirst(c: Cell)
    ensures StandsAt(ChildParts(c, |c.refs|), PartsOf(c), 0)
  {
  }

  /** Where in the list the parts nested in the `j`-th part stand, before that part itself. */
  predicate NestedAt(list: seq<SubTree>, j: nat, from: nat) {
    j < |list| && StandsAt(PartsOf(list[j].root), list, from) && from + |PartsOf(list[j].root)| <= j
  }

  lemma NestedDeeper(inner: seq<SubTree>, list: seq<SubTree>, start: nat, j: nat, from: nat)
    requires StandsAt(inner, list, start) && NestedAt(inner, j, from)
    ensures NestedAt(list, start + j, start + from)
  {
    StandsIndex(inner, list, start, j);
    StandsDeeper(PartsOf(inner[j].root), inner, list, from, start);
  }

  lemma NestedTwice(a: seq<SubTree>, b: seq<SubTree>, c: seq<SubTree>, start: nat, j: nat, from: nat)
    requires StandsAt(a, b, start) && StandsAt(b, c, 0) && start <= j && NestedAt(a, j - start, from)
    ensures NestedAt(c, j, start + from)
  {
    NestedDeeper(a, b, start, j - start, from);
    NestedDeeper(b, c, 0, j, start + from);
  }

  lemma OwnPartNested(c: Cell, j: nat) returns (from: nat)
    requires |ChildParts(c, |c.refs|)| <= j < |PartsOf(c)|
    ensures NestedAt(PartsOf(c), j, from)
  {
    var below := ChildParts(c, |c.refs|);
    var p := OwnParts(c, |c.refs|)[j - |below|];
    OwnPartsWhere(c, |c.refs|, p);
    from := ChildPartsStart(c, |c.refs|, p.refIndex);
    ChildPartsFirst(c);
    StandsDeeper(PartsOf(p.root), below, PartsOf(c), from, 0);
  }

  /** The parts nested in a part are listed, in their own order, before the part itself. */
  lemma {:induction false} NestedPartsFirst(c: Cell, j: nat) returns (from: nat)
    requires j < |PartsOf(c)|
    ensures NestedAt(PartsOf(c), j, from)
    decreases c
  {
    if j < |ChildParts(c, |c.refs|)| {
      var i, start := ChildPartAt(c, |c.refs|, j);
      var f := NestedPartsFirst(c.refs[i], j - start);
      from := start + f;
      ChildPartsFirst(c);
      NestedTwice(PartsOf(c.refs[i]), ChildParts(c, |c.refs|), PartsOf(c), start, j, f);
    } else {
      from := OwnPartNested(c, j);
    }
  }

  lemma {:induction false} ChildPartsStart(c: Cell, k: nat, i: nat) returns (start: nat)
    requires i < k <= |c.refs|
    ensures StandsAt(PartsOf(c.refs[i]), ChildParts(c, k), start)
    decreases k
  {
    if i == k - 1 {
      start := |ChildParts(c, k - 1)|;
    } else {
      start := ChildPartsStart(c, k - 1, i);
    }
  }

  lemma {:induction false} ChildPartAt(c: Cell, k: nat, j: nat) returns (i: nat, start: nat)
    requires k <= |c.refs| && j < |ChildParts(c, k)|
    ensures i < k && start <= j < start + |PartsOf(c.refs[i])|
    ensures StandsAt(PartsOf(c.refs[i]), ChildParts(c, k), start)
    decreases k
  {
    if j >= |ChildParts(c, k - 1)| {
      i, start := k - 1, |ChildParts(c, k - 1)|;
    } else {
      i, start := ChildPartAt(c, k - 1, j);
    }
  }

  // ------------------------------------------------ counting what cutting leaves

  /** The cells of `c` that are copied, not cut, when the listed hashes are cut. */
  function CopiedCells(c: Cell, listExcept: set<Digest>): nat
    decreases c, |c.refs| + 1
  {
    1 + CopiedBelow(c, listExcept, |c.refs|)
  }

  function CopiedBelow(c: Cell, listExcept: set<Digest>, k: nat): nat
    requires k <= |c.refs|
    decreases c, k
  {
    if k == 0 then 0
    else CopiedBelow(c, listExcept, k - 1)
         + if Hash0(c.refs[k - 1]) in listExcept then 0 else CopiedCells(c.refs[k - 1], listExcept)
  }

  /** The pruned branches that cutting puts into the copy of `c`. */
  function FreshStubs(c: Cell, listExcept: set<Digest>): nat
    decreases c, |c.refs| + 1
  {
    FreshBelow(c, listExcept, |c.refs|)
  }

  function FreshBelow(c: Cell, listExcept: set<Digest>, k: nat): nat
    requires k <= |c.refs|
    decreases c, k
  {
    if k == 0 then 0
    else FreshBelow(c, listExcept, k - 1)
         + if Hash0(c.refs[k - 1]) in listExcept then 1 else FreshStubs(c.refs[k - 1], listExcept)
  }

  /** The pruned tree consists of the copied cells and the fresh pruned branches. */
  lemma {:induction false} CutSize(c: Cell, listExcept: set<Digest>)
    ensures CellCount(CutExcept(c, listExcept)) == CopiedCells(c, listExcept) + FreshStubs(c, listExcept)
    decreases c, |c.refs| + 1
  {
    CutSizeBelow(c, listExcept, |c.refs|);
  }

  lemma CutRefSize(r: Cell, listExcept: set<Digest>)
    ensures CellCount(CutRef(r, listExcept))
            == if Hash0(r) in listExcept then 1 else CellCount(CutExcept(r, listExcept))
  {
    assert CellCount(FreshStub(r)) == 1;
  }

  lemma {:induction false} CutSizeBelow(c: Cell, listExcept: set<Digest>, k: nat)
    requires k <= |c.refs|
    ensures CountRefs(CutExcept(c, listExcept), k)
            == CopiedBelow(c, listExcept, k) + FreshBelow(c, listExcept, k)
    decreases c, k
  {
    if k > 0 {
      CutSizeBelow(c, listExcept, k - 1);
      CutSize(c.refs[k - 1], listExcept);
      CutRefSize(c.refs[k - 1], listExcept);
      assert CutExcept(c, listExcept).refs[k - 1] == CutRef(c.refs[k - 1], listExcept);
    }
  }

  predicate Lists(listExcept: set<Digest>, parts: seq<SubTree>) {
    forall p | p in parts :: Hash0(p.root) in listExcept
  }

  /** Among the references that are reached, a listed hash occurs only where a part was found. */
  predicate CutsOnlyParts(c: Cell, listExcept: set<Digest>)
    decreases c, |c.refs| + 1
  {
    CutsOnlyPartsBelow(c, listExcept, |c.refs|)
  }

  predicate CutsOnlyPartsBelow(c: Cell, listExcept: set<Digest>, k: nat)
    requires k <= |c.refs|
    decreases c, k
  {
    k > 0 ==>
      && CutsOnlyPartsBelow(c, listExcept, k - 1)
      && if Hash0(c.refs[k - 1]) in listExcept then IsPartRef(c, k - 1) else CutsOnlyParts(c.refs[k - 1], listExcept)
  }

  lemma RefPartsListed(c: Cell, i: nat, listExcept: set<Digest>)
    requires Lists(listExcept, PartsOf(c)) && i < |c.refs|
    ensures Lists(listExcept, PartsOf(c.refs[i]))
    ensures IsPartRef(c, i) ==> Hash0(c.refs[i]) in listExcept
  {
    forall p | p in PartsOf(c.refs[i])
      ensures Hash0(p.root) in listExcept
    {
      ChildPartsWhere(c, |c.refs|, p);
    }
    OwnPartsWhere(c, |c.refs|, SubTree(c.refs[i], c, i));
  }

  /** Cutting agrees with measuring: what is copied is at most what was measured. */
  lemma {:induction false} CutMatchesVolume(c: Cell, listExcept: set<Digest>)
    requires Lists(listExcept, PartsOf(c))
    ensures CopiedCells(c, listExcept) <= Volume(c)
    ensures CopiedCells(c, listExcept) == Volume(c) <==> CutsOnlyParts(c, listExcept)
    decreases c, |c.refs| + 1
  {
    CutMatchesVolumeBelow(c, listExcept, |c.refs|);
  }

  lemma {:induction false} CutMatchesVolumeBelow(c: Cell, listExcept: set<Digest>, k: nat)
    requires Lists(listExcept, PartsOf(c)) && k <= |c.refs|
    ensures CopiedBelow(c, listExcept, k) <= KeptVolumes(c, k)
    ensures CopiedBelow(c, listExcept, k) == KeptVolumes(c, k) <==> CutsOnlyPartsBelow(c, listExcept, k)
    decreases c, k
  {
    if k > 0 {
      CutMatchesVolumeBelow(c, listExcept, k - 1);
      RefPartsListed(c, k - 1, listExcept);
      CutMatchesVolume(c.refs[k - 1], listExcept);
    }
  }

  lemma NestedPartsListed(c: Cell, p: SubTree, listExcept: set<Digest>)
    requires p in PartsOf(c) && Lists(listExcept, PartsOf(c))
    ensures Lists(listExcept, PartsOf(p.root))
  {
    var all, nested := PartsOf(c), PartsOf(p.root);
    var j :| 0 <= j < |all| && all[j] == p;
    var from := NestedPartsFirst(c, j);
    forall q | q in nested
      ensures Hash0(q.root) in listExcept
    {
      var k :| 0 <= k < |nested| && nested[k] == q;
      StandsIndex(nested, all, from, k);
      assert all[from + k] in all;
    }
  }

  /** Every piece that is emitted holds at most 129 copied cells. */
  lemma EmittedPiecesAreSmall(c: Cell, listExcept: set<Digest>)
    requires AtMostFourRefs(c) && Lists(listExcept, PartsOf(c))
    ensures CopiedCells(c, listExcept) <= 129
    ensures forall p | p in PartsOf(c) :: CopiedCells(p.root, listExcept) <= 129
  {
    VolumeBounds(c);
    CutMatchesVolume(c, listExcept);
    forall p | p in PartsOf(c)
      ensures CopiedCells(p.root, listExcept) <= 129
    {
      NestedPartsListed(c, p, listExcept);
      CutMatchesVolume(p.root, listExcept);
    }
  }
}
