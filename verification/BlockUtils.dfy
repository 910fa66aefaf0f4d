/** The operations that measure, cut, copy and search trees of cells. */
module BlockUtils {
  import opened Cells
  import opened Results

  // ---------------------------------------------------------------- measuring

  datatype SubTree = SubTree(root: Cell, parentCell: Cell, refIndex: nat)

  function SumVolumes(c: Cell, k: nat): nat
    requires k <= |c.refs|
    decreases c, 0, k
  {
    if k == 0 then 0 else SumVolumes(c, k - 1) + Volume(c.refs[k - 1])
  }

  /** The `i`-th reference of `c` is split off as a part. */
  predicate IsPartRef(c: Cell, i: nat)
    requires i < |c.refs|
    decreases c, 1, 0
  {
    SumVolumes(c, |c.refs|) > 64 && Volume(c.refs[i]) > 32
  }

  /** The cells that the first `k` references leave with `c`. */
  function KeptVolumes(c: Cell, k: nat): nat
    requires k <= |c.refs|
    decreases c, 2, k
  {
    if k == 0 then 0
    else KeptVolumes(c, k - 1) + if IsPartRef(c, k - 1) then 0 else Volume(c.refs[k - 1])
  }

  /** The cells of `c` that are left once all its parts are split off. */
  function Volume(c: Cell): nat
    decreases c, 3, 0
  {
    1 + KeptVolumes(c, |c.refs|)
  }

  function ChildParts(c: Cell, k: nat): seq<SubTree>
    requires k <= |c.refs|
    decreases c, k
  {
    if k == 0 then [] else ChildParts(c, k - 1) + PartsOf(c.refs[k - 1])
  }

  function OwnParts(c: Cell, k: nat): seq<SubTree>
    requires k <= |c.refs|
  {
    if k == 0 then []
    else OwnParts(c, k - 1) + if IsPartRef(c, k - 1) then [SubTree(c.refs[k - 1], c, k - 1)] else []
  }

  /** The parts split off a tree, in the order in which they are found. */
  function PartsOf(c: Cell): seq<SubTree>
    decreases c, |c.refs| + 1
  {
    ChildParts(c, |c.refs|) + OwnParts(c, |c.refs|)
  }

  /** The list of parts that is passed down and filled while a tree is measured. */
  class PartList {
    var parts: seq<SubTree>

    constructor ()
      ensures parts == []
    {
      parts := [];
    }

    method Push(p: SubTree)
      modifies this
      ensures parts == old(parts) + [p]
    {
      parts := parts + [p];
    }
  }

  lemma KeptAll(c: Cell, k: nat)
    requires k <= |c.refs| && SumVolumes(c, |c.refs|) <= 64
    ensures KeptVolumes(c, k) == SumVolumes(c, k) && OwnParts(c, k) == []
  {
  }

  /** Splits off the large references of a cell that is too large, and counts the others. */
  method SplitLarge(root: Cell, vols: seq<nat>, list: PartList) returns (kept: nat)
    requires |vols| == |root.refs| && forall i | 0 <= i < |vols| :: vols[i] == Volume(root.refs[i])
    requires SumVolumes(root, |root.refs|) > 64
    modifies list
    ensures kept == KeptVolumes(root, |root.refs|)
    ensures list.parts == old(list.parts) + OwnParts(root, |root.refs|)
  {
    kept := 0;
    for i := 0 to |vols|
      invariant kept == KeptVolumes(root, i)
      invariant list.parts == old(list.parts) + OwnParts(root, i)
    {
      if vols[i] > 32 {
        list.Push(SubTree(root.refs[i], root, i));
      } else {
        kept := kept + vols[i];
      }
    }
  }

  /** The volumes of all references, measured one after the other. */
  method MeasureRefs(root: Cell, list: PartList) returns (vols: seq<nat>, v: nat)
    modifies list
    ensures |vols| == |root.refs| && forall i | 0 <= i < |vols| :: vols[i] == Volume(root.refs[i])
    ensures v == SumVolumes(root, |root.refs|)
    ensures list.parts == old(list.parts) + ChildParts(root, |root.refs|)
    decreases root, 0
  {
    vols, v := [], 0;
    for i := 0 to |root.refs|
      invariant |vols| == i && v == SumVolumes(root, i)
      invariant forall j | 0 <= j < i :: vols[j] == Volume(root.refs[j])
      invariant list.parts == old(list.parts) + ChildParts(root, i)
    {
      var t := PrintTreeVolume(root.refs[i], list);
      vols := vols + [t];
      v := v + t;
    }
  }

  method PrintTreeVolume(root: Cell, list: PartList) returns (volume: nat)
    modifies list
    ensures volume == Volume(root)
    ensures list.parts == old(list.parts) + PartsOf(root)
    decreases root, 1
  {
    volume := 1;
    var vols, v := MeasureRefs(root, list);
    if v > 64 {
      var kept := SplitLarge(root, vols, list);
      volume := volume + kept;
    } else {
      KeptAll(root, |root.refs|);
      volume := volume + v;
    }
  }

  // ------------------------------------------------------------------ cutting

  /** `c` with every reference whose hash is listed replaced by a pruned branch. */
  function CutExcept(c: Cell, listExcept: set<Digest>): (n: Cell)
    ensures n.kind == c.kind && n.bits == c.bits && |n.refs| == |c.refs|
    decreases c, 0
  {
    Cell(c.kind, c.bits, seq(|c.refs|, i requires 0 <= i < |c.refs| => CutRef(c.refs[i], listExcept)))
  }

  function CutRef(r: Cell, listExcept: set<Digest>): Cell
    decreases r, 1
  {
    if Hash0(r) in listExcept then FreshStub(r) else CutExcept(r, listExcept)
  }

  method BuildProofExcept(rootCell: Cell, listExcept: set<Digest>) returns (proof: Cell)
    ensures proof == CutExcept(rootCell, listExcept)
    decreases rootCell
  {
    var refs: seq<Cell> := [];
    for i := 0 to |rootCell.refs|
      invariant |refs| == i && forall j | 0 <= j < i :: refs[j] == CutRef(rootCell.refs[j], listExcept)
    {
      var c := rootCell.refs[i];
      var r;
      if Hash0(c) !in listExcept {
        r := BuildProofExcept(c, listExcept);
      } else {
        r := FreshStub(c);
      }
      refs := refs + [r];
    }
    proof := Cell(rootCell.kind, rootCell.bits, refs);
  }

  method CloneTree(c: Cell) returns (r: Cell)
    ensures r == c
    decreases c
  {
    var refs: seq<Cell> := [];
    for i := 0 to |c.refs|
      invariant refs == c.refs[..i]
    {
      var t := CloneTree(c.refs[i]);
      refs := refs + [t];
    }
    r := Cell(c.kind, c.bits, refs);
  }

  // ---------------------------------------------------------------- searching

  /** All chains from `c` down to one of its cells, in preorder: one for every position of the tree. */
  function Chains(c: Cell): seq<seq<Cell>>
    decreases c, |c.refs| + 1
  {
    [[c]] + RefChains(c, |c.refs|)
  }

  function RefChains(c: Cell, k: nat): seq<seq<Cell>>
    requires k <= |c.refs|
    decreases c, k
  {
    if k == 0 then [] else RefChains(c, k - 1) + Unshift(c, Chains(c.refs[k - 1]))
  }

  /** Every list with `x` put in front. */
  function Unshift<T>(x: T, lists: seq<seq<T>>): (r: seq<seq<T>>)
    ensures |r| == |lists| && forall i | 0 <= i < |r| :: r[i] == [x] + lists[i]
  {
    seq(|lists|, i requires 0 <= i < |lists| => [x] + lists[i])
  }

  predicate EndsWith(chain: seq<Cell>, hash: Digest) {
    chain != [] && Hash0(chain[|chain| - 1]) == hash
  }

  /** The first chain that ends in a cell with this hash. */
  function FirstEnding(chains: seq<seq<Cell>>, hash: Digest): Option<seq<Cell>> {
    if chains == [] then None
    else if EndsWith(chains[0], hash) then Some(chains[0])
    else FirstEnding(chains[1..], hash)
  }

  lemma {:induction false} FirstEndingAppend(a: seq<seq<Cell>>, b: seq<seq<Cell>>, hash: Digest)
    ensures FirstEnding(a + b, hash)
            == if FirstEnding(a, hash).Some? then FirstEnding(a, hash) else FirstEnding(b, hash)
  {
    if a == [] {
      assert a + b == b;
    } else {
      assert (a + b)[1..] == a[1..] + b;
      FirstEndingAppend(a[1..], b, hash);
    }
  }

  lemma {:induction false} FirstEndingUnshift(c: Cell, lists: seq<seq<Cell>>, hash: Digest)
    requires forall i | 0 <= i < |lists| :: lists[i] != []
    ensures FirstEnding(Unshift(c, lists), hash) ==
            match FirstEnding(lists, hash) { case None => None case Some(p) => Some([c] + p) }
  {
    if lists != [] {
      var u := Unshift(c, lists);
      assert u[0][|u[0]| - 1] == lists[0][|lists[0]| - 1];
      assert u[1..] == Unshift(c, lists[1..]);
      FirstEndingUnshift(c, lists[1..], hash);
    }
  }

  lemma ChainsNonEmpty(c: Cell)
    ensures forall i | 0 <= i < |Chains(c)| :: Chains(c)[i] != []
    decreases c, |c.refs| + 1
  {
    RefChainsNonEmpty(c, |c.refs|);
  }

  lemma RefChainsNonEmpty(c: Cell, k: nat)
    requires k <= |c.refs|
    ensures forall i | 0 <= i < |RefChains(c, k)| :: RefChains(c, k)[i] != []
    decreases c, k
  {
    if k > 0 {
      RefChainsNonEmpty(c, k - 1);
    }
  }

  /** The rest of the preorder once the first `k` references are searched. */
  function LaterChains(c: Cell, k: nat): (rest: seq<seq<Cell>>)
    requires k <= |c.refs|
    ensures RefChains(c, |c.refs|) == RefChains(c, k) + rest
    decreases |c.refs| - k
  {
    if k == |c.refs| then [] else Unshift(c, Chains(c.refs[k])) + LaterChains(c, k + 1)
  }

  lemma SearchedOneMore(seen: seq<seq<Cell>>, c: Cell, lists: seq<seq<Cell>>, rest: seq<seq<Cell>>, hash: Digest)
    requires FirstEnding(seen, hash) == None && forall i | 0 <= i < |lists| :: lists[i] != []
    ensures var p := FirstEnding(lists, hash);
            && (p.None? ==> FirstEnding(seen + Unshift(c, lists), hash) == None)
            && (p.Some? ==> FirstEnding(seen + Unshift(c, lists) + rest, hash) == Some([c] + p.value))
  {
    FirstEndingUnshift(c, lists, hash);
    FirstEndingAppend(seen, Unshift(c, lists), hash);
    FirstEndingAppend(seen + Unshift(c, lists), rest, hash);
  }

  lemma Regroup<T>(a: seq<T>, b: seq<T>, c: seq<T>, d: seq<T>)
    ensures a + (b + c) == a + b + c && a + (b + c + d) == a + b + c + d
  {
  }

  lemma SplitChains(c: Cell, i: nat)
    requires i < |c.refs|
    ensures [[c]] + RefChains(c, i + 1) == [[c]] + RefChains(c, i) + Unshift(c, Chains(c.refs[i]))
    ensures Chains(c) == [[c]] + RefChains(c, i) + Unshift(c, Chains(c.refs[i])) + LaterChains(c, i + 1)
  {
    var before, here, rest := RefChains(c, i), Unshift(c, Chains(c.refs[i])), LaterChains(c, i + 1);
    Regroup([[c]], before, here, rest);
    calc {
      Chains(c);
      [[c]] + RefChains(c, |c.refs|);
      [[c]] + (RefChains(c, i + 1) + rest);
      [[c]] + (before + here + rest);
    }
  }

  /** Searching one more reference, and stopping there if it holds the hash. */
  lemma SearchStep(c: Cell, i: nat, hash: Digest)
    requires i < |c.refs| && FirstEnding([[c]] + RefChains(c, i), hash) == None
    ensures var p := FirstEnding(Chains(c.refs[i]), hash);
            && (p.None? ==> FirstEnding([[c]] + RefChains(c, i + 1), hash) == None)
            && (p.Some? ==> FirstEnding(Chains(c), hash) == Some([c] + p.value))
  {
    SplitChains(c, i);
    ChainsNonEmpty(c.refs[i]);
    SearchedOneMore([[c]] + RefChains(c, i), c, Chains(c.refs[i]), LaterChains(c, i + 1), hash);
  }

  /** The search stops at the root if the root has the hash, and fails when no reference is left. */
  lemma StartSearch(c: Cell, hash: Digest)
    ensures Hash0(c) == hash ==> FirstEnding(Chains(c), hash) == Some([c])
    ensures Hash0(c) != hash ==> FirstEnding([[c]] + RefChains(c, 0), hash) == None
    ensures [[c]] + RefChains(c, |c.refs|) == Chains(c)
  {
    assert Chains(c)[0] == [c];
    assert [[c]] + RefChains(c, 0) == [[c]];
  }

  method BuildPath(hash: Digest, c: Cell) returns (path: Option<seq<Cell>>)
    ensures path == FirstEnding(Chains(c), hash)
    decreases c
  {
    StartSearch(c, hash);
    if Hash0(c) == hash {
      return Some([c]);
    }
    for i := 0 to |c.refs|
      invariant FirstEnding([[c]] + RefChains(c, i), hash) == None
    {
      var p := BuildPath(hash, c.refs[i]);
      SearchStep(c, i, hash);
      if p.Some? {
        return Some([c] + p.value);
      }
    }
    path := None;
  }

  // ----------------------------------------------------------------- proofs

  /** `bits.readUint8(0)`; bits past the end read as zero. */
  function ReadUint8(bits: seq<bool>): nat {
    BitsToNat(seq(8, i requires 0 <= i < 8 => i < |bits| && bits[i]))
  }

  const PRUNED_BRANCH := 1

  /** The first byte is that of a pruned branch, whether the cell is exotic or not. */
  predicate StartsWithOne(c: Cell) {
    match c.kind
    case Pruned(_, _, _) => true
    case Ordinary => ReadUint8(c.bits) == PRUNED_BRANCH
    case _ => false
  }

  /** The proof continues along the path at reference `r`. */
  predicate OnPath(path: seq<Cell>, r: Cell) {
    |path| > 1 && Hash0(r) == Hash0(path[1])
  }

  /** The tree that keeps a path of cells and cuts away what branches off it. */
  function ProofOf(path: seq<Cell>, cloneTail: bool): (n: Cell)
    requires path != []
    ensures n.kind == path[0].kind && n.bits == path[0].bits && |n.refs| == |path[0].refs|
    decreases |path|, 1
  {
    var c := path[0];
    Cell(c.kind, c.bits, seq(|c.refs|, i requires 0 <= i < |c.refs| => ProofRef(path, cloneTail, c.refs[i])))
  }

  function ProofRef(path: seq<Cell>, cloneTail: bool, r: Cell): Cell
    requires path != []
    decreases |path|, 0
  {
    if OnPath(path, r) then ProofOf(path[1..], cloneTail)
    else if (cloneTail && |path| == 1) || StartsWithOne(r) then r
    else FreshStub(r)
  }

  method BuildProof(path: seq<Cell>, cloneTail: bool) returns (proof: Result<Cell>)
    ensures proof == if path == [] then Error("no root cell") else Ok(ProofOf(path, cloneTail))
    decreases |path|
  {
    if path == [] {
      return Error("no root cell");
    }
    var rootCell := path[0];
    var refs: seq<Cell> := [];
    for i := 0 to |rootCell.refs|
      invariant |refs| == i && forall j | 0 <= j < i :: refs[j] == ProofRef(path, cloneTail, rootCell.refs[j])
    {
      var c := rootCell.refs[i];
      var r;
      if OnPath(path, c) {
        var rest := BuildProof(path[1..], cloneTail);
        r := rest.value;
      } else if cloneTail && |path| == 1 {
        r := CloneTree(c);
      } else if StartsWithOne(c) {
        r := c;
      } else {
        r := FreshStub(c);
      }
      refs := refs + [r];
    }
    assert refs == ProofOf(path, cloneTail).refs;
    proof := Ok(Cell(rootCell.kind, rootCell.bits, refs));
  }
}
