/** Positions in a tree of cells, and what searching for a cell and keeping a path of cells mean for them. */
module Paths {
  import opened Cells
  import opened BlockUtils
  import opened HashPreservation
  import opened ProofHashes
  import opened Results

  /** A position: the reference numbers to follow from the root. */
  type Address = seq<nat>

  predicate IsAddress(c: Cell, a: Address)
    decreases |a|
  {
    a != [] ==> a[0] < |c.refs| && IsAddress(c.refs[a[0]], a[1..])
  }

  function At(c: Cell, a: Address): Cell
    requires IsAddress(c, a)
    decreases |a|
  {
    if a == [] then c else At(c.refs[a[0]], a[1..])
  }

  /** The cells met on the way from `c` to the position. */
  function Along(c: Cell, a: Address): (path: seq<Cell>)
    requires IsAddress(c, a)
    ensures |path| == |a| + 1 && path[0] == c && path[|a|] == At(c, a)
    decreases |a|
  {
    if a == [] then [c] else [c] + Along(c.refs[a[0]], a[1..])
  }

  /** Preorder: a position comes before those below it and those of later references. */
  predicate Before(a: Address, b: Address) {
    b != [] && (a == [] || a[0] < b[0] || (a[0] == b[0] && Before(a[1..], b[1..])))
  }

  function Addresses(c: Cell): seq<Address>
    decreases c, |c.refs| + 1
  {
    [[]] + RefAddresses(c, |c.refs|)
  }

  function RefAddresses(c: Cell, k: nat): seq<Address>
    requires k <= |c.refs|
    decreases c, k
  {
    if k == 0 then [] else RefAddresses(c, k - 1) + Unshift(k - 1, Addresses(c.refs[k - 1]))
  }

  /** `Chains` lists, position by position, the cells on the way to that position. */
  lemma {:induction false} ChainsAlong(c: Cell)
    ensures |Chains(c)| == |Addresses(c)|
    ensures forall i | 0 <= i < |Addresses(c)| ::
              IsAddress(c, Addresses(c)[i]) && Chains(c)[i] == Along(c, Addresses(c)[i])
    decreases c, |c.refs| + 1
  {
    RefChainsAlong(c, |c.refs|);
  }

  lemma {:induction false} RefChainsAlong(c: Cell, k: nat)
    requires k <= |c.refs|
    ensures |RefChains(c, k)| == |RefAddresses(c, k)|
    ensures forall i | 0 <= i < |RefAddresses(c, k)| ::
              IsAddress(c, RefAddresses(c, k)[i]) && RefChains(c, k)[i] == Along(c, RefAddresses(c, k)[i])
    decreases c, k
  {
    if k > 0 {
      RefChainsAlong(c, k - 1);
      ChainsAlong(c.refs[k - 1]);
      var here := Addresses(c.refs[k - 1]);
      forall i | 0 <= i < |here|
        ensures IsAddress(c, [k - 1] + here[i]) && Along(c, [k - 1] + here[i]) == [c] + Along(c.refs[k - 1], here[i])
      {
        assert ([k - 1] + here[i])[1..] == here[i];
      }
    }
  }

  /** Every position is listed, in preorder and hence only once. */
  lemma AddressesInPreorder(c: Cell)
    ensures forall i, j | 0 <= i < j < |Addresses(c)| :: Before(Addresses(c)[i], Addresses(c)[j])
    ensures forall a | IsAddress(c, a) :: a in Addresses(c)
  {
    AddressesOrdered(c);
    forall a | IsAddress(c, a)
      ensures a in Addresses(c)
    {
      IsListed(c, a);
    }
  }

  ghost predicate Ordered(list: seq<Address>) {
    forall i, j | 0 <= i < j < |list| :: Before(list[i], list[j])
  }

  lemma UnshiftKeepsOrder(n: nat, list: seq<Address>)
    requires Ordered(list)
    ensures Ordered(Unshift(n, list))
  {
    var below := Unshift(n, list);
    forall i, j | 0 <= i < j < |list|
      ensures Before(below[i], below[j])
    {
      assert below[i][1..] == list[i] && below[j][1..] == list[j];
    }
  }

  lemma AppendKeepsOrder(a: seq<Address>, b: seq<Address>)
    requires Ordered(a) && Ordered(b) && forall i, j | 0 <= i < |a| && 0 <= j < |b| :: Before(a[i], b[j])
    ensures Ordered(a + b)
  {
  }

  lemma {:induction false} AddressesOrdered(c: Cell)
    ensures Ordered(Addresses(c))
    decreases c, |c.refs| + 1
  {
    RefAddressesOrdered(c, |c.refs|);
    AppendKeepsOrder([[]], RefAddresses(c, |c.refs|));
  }

  lemma {:induction false} RefAddressesOrdered(c: Cell, k: nat)
    requires k <= |c.refs|
    ensures Ordered(RefAddresses(c, k))
    ensures forall i | 0 <= i < |RefAddresses(c, k)| :: RefAddresses(c, k)[i] != [] && RefAddresses(c, k)[i][0] < k
    decreases c, k
  {
    if k > 0 {
      RefAddressesOrdered(c, k - 1);
      AddressesOrdered(c.refs[k - 1]);
      UnshiftKeepsOrder(k - 1, Addresses(c.refs[k - 1]));
      AppendKeepsOrder(RefAddresses(c, k - 1), Unshift(k - 1, Addresses(c.refs[k - 1])));
    }
  }

  lemma {:induction false} IsListed(c: Cell, a: Address)
    requires IsAddress(c, a)
    ensures a in Addresses(c)
    decreases |a|
  {
    if a == [] {
      assert Addresses(c)[0] == [];
    } else {
      IsListed(c.refs[a[0]], a[1..]);
      IsListedAmongRefs(c, a, |c.refs|);
    }
  }

  lemma {:induction false} IsListedAmongRefs(c: Cell, a: Address, k: nat)
    requires a != [] && a[0] < k <= |c.refs| && a[1..] in Addresses(c.refs[a[0]])
    ensures a in RefAddresses(c, k)
    decreases k
  {
    if a[0] == k - 1 {
      var here := Addresses(c.refs[k - 1]);
      var i :| 0 <= i < |here| && here[i] == a[1..];
      assert Unshift(k - 1, here)[i] == a;
    } else {
      IsListedAmongRefs(c, a, k - 1);
    }
  }

  /** Preorder is a strict total order, so no position is listed twice. */
  lemma {:induction false} PreorderIsStrict(a: Address, b: Address, c: Address)
    ensures !Before(a, a) && (a != b ==> Before(a, b) || Before(b, a))
    ensures Before(a, b) && Before(b, c) ==> Before(a, c)
    decreases |a|
  {
    if a != [] {
      PreorderIsStrict(a[1..], if b == [] then a[1..] else b[1..], if c == [] then a[1..] else c[1..]);
      assert b != [] && a[0] == b[0] && a[1..] == b[1..] ==> a == [a[0]] + a[1..] == b;
    }
  }

  /** There are as many chains as there are cells. */
  lemma {:induction false} ChainCount(c: Cell)
    ensures |Chains(c)| == CellCount(c)
    decreases c, |c.refs| + 1
  {
    RefChainCount(c, |c.refs|);
  }

  lemma {:induction false} RefChainCount(c: Cell, k: nat)
    requires k <= |c.refs|
    ensures |RefChains(c, k)| == CountRefs(c, k)
    decreases c, k
  {
    if k > 0 {
      RefChainCount(c, k - 1);
      ChainCount(c.refs[k - 1]);
    }
  }

  lemma {:induction false} FirstEndingIsFirst(chains: seq<seq<Cell>>, hash: Digest) returns (i: nat)
    ensures FirstEnding(chains, hash).None? ==> forall j | 0 <= j < |chains| :: !EndsWith(chains[j], hash)
    ensures FirstEnding(chains, hash).Some? ==>
              && i < |chains| && FirstEnding(chains, hash).value == chains[i] && EndsWith(chains[i], hash)
              && forall j | 0 <= j < i :: !EndsWith(chains[j], hash)
  {
    i := 0;
    if chains != [] && !EndsWith(chains[0], hash) {
      var k := FirstEndingIsFirst(chains[1..], hash);
      i := k + 1;
      forall j | 0 <= j < |chains| && (FirstEnding(chains, hash).None? || j < i)
        ensures !EndsWith(chains[j], hash)
      {
        if j > 0 { assert chains[j] == chains[1..][j - 1]; }
      }
    }
  }

  /** The chains listed by address, in the order of the addresses. */
  ghost predicate ListsAll(c: Cell, chains: seq<seq<Cell>>, addresses: seq<Address>) {
    && |chains| == |addresses|
    && (forall i | 0 <= i < |addresses| :: IsAddress(c, addresses[i]) && chains[i] == Along(c, addresses[i]))
    && (forall i, j | 0 <= i < j < |addresses| :: Before(addresses[i], addresses[j]))
    && (forall a | IsAddress(c, a) :: a in addresses)
  }

  lemma ChainsListAll(c: Cell)
    ensures ListsAll(c, Chains(c), Addresses(c))
  {
    ChainsAlong(c);
    AddressesInPreorder(c);
  }

  lemma FirstIsLeast(c: Cell, chains: seq<seq<Cell>>, addresses: seq<Address>, hash: Digest, i: nat, b: Address)
    requires ListsAll(c, chains, addresses) && i < |chains|
    requires forall j | 0 <= j < i :: !EndsWith(chains[j], hash)
    requires IsAddress(c, b) && Hash0(At(c, b)) == hash
    ensures b == addresses[i] || Before(addresses[i], b)
  {
    var j :| 0 <= j < |addresses| && addresses[j] == b;
    assert chains[j] == Along(c, b) && EndsWith(chains[j], hash);
    if i < j { assert Before(addresses[i], addresses[j]); }
  }

  /** `a` is the first position in preorder whose cell has this hash. */
  ghost predicate IsFirstWith(c: Cell, hash: Digest, a: Address) {
    && IsAddress(c, a) && Hash0(At(c, a)) == hash
    && forall b | IsAddress(c, b) && Hash0(At(c, b)) == hash :: b == a || Before(a, b)
  }

  ghost predicate HasHash(c: Cell, hash: Digest) {
    exists b | IsAddress(c, b) :: Hash0(At(c, b)) == hash
  }

  lemma FirstListed(c: Cell, chains: seq<seq<Cell>>, addresses: seq<Address>, hash: Digest, i: nat)
    requires ListsAll(c, chains, addresses) && i < |chains|
    requires EndsWith(chains[i], hash) && forall j | 0 <= j < i :: !EndsWith(chains[j], hash)
    ensures IsFirstWith(c, hash, addresses[i]) && chains[i] == Along(c, addresses[i])
  {
    var a := addresses[i];
    assert chains[i] == Along(c, a);
    forall b | IsAddress(c, b) && Hash0(At(c, b)) == hash
      ensures b == a || Before(a, b)
    {
      FirstIsLeast(c, chains, addresses, hash, i, b);
    }
  }

  lemma NoneListed(c: Cell, chains: seq<seq<Cell>>, addresses: seq<Address>, hash: Digest)
    requires ListsAll(c, chains, addresses)
    requires forall j | 0 <= j < |chains| :: !EndsWith(chains[j], hash)
    ensures !HasHash(c, hash)
  {
    forall b | IsAddress(c, b)
      ensures Hash0(At(c, b)) != hash
    {
      var j :| 0 <= j < |addresses| && addresses[j] == b;
      assert chains[j] == Along(c, b);
    }
  }

  /** Searching finds nothing exactly when no cell has the hash, and otherwise leads to the first that has it. */
  lemma PathToFirst(c: Cell, hash: Digest) returns (a: Address)
    ensures FirstEnding(Chains(c), hash).Some? <==> HasHash(c, hash)
    ensures FirstEnding(Chains(c), hash).Some? ==>
              IsFirstWith(c, hash, a) && FirstEnding(Chains(c), hash).value == Along(c, a)
  {
    a := [];
    ChainsListAll(c);
    var i := FirstEndingIsFirst(Chains(c), hash);
    if FirstEnding(Chains(c), hash).Some? {
      a := Addresses(c)[i];
      FirstListed(c, Chains(c), Addresses(c), hash, i);
    } else {
      NoneListed(c, Chains(c), Addresses(c), hash);
    }
  }

  /** A reference with the hash of the next cell of the path is that cell. */
  predicate PathAgrees(path: seq<Cell>)
    decreases |path|
  {
    |path| > 1 ==>
      && (forall i | 0 <= i < |path[0].refs| && OnPath(path, path[0].refs[i]) :: path[0].refs[i] == path[1])
      && PathAgrees(path[1..])
  }

  /** In a tree without pruned branches outside Merkle cells, a path that enters no Merkle cell is never mistaken. */
  lemma {:induction false} WholeTreesAgree(c: Cell, a: Address)
    requires Plain(c) && Whole(c) && IsAddress(c, a)
    requires forall k | 0 <= k < |a| :: !Along(c, a)[k].kind.IsMerkle()
    ensures PathAgrees(Along(c, a)) && DepthsAgree(Along(c, a))
    decreases |a|
  {
    if a != [] {
      var path, next := Along(c, a), c.refs[a[0]];
      assert path[1..] == Along(next, a[1..]);
      assert forall k | 0 <= k < |a| - 1 :: Along(next, a[1..])[k] == path[k + 1];
      WholeTreesAgree(next, a[1..]);
      forall i | 0 <= i < |c.refs| && OnPath(path, c.refs[i])
        ensures c.refs[i] == path[1]
      {
        WholeHashDetermines(next, c.refs[i]);
      }
    }
  }

  // --------------------------------------------------- a proof contains its path

  predicate SameHeads(a: seq<Cell>, b: seq<Cell>) {
    |a| == |b| && forall k | 0 <= k < |a| :: a[k].kind == b[k].kind && a[k].bits == b[k].bits
  }

  /** At the positions of the path, the proof has copies of its cells, and the whole last subtree if asked to. */
  lemma {:induction false} ProofContainsPath(c: Cell, a: Address, cloneTail: bool)
    requires IsAddress(c, a)
    ensures var n := ProofOf(Along(c, a), cloneTail);
            && IsAddress(n, a) && SameHeads(Along(n, a), Along(c, a))
            && (cloneTail ==> At(n, a) == At(c, a))
    decreases |a|
  {
    var n := ProofOf(Along(c, a), cloneTail);
    if a == [] {
      assert cloneTail ==> n.refs == c.refs;
    } else {
      ProofContainsPath(c.refs[a[0]], a[1..], cloneTail);
      FollowsPath(c, a, cloneTail);
      SameHeadsCons(n, c, Along(n.refs[a[0]], a[1..]), Along(c.refs[a[0]], a[1..]));
    }
  }

  lemma SameHeadsCons(n: Cell, c: Cell, a: seq<Cell>, b: seq<Cell>)
    requires n.kind == c.kind && n.bits == c.bits && SameHeads(a, b)
    ensures SameHeads([n] + a, [c] + b)
  {
  }

  lemma FollowsPath(c: Cell, a: Address, cloneTail: bool)
    requires IsAddress(c, a) && a != []
    ensures ProofOf(Along(c, a), cloneTail).refs[a[0]] == ProofOf(Along(c.refs[a[0]], a[1..]), cloneTail)
  {
    var path := Along(c, a);
    assert path[1..] == Along(c.refs[a[0]], a[1..]);
    assert OnPath(path, c.refs[a[0]]);
  }

  /** At the end of its path a proof has the last cell with its references cut away. */
  lemma {:induction false} LastOfProof(c: Cell, a: Address)
    requires IsAddress(c, a)
    ensures var n := ProofOf(Along(c, a), false);
            IsAddress(n, a) && At(n, a) == ProofOf([At(c, a)], false)
    decreases |a|
  {
    if a != [] {
      LastOfProof(c.refs[a[0]], a[1..]);
      FollowsPath(c, a, false);
    }
  }

  function UnprunedCells(c: Cell): nat
    decreases c, |c.refs| + 1
  {
    (if c.kind.Pruned? then 0 else 1) + UnprunedBelow(c, |c.refs|)
  }

  function UnprunedBelow(c: Cell, k: nat): nat
    requires k <= |c.refs|
    decreases c, k
  {
    if k == 0 then 0 else UnprunedBelow(c, k - 1) + UnprunedCells(c.refs[k - 1])
  }

  /** The cells of the path are whole, and no cell beside it looks like one of them or like a pruned branch. */
  predicate ClearPath(c: Cell, a: Address)
    requires IsAddress(c, a)
    decreases |a|
  {
    && !c.kind.Pruned?
    && (forall i | 0 <= i < |c.refs| && (a == [] || i != a[0]) ::
          && (a != [] ==> Hash0(c.refs[i]) != Hash0(c.refs[a[0]]))
          && (StartsWithOne(c.refs[i]) ==> c.refs[i].kind.Pruned? && c.refs[i].refs == []))
    && (a != [] ==> ClearPath(c.refs[a[0]], a[1..]))
  }

  /** Then the cells that are not pruned branches are exactly the cells of the path. */
  lemma {:induction false} ProofIsOnlyPath(c: Cell, a: Address)
    requires IsAddress(c, a) && ClearPath(c, a)
    ensures UnprunedCells(ProofOf(Along(c, a), false)) == |a| + 1
    decreases |a|
  {
    var path := Along(c, a);
    var n := ProofOf(path, false);
    if a != [] {
      assert path[1..] == Along(c.refs[a[0]], a[1..]);
      ProofIsOnlyPath(c.refs[a[0]], a[1..]);
    }
    forall i | 0 <= i < |c.refs|
      ensures UnprunedCells(n.refs[i]) == if a != [] && i == a[0] then |a| else 0
    {
      assert n.refs[i] == ProofRef(path, false, c.refs[i]);
      if a == [] || i != a[0] {
        assert n.refs[i].kind.Pruned? && n.refs[i].refs == [];
      }
    }
    OnlyOneRefCounts(n, |n.refs|, a);
  }

  lemma OnlyOneRefCounts(n: Cell, k: nat, a: Address)
    requires k <= |n.refs|
    requires forall i | 0 <= i < |n.refs| :: UnprunedCells(n.refs[i]) == if a != [] && i == a[0] then |a| else 0
    ensures UnprunedBelow(n, k) == if a != [] && a[0] < k then |a| else 0
  {
  }
}
