/** Where the parts of a tree stand, and in which order they are listed. */
module PartPositions {
  import opened Cells
  import opened BlockUtils
  import opened Paths

  /** At this position stands a reference that its parent splits off. */
  predicate IsPartAt(c: Cell, a: Address) {
    && a != [] && IsAddress(c, a[..|a| - 1])
    && var parent := At(c, a[..|a| - 1]);
       a[|a| - 1] < |parent.refs| && IsPartRef(parent, a[|a| - 1])
  }

  /** What is recorded for such a reference. */
  function PartAt(c: Cell, a: Address): SubTree
    requires IsPartAt(c, a)
  {
    var parent := At(c, a[..|a| - 1]);
    SubTree(parent.refs[a[|a| - 1]], parent, a[|a| - 1])
  }

  /** References are walked from left to right, and those of a cell are split off after everything below them. */
  predicate PartBefore(a: Address, b: Address)
    decreases |a|
  {
    && a != [] && b != []
    && if |a| == 1 then |b| == 1 && a[0] < b[0]
       else |b| == 1 || a[0] < b[0] || (a[0] == b[0] && PartBefore(a[1..], b[1..]))
  }

  ghost predicate InPartOrder(list: seq<Address>) {
    forall i, j | 0 <= i < j < |list| :: PartBefore(list[i], list[j])
  }

  function PartAddresses(c: Cell): seq<Address>
    decreases c, |c.refs| + 1
  {
    ChildAddresses(c, |c.refs|) + OwnAddresses(c, |c.refs|)
  }

  function ChildAddresses(c: Cell, k: nat): seq<Address>
    requires k <= |c.refs|
    decreases c, k
  {
    if k == 0 then [] else ChildAddresses(c, k - 1) + Unshift(k - 1, PartAddresses(c.refs[k - 1]))
  }

  function OwnAddresses(c: Cell, k: nat): seq<Address>
    requires k <= |c.refs|
  {
    if k == 0 then [] else OwnAddresses(c, k - 1) + if IsPartRef(c, k - 1) then [[k - 1]] else []
  }

  // --------------------------------------------------------- what is recorded

  /** The parts are those at these positions. */
  ghost predicate Records(c: Cell, parts: seq<SubTree>, list: seq<Address>) {
    |parts| == |list| && forall i | 0 <= i < |list| :: IsPartAt(c, list[i]) && parts[i] == PartAt(c, list[i])
  }

  lemma RecordsAppend(c: Cell, p: seq<SubTree>, a: seq<Address>, q: seq<SubTree>, b: seq<Address>)
    requires Records(c, p, a) && Records(c, q, b)
    ensures Records(c, p + q, a + b)
  {
  }

  lemma PartBelow(c: Cell, k: nat, a: Address)
    requires k < |c.refs| && a != []
    ensures IsPartAt(c, [k] + a) <==> IsPartAt(c.refs[k], a)
    ensures IsPartAt(c, [k] + a) ==> PartAt(c, [k] + a) == PartAt(c.refs[k], a)
  {
    var up := [k] + a;
    assert up[..|up| - 1] == [k] + a[..|a| - 1] && ([k] + a[..|a| - 1])[1..] == a[..|a| - 1];
  }

  lemma RecordsBelow(c: Cell, k: nat, parts: seq<SubTree>, list: seq<Address>)
    requires k < |c.refs| && Records(c.refs[k], parts, list)
    ensures Records(c, parts, Unshift(k, list))
  {
    forall i | 0 <= i < |list|
      ensures IsPartAt(c, [k] + list[i]) && parts[i] == PartAt(c, [k] + list[i])
    {
      PartBelow(c, k, list[i]);
    }
  }

  lemma {:induction false} PartsRecorded(c: Cell)
    ensures Records(c, PartsOf(c), PartAddresses(c))
    decreases c, |c.refs| + 1
  {
    ChildrenRecorded(c, |c.refs|);
    OwnRecorded(c, |c.refs|);
    RecordsAppend(c, ChildParts(c, |c.refs|), ChildAddresses(c, |c.refs|),
                  OwnParts(c, |c.refs|), OwnAddresses(c, |c.refs|));
  }

  lemma {:induction false} ChildrenRecorded(c: Cell, k: nat)
    requires k <= |c.refs|
    ensures Records(c, ChildParts(c, k), ChildAddresses(c, k))
    decreases c, k
  {
    if k > 0 {
      var r := c.refs[k - 1];
      ChildrenRecorded(c, k - 1);
      PartsRecorded(r);
      RecordsBelow(c, k - 1, PartsOf(r), PartAddresses(r));
      RecordsAppend(c, ChildParts(c, k - 1), ChildAddresses(c, k - 1), PartsOf(r), Unshift(k - 1, PartAddresses(r)));
    }
  }

  lemma {:induction false} OwnRecorded(c: Cell, k: nat)
    requires k <= |c.refs|
    ensures Records(c, OwnParts(c, k), OwnAddresses(c, k))
    ensures forall i | 0 <= i < |OwnAddresses(c, k)| :: |OwnAddresses(c, k)[i]| == 1 && OwnAddresses(c, k)[i][0] < k
    decreases k
  {
    if k > 0 {
      OwnRecorded(c, k - 1);
      assert [k - 1][..0] == [] && At(c, []) == c;
    }
  }

  // ---------------------------------------------------------------- their order

  lemma OrderAppend(a: seq<Address>, b: seq<Address>)
    requires InPartOrder(a) && InPartOrder(b)
    requires forall i, j | 0 <= i < |a| && 0 <= j < |b| :: PartBefore(a[i], b[j])
    ensures InPartOrder(a + b)
  {
  }

  lemma OrderBelow(k: nat, list: seq<Address>)
    requires InPartOrder(list)
    ensures InPartOrder(Unshift(k, list))
  {
    forall i, j | 0 <= i < j < |list|
      ensures PartBefore([k] + list[i], [k] + list[j])
    {
      assert ([k] + list[i])[1..] == list[i] && ([k] + list[j])[1..] == list[j];
    }
  }

  lemma {:induction false} PartsOrdered(c: Cell)
    ensures InPartOrder(PartAddresses(c)) && forall i | 0 <= i < |PartAddresses(c)| :: PartAddresses(c)[i] != []
    decreases c, |c.refs| + 1
  {
    ChildrenOrdered(c, |c.refs|);
    OwnOrdered(c, |c.refs|);
    OwnRecorded(c, |c.refs|);
    OrderAppend(ChildAddresses(c, |c.refs|), OwnAddresses(c, |c.refs|));
  }

  lemma {:induction false} ChildrenOrdered(c: Cell, k: nat)
    requires k <= |c.refs|
    ensures InPartOrder(ChildAddresses(c, k))
    ensures forall i | 0 <= i < |ChildAddresses(c, k)| ::
              |ChildAddresses(c, k)[i]| > 1 && ChildAddresses(c, k)[i][0] < k
    decreases c, k
  {
    if k > 0 {
      ChildrenOrdered(c, k - 1);
      PartsOrdered(c.refs[k - 1]);
      OrderBelow(k - 1, PartAddresses(c.refs[k - 1]));
      OrderAppend(ChildAddresses(c, k - 1), Unshift(k - 1, PartAddresses(c.refs[k - 1])));
    }
  }

  lemma {:induction false} OwnOrdered(c: Cell, k: nat)
    requires k <= |c.refs|
    ensures InPartOrder(OwnAddresses(c, k))
    decreases k
  {
    if k > 0 {
      OwnOrdered(c, k - 1);
      OwnRecorded(c, k - 1);
      OrderAppend(OwnAddresses(c, k - 1), if IsPartRef(c, k - 1) then [[k - 1]] else []);
    }
  }

  // ------------------------------------------------------------------ all of them

  lemma {:induction false} EveryPartListed(c: Cell, a: Address)
    requires IsPartAt(c, a)
    ensures a in PartAddresses(c)
    decreases |a|
  {
    if |a| == 1 {
      assert a[..0] == [];
      OwnListed(c, a, |c.refs|);
    } else {
      assert a == [a[0]] + a[1..] && a[..|a| - 1] != [];
      PartBelow(c, a[0], a[1..]);
      EveryPartListed(c.refs[a[0]], a[1..]);
      ListedBelow(c, a, |c.refs|);
    }
  }

  lemma {:induction false} OwnListed(c: Cell, a: Address, k: nat)
    requires |a| == 1 && a[0] < k <= |c.refs| && IsPartRef(c, a[0])
    ensures a in OwnAddresses(c, k)
    decreases k
  {
    if a[0] < k - 1 {
      OwnListed(c, a, k - 1);
    } else {
      assert a == [k - 1];
    }
  }

  lemma {:induction false} ListedBelow(c: Cell, a: Address, k: nat)
    requires |a| > 1 && a[0] < k <= |c.refs| && a[1..] in PartAddresses(c.refs[a[0]])
    ensures a in ChildAddresses(c, k)
    decreases k
  {
    if a[0] < k - 1 {
      ListedBelow(c, a, k - 1);
    } else {
      var here := PartAddresses(c.refs[k - 1]);
      var i :| 0 <= i < |here| && here[i] == a[1..];
      assert Unshift(k - 1, here)[i] == a;
    }
  }

  /** The parts are recorded in the order in which the walk leaves their parents, each position exactly once. */
  lemma PartsByPosition(c: Cell) returns (list: seq<Address>)
    ensures |list| == |PartsOf(c)| && InPartOrder(list)
    ensures forall i | 0 <= i < |list| ::
              && IsPartAt(c, list[i]) && PartsOf(c)[i].parentCell == At(c, list[i][..|list[i]| - 1])
              && PartsOf(c)[i].refIndex == list[i][|list[i]| - 1]
              && PartsOf(c)[i].root == PartsOf(c)[i].parentCell.refs[PartsOf(c)[i].refIndex]
    ensures forall a :: a in list <==> IsPartAt(c, a)
  {
    list := PartAddresses(c);
    PartsRecorded(c);
    PartsOrdered(c);
    forall a
      ensures a in list <==> IsPartAt(c, a)
    {
      if IsPartAt(c, a) { EveryPartListed(c, a); }
    }
  }

  /** No position comes before itself, so none is listed twice. */
  lemma {:induction false} PartOrderIsStrict(a: Address, b: Address)
    ensures !PartBefore(a, a) && !(PartBefore(a, b) && PartBefore(b, a))
    ensures a != [] && b != [] && a != b ==> PartBefore(a, b) || PartBefore(b, a)
    decreases |a|
  {
    if |a| > 1 && |b| > 1 {
      PartOrderIsStrict(a[1..], b[1..]);
      assert a == [a[0]] + a[1..] && b == [b[0]] + b[1..];
    } else if |a| > 1 {
      PartOrderIsStrict(a[1..], a[1..]);
    }
  }
}
