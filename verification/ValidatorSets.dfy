/** Validators, the main ones among them, and the weight that signed a message. */
module ValidatorSets {
  import opened ByteStrings
  import opened Results

  type NodeId = string

  datatype Validator = Validator(nodeId: NodeId, pubKey: Bytes, weight: nat)

  // -------------------------------------------------------------------- records

  /** Assigning a property of an object: an old key keeps its place, a new one goes to the end. */
  function Assign(record: seq<Validator>, v: Validator): seq<Validator> {
    if record == [] then [v]
    else if record[0].nodeId == v.nodeId then [v] + record[1..]
    else [record[0]] + Assign(record[1..], v)
  }

  /** The values, in order, of the object that maps node ids to validators. */
  function Record(validators: seq<Validator>): seq<Validator> {
    if validators == [] then []
    else Assign(Record(validators[..|validators| - 1]), validators[|validators| - 1])
  }

  ghost predicate DistinctIds(validators: seq<Validator>) {
    forall i, j | 0 <= i < j < |validators| :: validators[i].nodeId != validators[j].nodeId
  }

  function Find(record: seq<Validator>, id: NodeId): (r: Option<Validator>)
    ensures r.Some? ==> r.value in record && r.value.nodeId == id
    ensures r.None? ==> forall i | 0 <= i < |record| :: record[i].nodeId != id
  {
    if record == [] then None else if record[0].nodeId == id then Some(record[0]) else Find(record[1..], id)
  }

  lemma {:induction false} AssignDistinct(record: seq<Validator>, v: Validator)
    requires DistinctIds(record)
    ensures DistinctIds(Assign(record, v))
    ensures forall i | 0 <= i < |Assign(record, v)| :: Assign(record, v)[i] == v || Assign(record, v)[i] in record
  {
    if record != [] {
      AssignDistinct(record[1..], v);
      if record[0].nodeId != v.nodeId {
        var rest := Assign(record[1..], v);
        forall i | 0 <= i < |rest|
          ensures rest[i].nodeId != record[0].nodeId
        {
          if rest[i] != v {
            var k :| 0 <= k < |record[1..]| && record[1..][k] == rest[i];
            assert record[k + 1] == rest[i];
          }
        }
        assert Assign(record, v) == [record[0]] + rest;
      }
    }
  }

  lemma {:induction false} AssignFind(record: seq<Validator>, v: Validator, id: NodeId)
    ensures Find(Assign(record, v), id) == if id == v.nodeId then Some(v) else Find(record, id)
  {
    if record != [] && record[0].nodeId != v.nodeId {
      AssignFind(record[1..], v, id);
      assert Assign(record, v)[1..] == Assign(record[1..], v);
    }
  }

  lemma {:induction false} AssignNew(record: seq<Validator>, v: Validator)
    requires forall i | 0 <= i < |record| :: record[i].nodeId != v.nodeId
    ensures Assign(record, v) == record + [v]
  {
    if record != [] {
      AssignNew(record[1..], v);
    }
  }

  /** The last validator that was given for an id. */
  function FindLast(validators: seq<Validator>, id: NodeId): Option<Validator> {
    if validators == [] then None
    else if validators[|validators| - 1].nodeId == id then Some(validators[|validators| - 1])
    else FindLast(validators[..|validators| - 1], id)
  }

  /** The object keeps one validator for an id, the last one given, and a list of distinct ones as it is. */
  lemma {:induction false} RecordKeepsLast(validators: seq<Validator>, id: NodeId)
    ensures DistinctIds(Record(validators)) && Find(Record(validators), id) == FindLast(validators, id)
    decreases |validators|
  {
    if validators != [] {
      var front, v := validators[..|validators| - 1], validators[|validators| - 1];
      RecordKeepsLast(front, id);
      AssignDistinct(Record(front), v);
      AssignFind(Record(front), v, id);
    }
  }

  function NodeIds(validators: seq<Validator>): (ids: seq<NodeId>)
    ensures |ids| == |validators| && forall i | 0 <= i < |ids| :: ids[i] == validators[i].nodeId
  {
    seq(|validators|, i requires 0 <= i < |validators| => validators[i].nodeId)
  }

  lemma {:induction false} AssignIds(record: seq<Validator>, v: Validator)
    ensures NodeIds(Assign(record, v))
            == if v.nodeId in NodeIds(record) then NodeIds(record) else NodeIds(record) + [v.nodeId]
  {
    if record != [] && record[0].nodeId != v.nodeId {
      AssignIds(record[1..], v);
      assert NodeIds(record) == [record[0].nodeId] + NodeIds(record[1..]);
      assert NodeIds(Assign(record, v)) == [record[0].nodeId] + NodeIds(Assign(record[1..], v));
    }
  }

  /** The ids stand in the order in which they were given first. */
  lemma {:induction false} RecordInOrder(validators: seq<Validator>)
    ensures NodeIds(Record(validators)) == Once(NodeIds(validators))
    decreases |validators|
  {
    if validators != [] {
      var n := |validators| - 1;
      RecordInOrder(validators[..n]);
      OnceIsDistinct(NodeIds(validators[..n]));
      AssignIds(Record(validators[..n]), validators[n]);
      assert NodeIds(validators)[..n] == NodeIds(validators[..n]);
    }
  }

  lemma {:induction false} RecordOfDistinct(validators: seq<Validator>)
    requires DistinctIds(validators)
    ensures Record(validators) == validators
    decreases |validators|
  {
    if validators != [] {
      var front, v := validators[..|validators| - 1], validators[|validators| - 1];
      RecordOfDistinct(front);
      AssignNew(front, v);
      assert validators == front + [v];
    }
  }

  // -------------------------------------------------------------------- sorting

  const TWO_64 := 0x1_0000_0000_0000_0000

  /** The last `n` hexadecimal digits of `w`. */
  function Hex(w: nat, n: nat): (ds: seq<nat>)
    ensures |ds| == n
  {
    if n == 0 then [] else Hex(w / 16, n - 1) + [w % 16]
  }

  /** `toString(16, 16)`: the hexadecimal digits, padded to a multiple of sixteen. */
  function SortKey(w: nat): seq<nat> {
    if w < TWO_64 then Hex(w, 16) else SortKey(w / TWO_64) + Hex(w % TWO_64, 16)
  }

  predicate LexLess(a: seq<nat>, b: seq<nat>) {
    b != [] && (a == [] || a[0] < b[0] || (a[0] == b[0] && LexLess(a[1..], b[1..])))
  }

  lemma LexAsymmetric(a: seq<nat>, b: seq<nat>)
    ensures !(LexLess(a, b) && LexLess(b, a))
  {
  }

  lemma {:induction false} LexLessLast(a: seq<nat>, b: seq<nat>, x: nat, y: nat)
    requires |a| == |b|
    ensures LexLess(a + [x], b + [y]) <==> LexLess(a, b) || (a == b && x < y)
    decreases |a|
  {
    if a != [] {
      LexLessLast(a[1..], b[1..], x, y);
      assert (a + [x])[1..] == a[1..] + [x] && (b + [y])[1..] == b[1..] + [y];
      assert a == b <==> a[0] == b[0] && a[1..] == b[1..];
    }
  }

  function Pow16(n: nat): nat {
    if n == 0 then 1 else 16 * Pow16(n - 1)
  }

  lemma {:induction false} HexOrder(v: nat, w: nat, n: nat)
    requires v < Pow16(n) && w < Pow16(n)
    ensures LexLess(Hex(v, n), Hex(w, n)) <==> v < w
    ensures Hex(v, n) == Hex(w, n) <==> v == w
    decreases n
  {
    if n > 0 {
      HexOrder(v / 16, w / 16, n - 1);
      LexLessLast(Hex(v / 16, n - 1), Hex(w / 16, n - 1), v % 16, w % 16);
      var a, b := Hex(v, n), Hex(w, n);
      assert a[..n - 1] == Hex(v / 16, n - 1) && b[..n - 1] == Hex(w / 16, n - 1);
      assert a[n - 1] == v % 16 && b[n - 1] == w % 16;
    }
  }

  /** For 64-bit weights the order of the padded strings is the order of the numbers. */
  lemma SortKeyOrder(v: nat, w: nat)
    requires v < TWO_64 && w < TWO_64
    ensures LexLess(SortKey(v), SortKey(w)) <==> v < w
  {
    assert Pow16(4) == 0x1_0000;
    assert Pow16(8) == 0x1_0000_0000;
    assert Pow16(12) == 0x1_0000_0000_0000;
    assert Pow16(16) == TWO_64;
    HexOrder(v, w, 16);
  }

  predicate KeyLeq(v: Validator, w: Validator) {
    !LexLess(SortKey(w.weight), SortKey(v.weight))
  }

  /** Puts `v` behind everything that does not come after it. */
  function Insert(leq: (Validator, Validator) -> bool, sorted: seq<Validator>, v: Validator): seq<Validator> {
    var n := |sorted|;
    if n == 0 || leq(sorted[n - 1], v) then sorted + [v] else Insert(leq, sorted[..n - 1], v) + [sorted[n - 1]]
  }

  /** The stable sort of the library. */
  function SortBy(leq: (Validator, Validator) -> bool, s: seq<Validator>): seq<Validator> {
    var n := |s|;
    if n == 0 then [] else Insert(leq, SortBy(leq, s[..n - 1]), s[n - 1])
  }

  predicate SortedBy(leq: (Validator, Validator) -> bool, s: seq<Validator>) {
    forall i | 0 < i < |s| :: leq(s[i - 1], s[i])
  }

  ghost predicate IsTotal(leq: (Validator, Validator) -> bool) {
    forall v, w :: leq(v, w) || leq(w, v)
  }

  lemma SortedAppend(leq: (Validator, Validator) -> bool, s: seq<Validator>, v: Validator)
    requires SortedBy(leq, s) && (s != [] ==> leq(s[|s| - 1], v))
    ensures SortedBy(leq, s + [v])
  {
  }

  lemma {:induction false} InsertSorts(leq: (Validator, Validator) -> bool, sorted: seq<Validator>, v: Validator)
    requires IsTotal(leq) && SortedBy(leq, sorted)
    ensures var r := Insert(leq, sorted, v);
            && SortedBy(leq, r) && r != []
            && (r[|r| - 1] == v || (sorted != [] && r[|r| - 1] == sorted[|sorted| - 1]))
    decreases |sorted|
  {
    var n := |sorted|;
    if n == 0 || leq(sorted[n - 1], v) {
      SortedAppend(leq, sorted, v);
    } else {
      InsertSorts(leq, sorted[..n - 1], v);
      SortedAppend(leq, Insert(leq, sorted[..n - 1], v), sorted[n - 1]);
    }
  }

  lemma {:induction false} InsertPermutes(leq: (Validator, Validator) -> bool, sorted: seq<Validator>, v: Validator)
    ensures multiset(Insert(leq, sorted, v)) == multiset(sorted) + multiset{v}
    decreases |sorted|
  {
    var n := |sorted|;
    if n > 0 && !leq(sorted[n - 1], v) {
      assert sorted == sorted[..n - 1] + [sorted[n - 1]];
      InsertPermutes(leq, sorted[..n - 1], v);
    }
  }

  lemma {:induction false} SortBySorts(leq: (Validator, Validator) -> bool, s: seq<Validator>)
    requires IsTotal(leq)
    ensures SortedBy(leq, SortBy(leq, s)) && multiset(SortBy(leq, s)) == multiset(s)
    decreases |s|
  {
    var n := |s|;
    if n > 0 {
      assert s == s[..n - 1] + [s[n - 1]];
      SortBySorts(leq, s[..n - 1]);
      InsertSorts(leq, SortBy(leq, s[..n - 1]), s[n - 1]);
      InsertPermutes(leq, SortBy(leq, s[..n - 1]), s[n - 1]);
    }
  }

  lemma {:induction false} SortingSorted(leq: (Validator, Validator) -> bool, s: seq<Validator>)
    requires SortedBy(leq, s)
    ensures SortBy(leq, s) == s
    decreases |s|
  {
    var n := |s|;
    if n > 0 {
      SortingSorted(leq, s[..n - 1]);
      assert s == s[..n - 1] + [s[n - 1]];
    }
  }

  lemma {:induction false} InsertDistinct(leq: (Validator, Validator) -> bool, sorted: seq<Validator>, v: Validator)
    requires DistinctIds(sorted) && forall i | 0 <= i < |sorted| :: sorted[i].nodeId != v.nodeId
    ensures DistinctIds(Insert(leq, sorted, v))
    ensures forall w | w in Insert(leq, sorted, v) :: w == v || w in sorted
    decreases |sorted|
  {
    var n := |sorted|;
    if n > 0 && !leq(sorted[n - 1], v) {
      InsertDistinct(leq, sorted[..n - 1], v);
      var front := Insert(leq, sorted[..n - 1], v);
      forall i | 0 <= i < |front|
        ensures front[i].nodeId != sorted[n - 1].nodeId
      {
        assert front[i] in front;
      }
    }
  }

  lemma {:induction false} SortDistinct(leq: (Validator, Validator) -> bool, s: seq<Validator>)
    requires DistinctIds(s)
    ensures DistinctIds(SortBy(leq, s))
    ensures forall w | w in SortBy(leq, s) :: w in s
    decreases |s|
  {
    var n := |s|;
    if n > 0 {
      SortDistinct(leq, s[..n - 1]);
      var sorted := SortBy(leq, s[..n - 1]);
      forall i | 0 <= i < |sorted|
        ensures sorted[i].nodeId != s[n - 1].nodeId
      {
        assert sorted[i] in sorted;
      }
      InsertDistinct(leq, sorted, s[n - 1]);
    }
  }

  /** Validators by the padded hexadecimal string of their weight. */
  function SortByWeight(validators: seq<Validator>): seq<Validator> {
    SortBy(KeyLeq, validators)
  }

  lemma KeyLeqIsTotal()
    ensures IsTotal(KeyLeq)
  {
    forall v: Validator, w: Validator
      ensures KeyLeq(v, w) || KeyLeq(w, v)
    {
      LexAsymmetric(SortKey(v.weight), SortKey(w.weight));
    }
  }

  // ------------------------------------------------------------------- main set

  function TakeRight(s: seq<Validator>, n: nat): seq<Validator> {
    if n >= |s| then s else s[|s| - n..]
  }

  function Weight(s: seq<Validator>): nat {
    if s == [] then 0 else Weight(s[..|s| - 1]) + s[|s| - 1].weight
  }

  lemma WeightAppend(s: seq<Validator>, v: Validator)
    ensures Weight(s + [v]) == Weight(s) + v.weight
  {
    assert (s + [v])[..|s|] == s;
  }

  /** The weight of two lists is the sum of their weights; nothing weighs nothing. */
  lemma {:induction false} WeightAdds(a: seq<Validator>, b: seq<Validator>)
    ensures Weight(a + b) == Weight(a) + Weight(b)
    ensures Weight([]) == 0 && forall v: Validator :: Weight([v]) == v.weight
    decreases |b|
  {
    if b == [] {
      assert a + b == a;
      forall v: Validator
        ensures Weight([v]) == v.weight
      {
        WeightAppend([], v);
        assert [] + [v] == [v];
      }
    } else {
      var n := |b| - 1;
      WeightAdds(a, b[..n]);
      WeightAppend(a + b[..n], b[n]);
      assert a + b == a + b[..n] + [b[n]];
    }
  }

  /** The main validators of a record. */
  function MainOf(record: seq<Validator>, main: nat): (r: seq<Validator>)
  {
    TakeRight(SortByWeight(record), main)
  }

  ghost predicate Below64(s: seq<Validator>) {
    forall v | v in s :: v.weight < TWO_64
  }

  ghost predicate Ascending(s: seq<Validator>) {
    forall i, j | 0 <= i < j < |s| :: s[i].weight <= s[j].weight
  }

  lemma {:induction false} SortedAscends(s: seq<Validator>)
    requires SortedBy(KeyLeq, s) && Below64(s)
    ensures Ascending(s)
    decreases |s|
  {
    var n := |s| - 1;
    if n > 0 {
      assert s == s[..n] + [s[n]];
      SortedAscends(s[..n]);
      assert KeyLeq(s[n - 1], s[n]);
      SortKeyOrder(s[n].weight, s[n - 1].weight);
    }
  }

  /** Taking out one validator. */
  lemma {:induction false} Remove(s: seq<Validator>, v: Validator) returns (rest: seq<Validator>)
    requires v in s
    ensures |rest| == |s| - 1 && Weight(s) == Weight(rest) + v.weight && multiset(s) == multiset(rest) + multiset{v}
    decreases |s|
  {
    var n := |s| - 1;
    assert s == s[..n] + [s[n]];
    if s[n] == v {
      rest := s[..n];
    } else {
      var front := Remove(s[..n], v);
      rest := front + [s[n]];
      assert rest[..n - 1] == front;
    }
  }

  lemma LessAfterRemoval(a: multiset<Validator>, b: multiset<Validator>, x: Validator, y: Validator)
    requires a + multiset{x} <= b + multiset{y} && (x == y || y !in a + multiset{x})
    ensures a <= b
  {
    forall e | e in a
      ensures a[e] <= b[e]
    {
      assert (a + multiset{x})[e] <= (b + multiset{y})[e];
    }
  }

  /** Taking the heaviest chosen validator out leaves a choice from the list without its last one. */
  lemma DropHeaviest(s: seq<Validator>, sub: seq<Validator>) returns (x: Validator, rest: seq<Validator>)
    requires Ascending(s) && multiset(sub) <= multiset(s) && sub != []
    ensures s != [] && x.weight <= s[|s| - 1].weight
    ensures |rest| == |sub| - 1 && Weight(sub) == Weight(rest) + x.weight
    ensures multiset(rest) <= multiset(s[..|s| - 1]) && Ascending(s[..|s| - 1])
  {
    assert sub[0] in multiset(sub) && sub[0] in multiset(s);
    var n := |s| - 1;
    assert s == s[..n] + [s[n]];
    x := if s[n] in sub then s[n] else sub[0];
    rest := Remove(sub, x);
    assert x in multiset(s);
    var i := IndexOf(s, x);
    assert i < n ==> s[i].weight <= s[n].weight;
    LessAfterRemoval(multiset(rest), multiset(s[..n]), x, s[n]);
  }

  lemma TakeRightWeight(s: seq<Validator>, k: nat)
    requires s != [] && k > 0
    ensures Weight(TakeRight(s, k)) == Weight(TakeRight(s[..|s| - 1], k - 1)) + s[|s| - 1].weight
  {
    var taken := TakeRight(s, k);
    assert taken[..|taken| - 1] == TakeRight(s[..|s| - 1], k - 1);
  }

  /** Nothing chosen from an ascending list outweighs as many validators from its end. */
  lemma {:induction false} EndIsHeaviest(s: seq<Validator>, k: nat, sub: seq<Validator>)
    requires Ascending(s) && multiset(sub) <= multiset(s) && |sub| <= k
    ensures Weight(sub) <= Weight(TakeRight(s, k))
    decreases |s|
  {
    if sub != [] {
      var x, rest := DropHeaviest(s, sub);
      var front, last := s[..|s| - 1], s[|s| - 1];
      calc {
        Weight(sub);
        Weight(rest) + x.weight;
      <= { EndIsHeaviest(front, k - 1, rest); }
        Weight(TakeRight(front, k - 1)) + last.weight;
        { TakeRightWeight(s, k); }
        Weight(TakeRight(s, k));
      }
    }
  }

  function IndexOf(s: seq<Validator>, v: Validator): (i: nat)
    requires v in s
    ensures i < |s| && s[i] == v
  {
    if s[0] == v then 0 else 1 + IndexOf(s[1..], v)
  }

  /** Sorting puts 64-bit weights in ascending order and loses nothing. */
  lemma SortByWeightAscends(record: seq<Validator>)
    requires Below64(record)
    ensures Ascending(SortByWeight(record)) && multiset(SortByWeight(record)) == multiset(record)
  {
    var s := SortByWeight(record);
    KeyLeqIsTotal();
    SortBySorts(KeyLeq, record);
    forall v | v in s
      ensures v.weight < TWO_64
    {
      assert v in multiset(record);
    }
    SortedAscends(s);
  }

  lemma TakeRightIsPart(s: seq<Validator>, n: nat)
    ensures multiset(TakeRight(s, n)) <= multiset(s)
  {
    assert s == s[..|s| - |TakeRight(s, n)|] + TakeRight(s, n);
  }

  /** The main set is as large as it may be, and no other choice of that size weighs more. */
  lemma MainIsHeaviest(record: seq<Validator>, main: nat, sub: seq<Validator>)
    requires Below64(record) && multiset(sub) <= multiset(record) && |sub| <= main
    ensures |MainOf(record, main)| == if main < |record| then main else |record|
    ensures multiset(MainOf(record, main)) <= multiset(record)
    ensures Weight(sub) <= Weight(MainOf(record, main))
  {
    var s := SortByWeight(record);
    SortByWeightAscends(record);
    assert |multiset(s)| == |multiset(record)|;
    TakeRightIsPart(s, main);
    EndIsHeaviest(s, main, sub);
  }

  /** Selecting the main validators of the main set changes nothing. */
  lemma MainOfMain(record: seq<Validator>, main: nat)
    ensures MainOf(MainOf(record, main), main) == MainOf(record, main)
  {
    KeyLeqIsTotal();
    SortBySorts(KeyLeq, record);
    SortingSorted(KeyLeq, MainOf(record, main));
  }

  // -------------------------------------------------------- which ones are chosen

  /** The `i`-th validator comes before the `j`-th: it weighs less, or as much and was given earlier. */
  predicate Precedes(s: seq<Validator>, i: nat, j: nat)
    requires i < |s| && j < |s|
  {
    s[i].weight < s[j].weight || (s[i].weight == s[j].weight && i < j)
  }

  /** These are the validators at these places of `s`. */
  ghost predicate ArePlaces(s: seq<Validator>, chosen: seq<Validator>, places: seq<nat>) {
    |chosen| == |places| && forall k | 0 <= k < |places| :: places[k] < |s| && chosen[k] == s[places[k]]
  }

  ghost predicate PlacesAscend(s: seq<Validator>, places: seq<nat>) {
    forall k, l | 0 <= k < l < |places| :: places[k] < |s| && places[l] < |s| && Precedes(s, places[k], places[l])
  }

  lemma KeyLeqMeans(v: Validator, w: Validator)
    requires v.weight < TWO_64 && w.weight < TWO_64
    ensures KeyLeq(v, w) <==> v.weight <= w.weight
  {
    SortKeyOrder(w.weight, v.weight);
  }

  lemma PlaceBehind(s: seq<Validator>, chosen: seq<Validator>, places: seq<nat>, p: nat)
    requires ArePlaces(s, chosen, places) && PlacesAscend(s, places) && p < |s|
    requires forall k | 0 <= k < |places| :: Precedes(s, places[k], p)
    ensures ArePlaces(s, chosen + [s[p]], places + [p]) && PlacesAscend(s, places + [p])
  {
  }

  /** The new validator goes behind all others, unless the last one weighs more. */
  lemma InsertLast(s: seq<Validator>, n: nat, sorted: seq<Validator>, places: seq<nat>)
    requires Below64(s) && n < |s| && ArePlaces(s, sorted, places) && PlacesAscend(s, places)
    requires forall k | 0 <= k < |places| :: places[k] < n
    requires sorted == [] || KeyLeq(sorted[|sorted| - 1], s[n])
    ensures ArePlaces(s, sorted + [s[n]], places + [n]) && PlacesAscend(s, places + [n])
  {
    forall k | 0 <= k < |places|
      ensures Precedes(s, places[k], n)
    {
      var m := |places| - 1;
      KeyLeqMeans(sorted[m], s[n]);
      assert k < m ==> Precedes(s, places[k], places[m]);
    }
    PlaceBehind(s, sorted, places, n);
  }

  lemma {:induction false} InsertPlaces(s: seq<Validator>, n: nat, sorted: seq<Validator>, places: seq<nat>)
    returns (more: seq<nat>)
    requires Below64(s) && n < |s| && ArePlaces(s, sorted, places) && PlacesAscend(s, places)
    requires forall k | 0 <= k < |places| :: places[k] < n
    ensures ArePlaces(s, Insert(KeyLeq, sorted, s[n]), more) && PlacesAscend(s, more)
    ensures forall x: nat :: x in more <==> x == n || x in places
    decreases |sorted|
  {
    if sorted == [] || KeyLeq(sorted[|sorted| - 1], s[n]) {
      InsertLast(s, n, sorted, places);
      more := places + [n];
    } else {
      var m := |sorted| - 1;
      var front := InsertPlaces(s, n, sorted[..m], places[..m]);
      more := front + [places[m]];
      assert places == places[..m] + [places[m]];
      KeyLeqMeans(sorted[m], s[n]);
      forall k | 0 <= k < |front|
        ensures Precedes(s, front[k], places[m])
      {
        assert front[k] in front;
      }
      PlaceBehind(s, Insert(KeyLeq, sorted[..m], s[n]), front, places[m]);
    }
  }

  lemma {:induction false} SortPlaces(s: seq<Validator>, n: nat) returns (places: seq<nat>)
    requires Below64(s) && n <= |s|
    ensures ArePlaces(s, SortBy(KeyLeq, s[..n]), places) && PlacesAscend(s, places)
    ensures forall x: nat :: x in places <==> x < n
    decreases n
  {
    if n == 0 {
      places := [];
    } else {
      var front := SortPlaces(s, n - 1);
      assert s[..n][..n - 1] == s[..n - 1];
      forall k | 0 <= k < |front|
        ensures front[k] < n - 1
      {
        assert front[k] in front;
      }
      places := InsertPlaces(s, n - 1, SortBy(KeyLeq, s[..n - 1]), front);
    }
  }

  /** Sorting is stable: validators of equal weight stay in the order in which they were given. */
  lemma SortIsStable(record: seq<Validator>) returns (places: seq<nat>)
    requires Below64(record)
    ensures ArePlaces(record, SortByWeight(record), places) && PlacesAscend(record, places)
    ensures forall x: nat :: x in places <==> x < |record|
  {
    assert record[..|record|] == record;
    places := SortPlaces(record, |record|);
  }

  /** What is not among the last places comes before them. */
  lemma OthersComeBefore(s: seq<Validator>, all: seq<nat>, n: nat, x: nat)
    requires PlacesAscend(s, all) && (forall k | 0 <= k < |all| :: all[k] < |s|)
    requires n <= |all| && x in all && x !in all[n..]
    ensures x < |s| && forall k | n <= k < |all| :: Precedes(s, x, all[k])
  {
    var l :| 0 <= l < |all| && all[l] == x;
    var last := all[n..];
    assert forall k | n <= k < |all| :: last[k - n] == all[k] && all[k] in last;
    assert l < n;
  }

  /** The main validators are the last ones in that order: heavier than all others, or as heavy and given later. */
  lemma MainComeLast(record: seq<Validator>, main: nat) returns (places: seq<nat>)
    requires Below64(record)
    ensures |places| == if main < |record| then main else |record|
    ensures ArePlaces(record, MainOf(record, main), places) && PlacesAscend(record, places)
    ensures forall x, k | 0 <= x < |record| && x !in places && 0 <= k < |places| :: Precedes(record, x, places[k])
  {
    var all := SortIsStable(record);
    MainIsHeaviest(record, main, []);
    var n := |all| - |MainOf(record, main)|;
    places := all[n..];
    assert forall k | 0 <= k < |places| :: places[k] == all[n + k];
    forall x, k | 0 <= x < |record| && x !in places && 0 <= k < |places|
      ensures Precedes(record, x, places[k])
    {
      OthersComeBefore(record, all, n, x);
      assert places[k] == all[n + k];
    }
  }

  lemma {:induction false} MembersWeigh(a: seq<Validator>, b: seq<Validator>)
    requires multiset(a) <= multiset(b)
    ensures Weight(a) <= Weight(b)
    decreases |a|
  {
    if a != [] {
      var n := |a| - 1;
      assert a == a[..n] + [a[n]];
      assert a[n] in multiset(a) && a[n] in multiset(b);
      var rest := Remove(b, a[n]);
      LessAfterRemoval(multiset(a[..n]), multiset(rest), a[n], a[n]);
      MembersWeigh(a[..n], rest);
    }
  }

  // -------------------------------------------------------------------- classes

  class ValidatorSet {
    /** The values of the object that maps node ids to validators. */
    const record: seq<Validator>
    const mainValidators: nat
    const totalWeight: nat
    /** The main set, once it has been asked for. */
    var main: ValidatorSet?

    constructor (validators: seq<Validator>, mainValidators: nat, totalWeight: nat)
      ensures record == Record(validators)
      ensures this.mainValidators == mainValidators && this.totalWeight == totalWeight && main == null
    {
      this.record := Record(validators);
      this.mainValidators, this.totalWeight := mainValidators, totalWeight;
      main := null;
    }

    /** A main set that is remembered is the right one. */
    ghost predicate Valid()
      reads this
    {
      DistinctIds(record) && (main != null ==> IsMainOf(main))
    }

    ghost predicate IsMainOf(m: ValidatorSet) {
      && m.record == MainOf(record, mainValidators)
      && m.mainValidators == mainValidators
      && m.totalWeight == Weight(MainOf(record, mainValidators))
    }

    method BuildMainValidatorSet() returns (r: ValidatorSet)
      requires DistinctIds(record)
      ensures fresh(r) && r.Valid() && IsMainOf(r)
      ensures r.totalWeight == Weight(r.record)
    {
      var sorted := SortByWeight(record);
      var res := TakeRight(sorted, mainValidators);
      var mainWeight := 0;
      for i := 0 to |res|
        invariant mainWeight == Weight(res[..i])
      {
        mainWeight := mainWeight + res[i].weight;
        assert res[..i + 1][..i] == res[..i];
      }
      assert res[..|res|] == res;
      SortDistinct(KeyLeq, record);
      RecordOfDistinct(res);
      r := new ValidatorSet(res, mainValidators, mainWeight);
    }

    /** The getter `Main`: computed the first time and remembered. */
    method GetMain() returns (r: ValidatorSet)
      requires Valid()
      modifies this`main
      ensures Valid() && main == r && IsMainOf(r)
      ensures if old(main) == null then fresh(r) else r == old(main)
    {
      if main == null {
        main := BuildMainValidatorSet();
      }
      r := main;
    }

    method FindById(nodeId: NodeId) returns (r: Option<Validator>)
      ensures r == Find(record, nodeId)
    {
      r := Find(record, nodeId);
    }
  }

  // ------------------------------------------------------------------ signatures

  datatype Signature = Signature(nodeId: string, r: string, s: string)

  /** The validators that the signatures name, or nothing if one of them is unknown. */
  function Signers(record: seq<Validator>, ids: seq<NodeId>): Option<seq<Validator>> {
    if ids == [] then Some([])
    else
      match (Signers(record, ids[..|ids| - 1]), Find(record, ids[|ids| - 1]))
      case (Some(vs), Some(v)) => Some(vs + [v])
      case _ => None
  }

  function DecodedIds(signatures: seq<Signature>, decode: string -> NodeId): (ids: seq<NodeId>)
    ensures |ids| == |signatures| && forall i | 0 <= i < |ids| :: ids[i] == decode(signatures[i].nodeId)
  {
    seq(|signatures|, i requires 0 <= i < |signatures| => decode(signatures[i].nodeId))
  }

  lemma {:induction false} SignersPrefix(record: seq<Validator>, ids: seq<NodeId>, i: nat)
    requires i <= |ids| && Signers(record, ids[..i]).None?
    ensures Signers(record, ids).None?
    decreases |ids|
  {
    if i < |ids| {
      assert ids[..|ids| - 1][..i] == ids[..i];
      SignersPrefix(record, ids[..|ids| - 1], i);
    } else {
      assert ids[..i] == ids;
    }
  }

  /** Adds up the weights of the signers; fails at the first unknown node id. Nothing that exists is changed. */
  method Verify(validators: ValidatorSet, signatures: seq<Signature>, decode: string -> NodeId)
    returns (signedWeight: Result<nat>)
    ensures match Signers(validators.record, DecodedIds(signatures, decode))
            case Some(vs) => signedWeight == Ok(Weight(vs))
            case None => signedWeight.Error?
  {
    ghost var ids := DecodedIds(signatures, decode);
    ghost var signers: seq<Validator> := [];
    var sum := 0;
    for j := 0 to |signatures|
      invariant Signers(validators.record, ids[..j]) == Some(signers) && sum == Weight(signers)
    {
      var id := decode(signatures[j].nodeId);
      var val := validators.FindById(id);
      assert ids[..j + 1][..j] == ids[..j];
      if val.None? {
        SignersPrefix(validators.record, ids, j + 1);
        return Error("Can`t find public key for node_id");
      }
      sum := sum + val.value.weight;
      signers := signers + [val.value];
      assert signers[..|signers| - 1] + [val.value] == signers;
      assert Weight(signers) == Weight(signers[..|signers| - 1]) + val.value.weight;
    }
    assert ids[..|ids|] == ids;
    signedWeight := Ok(sum);
  }

  /** Everything adds up exactly if every id is known. */
  lemma {:induction false} SignersExactly(record: seq<Validator>, ids: seq<NodeId>)
    ensures Signers(record, ids).Some? <==>
            forall i | 0 <= i < |ids| :: exists j | 0 <= j < |record| :: record[j].nodeId == ids[i]
    decreases |ids|
  {
    if ids != [] {
      var n := |ids| - 1;
      SignersExactly(record, ids[..n]);
      assert forall i | 0 <= i < n :: ids[..n][i] == ids[i];
      if Find(record, ids[n]).Some? {
        var j :| 0 <= j < |record| && record[j] == Find(record, ids[n]).value;
        assert record[j].nodeId == ids[n];
      }
    }
  }

  ghost predicate Distinct(ids: seq<NodeId>) {
    forall i, j | 0 <= i < j < |ids| :: ids[i] != ids[j]
  }

  lemma {:induction false} SignersInOrder(record: seq<Validator>, ids: seq<NodeId>)
    requires Signers(record, ids).Some?
    ensures var vs := Signers(record, ids).value;
            |vs| == |ids| && forall i | 0 <= i < |ids| :: vs[i] in record && vs[i].nodeId == ids[i]
    decreases |ids|
  {
    if ids != [] {
      SignersInOrder(record, ids[..|ids| - 1]);
    }
  }

  lemma OneMoreMember(front: seq<Validator>, v: Validator, record: seq<Validator>)
    requires multiset(front) <= multiset(record) && v in record && v !in front
    ensures multiset(front + [v]) <= multiset(record)
  {
    assert multiset(front)[v] == 0 && multiset(record)[v] >= 1;
  }

  lemma {:induction false} SignersAreMembers(record: seq<Validator>, ids: seq<NodeId>)
    requires Distinct(ids) && Signers(record, ids).Some?
    ensures multiset(Signers(record, ids).value) <= multiset(record)
    decreases |ids|
  {
    if ids != [] {
      var n := |ids| - 1;
      SignersAreMembers(record, ids[..n]);
      SignersInOrder(record, ids[..n]);
      var front := Signers(record, ids[..n]).value;
      var v := Find(record, ids[n]).value;
      forall i | 0 <= i < |front|
        ensures front[i] != v
      {
        assert front[i].nodeId == ids[..n][i];
      }
      OneMoreMember(front, v, record);
    }
  }

  /** Signers with distinct node ids never weigh more than the whole set, in particular than the main set. */
  lemma SignedWeightIsBounded(record: seq<Validator>, ids: seq<NodeId>)
    requires Distinct(ids) && Signers(record, ids).Some?
    ensures Weight(Signers(record, ids).value) <= Weight(record)
  {
    SignersAreMembers(record, ids);
    MembersWeigh(Signers(record, ids).value, record);
  }

  /** For a main set the bound is its total weight. */
  lemma MainSignedWeightIsBounded(all: ValidatorSet, main: ValidatorSet, ids: seq<NodeId>)
    requires all.IsMainOf(main) && Distinct(ids) && Signers(main.record, ids).Some?
    ensures Weight(Signers(main.record, ids).value) <= main.totalWeight
  {
    SignedWeightIsBounded(main.record, ids);
  }

  /** The ids without later repetitions. */
  function Once(ids: seq<NodeId>): seq<NodeId> {
    if ids == [] then []
    else
      var front, last := Once(ids[..|ids| - 1]), ids[|ids| - 1];
      if last in front then front else front + [last]
  }

  lemma {:induction false} OnceIsDistinct(ids: seq<NodeId>)
    ensures Distinct(Once(ids)) && forall id :: id in Once(ids) <==> id in ids
    decreases |ids|
  {
    if ids != [] {
      var n := |ids| - 1;
      OnceIsDistinct(ids[..n]);
      assert ids == ids[..n] + [ids[n]];
    }
  }

  /** Every id that is repeated belongs to a validator without weight. */
  ghost predicate RepetitionsWeighNothing(record: seq<Validator>, ids: seq<NodeId>) {
    forall i, j | 0 <= i < j < |ids| && ids[i] == ids[j] ::
      Find(record, ids[j]).Some? ==> Find(record, ids[j]).value.weight == 0
  }

  /** One more id repeats nothing, or repeats what weighs nothing. */
  lemma RepetitionsFront(record: seq<Validator>, ids: seq<NodeId>)
    requires ids != [] && Find(record, ids[|ids| - 1]).Some?
    ensures var n := |ids| - 1;
            RepetitionsWeighNothing(record, ids) <==>
            && RepetitionsWeighNothing(record, ids[..n])
            && (ids[n] in ids[..n] ==> Find(record, ids[n]).value.weight == 0)
  {
    var n := |ids| - 1;
    var front := ids[..n];
    if RepetitionsWeighNothing(record, ids) {
      forall i, j | 0 <= i < j < |front| && front[i] == front[j]
        ensures Find(record, front[j]).Some? ==> Find(record, front[j]).value.weight == 0
      {
        assert ids[i] == ids[j];
      }
      if ids[n] in front {
        var i :| 0 <= i < |front| && front[i] == ids[n];
        assert ids[i] == ids[n];
      }
    }
    if RepetitionsWeighNothing(record, front) && (ids[n] in front ==> Find(record, ids[n]).value.weight == 0) {
      forall i, j | 0 <= i < j < |ids| && ids[i] == ids[j]
        ensures Find(record, ids[j]).Some? ==> Find(record, ids[j]).value.weight == 0
      {
        assert front[i] == ids[i];
        if j < n { assert front[j] == ids[j]; }
      }
    }
  }

  lemma SignersAppend(record: seq<Validator>, ids: seq<NodeId>, id: NodeId)
    requires Signers(record, ids).Some? && Find(record, id).Some?
    ensures Signers(record, ids + [id]) == Some(Signers(record, ids).value + [Find(record, id).value])
  {
    assert (ids + [id])[..|ids|] == ids;
  }

  /** Repetitions add weight exactly when a validator that has some is named again. */
  lemma {:induction false} RepeatedSignersCountAgain(record: seq<Validator>, ids: seq<NodeId>)
    requires Signers(record, ids).Some?
    ensures Signers(record, Once(ids)).Some?
    ensures Weight(Signers(record, Once(ids)).value) <= Weight(Signers(record, ids).value)
    ensures Weight(Signers(record, ids).value) == Weight(Signers(record, Once(ids)).value)
            <==> RepetitionsWeighNothing(record, ids)
    decreases |ids|
  {
    if ids != [] {
      var n := |ids| - 1;
      var front, id := ids[..n], ids[n];
      var v := Find(record, id).value;
      RepeatedSignersCountAgain(record, front);
      RepetitionsFront(record, ids);
      OnceIsDistinct(front);
      WeightAppend(Signers(record, front).value, v);
      if id !in Once(front) {
        SignersAppend(record, Once(front), id);
        WeightAppend(Signers(record, Once(front)).value, v);
      }
    }
  }

  /** Counting every signer once, the signed weight never exceeds the weight of the set. */
  lemma OnceIsBounded(record: seq<Validator>, ids: seq<NodeId>)
    requires Signers(record, ids).Some?
    ensures Signers(record, Once(ids)).Some? && Weight(Signers(record, Once(ids)).value) <= Weight(record)
  {
    RepeatedSignersCountAgain(record, ids);
    OnceIsDistinct(ids);
    SignedWeightIsBounded(record, Once(ids));
  }
}
