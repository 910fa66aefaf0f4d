/** Proof steps, and the state that a run of them builds up. */
module ProvenStates {
  import opened ByteStrings
  import opened Results

  type Hash = Bytes

  /** A block reference: as parsed from a shard state, or as an `ExtBlkRef` object, which has no `root_hash`. */
  datatype BlkRef = Parsed(rootHash: Hash) | External(rootHashField: Hash)

  /** The validators, abstractly. */
  type Validators = seq<Hash>

  datatype Update = Update(validators: Option<Validators>, stateHash: Option<Hash>, blkRefs: Option<seq<BlkRef>>)

  const NO_UPDATE := Update(None, None, None)

  /** A step, with what reading its own cells yields. */
  datatype Step =
    | SetValidators(read: Result<Validators>)
    | ProofValidators(read: Result<Validators>)
    | ShardState(blkRef: Result<Hash>)
    | ShardBlock(blockId: Result<Hash>, leaf: Result<Hash>)
    | NewStateHash(newHash: Result<Hash>)
    | Transaction(accepted: Result<()>)

  datatype State = State(validators: Option<Validators>, stateHash: Option<Hash>, blkRefs: Option<seq<BlkRef>>)

  const INITIAL := State(None, None, None)

  // -------------------------------------------------------------------- checks

  /** `find` by root hash; reading the root hash of an `ExtBlkRef` throws. */
  function FindRef(refs: seq<BlkRef>, id: Hash): Result<Option<Hash>> {
    if refs == [] then Ok(None)
    else if refs[0].External? then Error("root_hash is undefined")
    else if refs[0].rootHash == id then Ok(Some(refs[0].rootHash))
    else FindRef(refs[1..], id)
  }

  function CheckShardBlock(blockId: Result<Hash>, leaf: Result<Hash>, state: State): Result<Update> {
    match blockId
    case Error(m) => Error(m)
    case Ok(id) =>
      var found: Result<Option<Hash>> := if state.blkRefs.None? then Ok(None) else FindRef(state.blkRefs.value, id);
      match found
      case Error(m) => Error(m)
      case Ok(None) => Error("Unknown blkRef")
      case Ok(Some(_)) =>
        match leaf
        case Error(m) => Error(m)
        case Ok(h) => Ok(Update(None, None, Some([External(h)])))
  }

  function CheckValidators(read: Result<Validators>): Result<Update> {
    match read
    case Error(m) => Error(m)
    case Ok(v) => Ok(Update(Some(v), None, None))
  }

  function Check(step: Step, state: State): Result<Update> {
    match step
    case SetValidators(read) => CheckValidators(read)
    case ProofValidators(read) => CheckValidators(read)
    case ShardState(Error(m)) => Error(m)
    case ShardState(Ok(h)) => Ok(Update(None, None, Some([Parsed(h)])))
    case ShardBlock(id, leaf) => CheckShardBlock(id, leaf, state)
    case NewStateHash(Error(m)) => Error(m)
    case NewStateHash(Ok(h)) => Ok(Update(None, Some(h), None))
    case Transaction(Error(m)) => Error(m)
    case Transaction(Ok(_)) => Ok(NO_UPDATE)
  }

  // --------------------------------------------------------------------- state

  function Apply(state: State, update: Update): State {
    State(if update.validators.Some? then update.validators else state.validators,
          if update.stateHash.Some? then update.stateHash else state.stateHash,
          match update.blkRefs
          case None => state.blkRefs
          case Some(more) => Some((if state.blkRefs.Some? then state.blkRefs.value else []) + more))
  }

  /** The state and updates after running steps from the start, or nothing once a check fails. */
  function Run(steps: seq<Step>): Option<(State, seq<Update>)> {
    if steps == [] then Some((INITIAL, []))
    else
      match Run(steps[..|steps| - 1])
      case None => None
      case Some((state, updates)) =>
        match Check(steps[|steps| - 1], state)
        case Error(_) => None
        case Ok(update) => Some((Apply(state, update), updates + [update]))
  }

  class ProvenState {
    var steps: seq<Step>
    var proofState: State

    constructor ()
      ensures steps == [] && proofState == INITIAL
    {
      steps, proofState := [], INITIAL;
    }

    /** The state is what running the recorded steps gives. */
    ghost predicate Valid()
      reads this
    {
      match Run(steps)
      case None => false
      case Some((state, _)) => state == proofState
    }

    method Add(step: Step) returns (r: Result<()>)
      requires Valid()
      modifies this
      ensures Valid()
      ensures r.Ok? <==> Run(old(steps) + [step]).Some?
      ensures r.Ok? ==> steps == old(steps) + [step] && IsStateOf(proofState, steps)
      ensures r.Error? ==> steps == old(steps) && proofState == old(proofState)
    {
      assert (steps + [step])[..|steps|] == steps;
      var checked := Check(step, proofState);
      if checked.Error? {
        return Error(checked.message);
      }
      var stateUpdate := checked.value;
      if stateUpdate.validators.Some? {
        proofState := proofState.(validators := stateUpdate.validators);
      }
      if stateUpdate.stateHash.Some? {
        proofState := proofState.(stateHash := stateUpdate.stateHash);
      }
      if stateUpdate.blkRefs.Some? {
        if proofState.blkRefs.None? {
          proofState := proofState.(blkRefs := Some([]));
        }
        proofState := proofState.(blkRefs := Some(proofState.blkRefs.value + stateUpdate.blkRefs.value));
      }
      steps := steps + [step];
      RunReads(steps);
      r := Ok(());
    }
  }

  lemma {:induction false} FailingRunStays(steps: seq<Step>, k: nat)
    requires k <= |steps| && Run(steps[..k]).None?
    ensures Run(steps).None?
    decreases |steps|
  {
    if k < |steps| {
      assert steps[..|steps| - 1][..k] == steps[..k];
      FailingRunStays(steps[..|steps| - 1], k);
    } else {
      assert steps[..k] == steps;
    }
  }

  /** Runs the steps in order; the first failing check fails the whole. */
  method FromJSON(steps: seq<Step>) returns (r: Result<ProvenState>)
    ensures r.Ok? <==> Run(steps).Some?
    ensures r.Ok? ==> fresh(r.value) && r.value.Valid() && r.value.steps == steps
    ensures r.Ok? ==> IsStateOf(r.value.proofState, steps)
  {
    var self := new ProvenState();
    for i := 0 to |steps|
      invariant fresh(self) && self.Valid() && self.steps == steps[..i]
    {
      assert steps[..i] + [steps[i]] == steps[..i + 1];
      var added := self.Add(steps[i]);
      if added.Error? {
        FailingRunStays(steps, i + 1);
        return Error(added.message);
      }
    }
    assert steps[..|steps|] == steps;
    RunReads(steps);
    r := Ok(self);
  }

  // ------------------------------------------------------- what the steps have read

  /** The validators that were read last. */
  function ValidatorsRead(steps: seq<Step>): Option<Validators> {
    if steps == [] then None
    else
      match steps[|steps| - 1]
      case SetValidators(Ok(v)) => Some(v)
      case ProofValidators(Ok(v)) => Some(v)
      case _ => ValidatorsRead(steps[..|steps| - 1])
  }

  /** The state hash that was read last. */
  function StateHashRead(steps: seq<Step>): Option<Hash> {
    if steps == [] then None
    else
      match steps[|steps| - 1]
      case NewStateHash(Ok(h)) => Some(h)
      case _ => StateHashRead(steps[..|steps| - 1])
  }

  /** The references that shard states and shard blocks have contributed, in order. */
  function RefsRead(steps: seq<Step>): seq<BlkRef> {
    if steps == [] then []
    else
      RefsRead(steps[..|steps| - 1])
      + match steps[|steps| - 1]
        case ShardState(Ok(h)) => [Parsed(h)]
        case ShardBlock(_, Ok(h)) => [External(h)]
        case _ => []
  }

  /** The state that the readings of the steps amount to. */
  predicate IsStateOf(state: State, steps: seq<Step>) {
    && state.validators == ValidatorsRead(steps) && state.stateHash == StateHashRead(steps)
    && state.blkRefs == if RefsRead(steps) == [] then None else Some(RefsRead(steps))
  }

  /** A run that succeeds ends in the state of what its steps have read. */
  lemma {:induction false} RunReads(steps: seq<Step>)
    requires Run(steps).Some?
    ensures IsStateOf(Run(steps).value.0, steps)
    decreases |steps|
  {
    if steps != [] {
      var before := RefsRead(steps[..|steps| - 1]);
      RunReads(steps[..|steps| - 1]);
      assert before + [] == before && forall ref: BlkRef :: [] + [ref] == [ref];
    }
  }

  // ---------------------------------------------------------------- what runs give

  /** The references of the updates, one after the other. */
  function Gathered(updates: seq<Update>): seq<BlkRef> {
    if updates == [] then []
    else
      Gathered(updates[..|updates| - 1])
      + match updates[|updates| - 1].blkRefs { case None => [] case Some(refs) => refs }
  }

  function LastValidators(updates: seq<Update>): Option<Validators> {
    if updates == [] then None
    else if updates[|updates| - 1].validators.Some? then updates[|updates| - 1].validators
    else LastValidators(updates[..|updates| - 1])
  }

  function LastStateHash(updates: seq<Update>): Option<Hash> {
    if updates == [] then None
    else if updates[|updates| - 1].stateHash.Some? then updates[|updates| - 1].stateHash
    else LastStateHash(updates[..|updates| - 1])
  }

  /** References are gathered in order; the last validators and the last state hash win. */
  lemma {:induction false} RunGathers(steps: seq<Step>)
    requires Run(steps).Some?
    ensures var (state, updates) := Run(steps).value;
            && |updates| == |steps|
            && (if state.blkRefs.Some? then state.blkRefs.value else []) == Gathered(updates)
            && (state.blkRefs.None? ==> forall i | 0 <= i < |updates| :: updates[i].blkRefs.None?)
            && state.validators == LastValidators(updates) && state.stateHash == LastStateHash(updates)
    decreases |steps|
  {
    if steps != [] {
      RunGathers(steps[..|steps| - 1]);
      var (_, before) := Run(steps[..|steps| - 1]).value;
      var (_, updates) := Run(steps).value;
      assert updates[..|updates| - 1] == before;
    }
  }

  /** Every reference before the first shard block comes from a shard state, in order. */
  lemma {:induction false} RefsComeFromSteps(steps: seq<Step>, k: nat) returns (i: nat)
    requires Run(steps).Some? && Run(steps).value.0.blkRefs.Some? && k < |Run(steps).value.0.blkRefs.value|
    ensures var ref := Run(steps).value.0.blkRefs.value[k];
            && i < |steps|
            && (ref.Parsed? ==> steps[i] == ShardState(Ok(ref.rootHash)))
            && (ref.External? ==> steps[i].ShardBlock?)
    ensures forall j | 0 <= j < i && (steps[j].ShardState? || steps[j].ShardBlock?) ::
              exists m | 0 <= m < k :: Origin(steps[j], Run(steps).value.0.blkRefs.value[m])
    decreases |steps|
  {
    var front := steps[..|steps| - 1];
    var refs := Run(steps).value.0.blkRefs.value;
    var before := Run(front).value.0;
    if before.blkRefs.Some? && k < |before.blkRefs.value| {
      i := RefsComeFromSteps(front, k);
      forall j | 0 <= j < i && (steps[j].ShardState? || steps[j].ShardBlock?)
        ensures exists m | 0 <= m < k :: Origin(steps[j], refs[m])
      {
        assert front[j] == steps[j];
        var m :| 0 <= m < k && Origin(front[j], before.blkRefs.value[m]);
        assert Origin(steps[j], refs[m]);
      }
    } else {
      i := |steps| - 1;
      forall j | 0 <= j < i && (steps[j].ShardState? || steps[j].ShardBlock?)
        ensures exists m | 0 <= m < k :: Origin(steps[j], refs[m])
      {
        assert front[j] == steps[j];
        var m := StepHasRef(front, j);
        assert Origin(steps[j], refs[m]);
      }
    }
  }

  /** A reference of the kind this step contributes. */
  predicate Origin(step: Step, ref: BlkRef) {
    match step
    case ShardState(_) => ref.Parsed?
    case ShardBlock(_, _) => ref.External?
    case _ => false
  }

  lemma {:induction false} StepHasRef(steps: seq<Step>, j: nat) returns (m: nat)
    requires Run(steps).Some? && j < |steps| && (steps[j].ShardState? || steps[j].ShardBlock?)
    ensures Run(steps).value.0.blkRefs.Some? && m < |Run(steps).value.0.blkRefs.value|
    ensures Origin(steps[j], Run(steps).value.0.blkRefs.value[m])
    decreases |steps|
  {
    var front := steps[..|steps| - 1];
    if j < |steps| - 1 {
      assert front[j] == steps[j];
      m := StepHasRef(front, j);
    } else {
      var before := Run(front).value.0;
      m := if before.blkRefs.Some? then |before.blkRefs.value| else 0;
    }
  }

  lemma {:induction false} FoundAmongParsed(refs: seq<BlkRef>, id: Hash) returns (k: nat)
    requires FindRef(refs, id).Ok? && FindRef(refs, id).value.Some?
    ensures k < |refs| && refs[k] == Parsed(id) && forall m | 0 <= m < k :: refs[m].Parsed?
  {
    if refs[0].rootHash == id {
      k := 0;
    } else {
      var l := FoundAmongParsed(refs[1..], id);
      k := l + 1;
      forall m | 0 <= m < k
        ensures refs[m].Parsed?
      {
        if m > 0 { assert refs[m] == refs[1..][m - 1]; }
      }
    }
  }

  /**
   * In every run that succeeds, a shard block is justified by a shard state that refers to that very block and comes
   * before the first shard block of the run.
   */
  lemma ShardBlockIsJustified(steps: seq<Step>, j: nat) returns (i: nat)
    requires Run(steps).Some? && j < |steps| && steps[j].ShardBlock?
    ensures i < j && steps[j].blockId.Ok? && steps[i] == ShardState(Ok(steps[j].blockId.value))
    ensures forall m | 0 <= m < i :: !steps[m].ShardBlock?
  {
    if Run(steps[..j + 1]).None? { FailingRunStays(steps, j + 1); }
    var front := steps[..j];
    assert steps[..j + 1][..j] == front && steps[..j + 1][j] == steps[j];
    var refs := Run(front).value.0.blkRefs.value;
    var k := FoundAmongParsed(refs, steps[j].blockId.value);
    i := RefsComeFromSteps(front, k);
    forall m | 0 <= m < i
      ensures !steps[m].ShardBlock?
    {
      assert front[m] == steps[m];
    }
  }

  lemma {:induction false} FindsParsed(refs: seq<BlkRef>, id: Hash, k: nat)
    requires k < |refs| && refs[k] == Parsed(id) && forall m | 0 <= m < k :: refs[m].Parsed?
    ensures FindRef(refs, id) == Ok(Some(id))
    decreases |refs|
  {
    if refs[0].rootHash != id {
      FindsParsed(refs[1..], id, k - 1);
    }
  }

  lemma {:induction false} NoExternalYet(steps: seq<Step>)
    requires Run(steps).Some? && forall m | 0 <= m < |steps| :: !steps[m].ShardBlock?
    ensures var refs := Run(steps).value.0.blkRefs;
            refs.Some? ==> forall k | 0 <= k < |refs.value| :: refs.value[k].Parsed?
    decreases |steps|
  {
    if steps != [] {
      var front := steps[..|steps| - 1];
      assert forall m | 0 <= m < |front| :: front[m] == steps[m];
      NoExternalYet(front);
    }
  }

  /** What a shard state contributes before any shard block is found from then on. */
  lemma {:induction false} NamedBlockIsFound(steps: seq<Step>, i: nat, id: Hash)
    requires Run(steps).Some? && i < |steps| && steps[i] == ShardState(Ok(id))
    requires forall m | 0 <= m < i :: !steps[m].ShardBlock?
    ensures Run(steps).value.0.blkRefs.Some? && FindRef(Run(steps).value.0.blkRefs.value, id) == Ok(Some(id))
    decreases |steps|
  {
    var front := steps[..|steps| - 1];
    var before := Run(front).value.0.blkRefs;
    if i < |front| {
      assert forall m | 0 <= m <= i :: front[m] == steps[m];
      NamedBlockIsFound(front, i, id);
      var refs := Run(steps).value.0.blkRefs.value;
      var k := FoundAmongParsed(before.value, id);
      assert before.value == refs[..|before.value|];
      FindsParsed(refs, id, k);
    } else {
      assert forall m | 0 <= m < |front| :: front[m] == steps[m];
      NoExternalYet(front);
      var refs := Run(steps).value.0.blkRefs.value;
      FindsParsed(refs, id, |refs| - 1);
    }
  }

  /** A shard state that refers to this block, before any shard block. */
  ghost predicate Names(steps: seq<Step>, id: Hash) {
    exists i | 0 <= i < |steps| :: steps[i] == ShardState(Ok(id)) && forall m | 0 <= m < i :: !steps[m].ShardBlock?
  }

  /** After a successful run a shard block is accepted exactly when it can be read and the run names its block. */
  lemma ShardBlockAcceptedExactly(steps: seq<Step>, blockId: Result<Hash>, leaf: Result<Hash>)
    requires Run(steps).Some?
    ensures Run(steps + [ShardBlock(blockId, leaf)]).Some? <==>
            blockId.Ok? && leaf.Ok? && Names(steps, blockId.value)
  {
    var more := steps + [ShardBlock(blockId, leaf)];
    assert more[..|steps|] == steps;
    if Run(more).Some? {
      var i := ShardBlockIsJustified(more, |steps|);
      assert steps[i] == more[i] && forall m | 0 <= m < i :: steps[m] == more[m];
    }
    if blockId.Ok? && leaf.Ok? && Names(steps, blockId.value) {
      var i :| 0 <= i < |steps| && steps[i] == ShardState(Ok(blockId.value))
               && forall m | 0 <= m < i :: !steps[m].ShardBlock?;
      NamedBlockIsFound(steps, i, blockId.value);
    }
  }

  /** What the step reads from its own cells can be read. */
  predicate CanBeRead(step: Step) {
    match step
    case SetValidators(read) => read.Ok?
    case ProofValidators(read) => read.Ok?
    case ShardState(blkRef) => blkRef.Ok?
    case ShardBlock(blockId, leaf) => blockId.Ok? && leaf.Ok?
    case NewStateHash(newHash) => newHash.Ok?
    case Transaction(accepted) => accepted.Ok?
  }

  /** The step after a run can be read and, if it is a shard block, the run names its block. */
  ghost predicate CanFollow(steps: seq<Step>, step: Step) {
    CanBeRead(step) && (step.ShardBlock? ==> Names(steps, step.blockId.value))
  }

  lemma FollowsExactly(steps: seq<Step>, step: Step)
    requires Run(steps).Some?
    ensures Run(steps + [step]).Some? <==> CanFollow(steps, step)
  {
    assert (steps + [step])[..|steps|] == steps;
    if step.ShardBlock? { ShardBlockAcceptedExactly(steps, step.blockId, step.leaf); }
  }

  /** A run succeeds exactly when every step can be read and earlier steps name the block of every shard block. */
  lemma {:induction false} RunSucceedsExactly(steps: seq<Step>)
    ensures Run(steps).Some? <==> forall i | 0 <= i < |steps| :: CanFollow(steps[..i], steps[i])
    decreases |steps|
  {
    if steps != [] {
      var n := |steps| - 1;
      var front := steps[..n];
      RunSucceedsExactly(front);
      forall i | 0 <= i < n
        ensures front[i] == steps[i] && front[..i] == steps[..i]
      {
      }
      assert steps == front + [steps[n]];
      if Run(front).Some? { FollowsExactly(front, steps[n]); }
    }
  }

  /** Once an `ExtBlkRef` is reached, looking for a block that nothing before it refers to throws. */
  lemma ShardBlockIsNotAJustification(refs: seq<BlkRef>, id: Hash, more: seq<BlkRef>)
    requires forall k | 0 <= k < |refs| :: refs[k] != Parsed(id)
    requires more != [] && more[0].External?
    ensures FindRef(refs + more, id).Error?
    decreases |refs|
  {
    if refs == [] {
      assert refs + more == more;
    } else {
      assert (refs + more)[1..] == refs[1..] + more;
      if refs[0].Parsed? { ShardBlockIsNotAJustification(refs[1..], id, more); }
    }
  }
}
