/** One machine of a workstation and its DOWN / IDLE / WORKING life cycle
    (jasima's `IndividualMachine`).

    The machine is a plain record; every operation is a pure function from
    (machine, world) to a new (machine, world) or to the exception the Java
    code throws. The workstation, the shop and the simulation kernel are not
    part of this model: the `World` record stands in for what the machine can
    see of them — the current simulation time, the workstation's
    `currMachine` field, the events the machine scheduled (appended to
    `events`) and the workstation callbacks it made (appended to `calls`). */
module IndividualMachines {

  import opened Base
  import Numerals

  datatype MachineState = Down | Idle | Working

  /** Identity of a `DowntimeSource` object. */
  type SourceId = nat

  /** Identity of the `PrioRuleTarget` (job or batch) being processed. */
  type TargetId = nat

  /** The workstation's priority classes for events at the same instant. Their
      numeric values live in `WorkStation`, which is not part of this model;
      only their distinctness matters here. */
  datatype PrioClass = DepartPrio | ActivatePrio | TakeDownPrio

  datatype Machine = Machine(
    idx: int,                      // index in the workstation's machine group
    relDate: real,                 // date of the first activation
    initialSetup: int,
    name: Option<string>,          // cached result of `ToString`
    downsources: seq<SourceId>,
    state: MachineState,
    downReason: Option<SourceId>,
    procStarted: real,
    procFinished: real,
    setupState: int,
    curJob: Option<TargetId>)

  /** What a scheduled event does when the kernel fires it. */
  datatype Action =
    | Activation                   // the initial activation scheduled by `Init`
    | TakeDownRetry(reason: SourceId)  // a postponed `TakeDown`
    | Depart                       // the machine's `onDepart` event

  datatype Event = Event(time: real, prio: PrioClass, action: Action)

  /** A callback into the owning workstation (or into a downtime source). Each
      records the machine as the callee sees it and the value the
      workstation's `currMachine` field has during the call. */
  datatype Callback =
    | Activated(machine: Machine, currMachine: Option<int>)
    | TakenDown(machine: Machine, currMachine: Option<int>)
    | Departed(machine: Machine, currMachine: Option<int>)
    | SourceInit(source: SourceId)

  datatype World = World(
    now: real,
    currMachine: Option<int>,      // `workStation.currMachine`, by machine index
    events: seq<Event>,
    calls: seq<Callback>)

  /** `IllegalStateException` and a failing Java `assert` (assertions on). */
  datatype Failure = IllegalState(message: string) | AssertionFailed(message: string)

  const NotDownMessage: string := "Only a machine in state DOWN can be activated ."

  /** The machine invariant: a job is loaded exactly while WORKING, and a
      downtime reason is recorded only while DOWN. */
  predicate Valid(m: Machine)
  {
    && (m.curJob.Some? <==> m.state == Working)
    && (m.downReason.Some? ==> m.state == Down)
  }

  /** The transitions the life cycle allows (staying put included). */
  predicate LifecycleStep(from: MachineState, to: MachineState)
  {
    || from == to
    || (from == Down && to == Idle)
    || (from == Idle && to == Down)
    || (from == Idle && to == Working)
    || (from == Working && to == Idle)
  }

  /** `m'` differs from `m` at most in the life-cycle fields (state,
      timestamps, downtime reason, current job). */
  predicate ConfigUnchanged(m: Machine, m': Machine)
  {
    && m'.idx == m.idx
    && m'.relDate == m.relDate
    && m'.initialSetup == m.initialSetup
    && m'.name == m.name
    && m'.downsources == m.downsources
    && m'.setupState == m.setupState
  }

  /** The constructor: a fresh machine is DOWN, starts with the workstation's
      default setup and is released at time 0. */
  function NewMachine(idx: int, defSetup: int): (m: Machine)
    ensures m.idx == idx
    ensures m.state == Down && m.initialSetup == defSetup && m.relDate == 0.0
    ensures m.name.None? && m.downsources == []
    ensures Valid(m)
  {
    Machine(idx, 0.0, defSetup, None, [], Down, None, 0.0, 0.0, 0, None)
  }

  /** `activate()`: only a DOWN machine can be activated. It becomes IDLE with
      both timestamps -1, the workstation is told, and only then is the
      downtime reason cleared, so the callback still sees the old reason. */
  function Activate(m: Machine, w: World): (r: Result<(Machine, World), Failure>)
    ensures m.state != Down ==> r == Err(IllegalState(NotDownMessage))
    ensures r.Ok? <==> m.state == Down && m.curJob.None?
    ensures r.Ok? ==>
      var (m', w') := r.value;
      && m'.state == Idle
      && m'.procStarted == -1.0 && m'.procFinished == -1.0
      && m'.downReason.None? && m'.curJob.None?
      && ConfigUnchanged(m, m')
      && w'.now == w.now && w'.currMachine == w.currMachine
      && w'.events == w.events
      && |w'.calls| == |w.calls| + 1 && w'.calls[..|w.calls|] == w.calls
      && w'.calls[|w.calls|] == Activated(m'.(downReason := m.downReason), w.currMachine)
  {
    if m.state != Down then Err(IllegalState(NotDownMessage))
    else if m.curJob.Some? then Err(AssertionFailed("curJob == null"))
    else
      var m1 := m.(state := Idle, procFinished := -1.0, procStarted := -1.0);
      var w1 := w.(calls := w.calls + [Activated(m1, w.currMachine)]);
      Ok((m1.(downReason := None), w1))
  }

  /** `takeDown(reason)`: an IDLE machine goes DOWN at once; a DOWN or WORKING
      machine is left alone and the request is retried, with the same reason,
      at the instant its current operation or downtime ends. */
  function TakeDown(m: Machine, w: World, reason: SourceId): (r: Result<(Machine, World), Failure>)
    ensures m.state == Idle ==> r.Ok?
    ensures m.state != Idle ==>
      (r.Ok? <==> m.procFinished >= w.now && (m.curJob.Some? || m.state == Down))
    ensures r.Ok? && m.state == Idle ==>
      var (m', w') := r.value;
      && m'.state == Down
      && m'.procStarted == w.now && m'.procFinished == w.now
      && m'.downReason == Some(reason) && m'.curJob.None?
      && ConfigUnchanged(m, m')
      && w'.now == w.now && w'.currMachine == w.currMachine
      && w'.events == w.events
      && w'.calls == w.calls + [TakenDown(m', w.currMachine)]
    ensures r.Ok? && m.state != Idle ==>
      var (m', w') := r.value;
      && m' == m
      && w'.now == w.now && w'.currMachine == w.currMachine
      && w'.calls == w.calls
      && |w'.events| == |w.events| + 1 && w'.events[..|w.events|] == w.events
      && w'.events[|w.events|] == Event(m.procFinished, TakeDownPrio, TakeDownRetry(reason))
      && w'.events[|w.events|].time >= w.now
  {
    if m.state != Idle then
      if !(m.procFinished >= w.now) then Err(AssertionFailed("procFinished >= simTime"))
      else if !(m.curJob.Some? || m.state == Down) then Err(AssertionFailed("curJob != null || state == DOWN"))
      else Ok((m, w.(events := w.events + [Event(m.procFinished, TakeDownPrio, TakeDownRetry(reason))])))
    else
      var m1 := m.(procStarted := w.now, procFinished := w.now, state := Down,
                   downReason := Some(reason), curJob := None);
      Ok((m1, w.(calls := w.calls + [TakenDown(m1, w.currMachine)])))
  }

  /** `init()`: reset to the initial setup, DOWN until the release date,
      schedule the first activation for the release date and initialise each
      downtime source once, in list order. */
  method Init(m: Machine, w: World) returns (m': Machine, w': World)
    ensures m'.state == Down && m'.setupState == m.initialSetup
    ensures m'.procFinished == m.relDate && m'.procStarted == 0.0
    ensures m'.curJob == m.curJob && m'.downReason == m.downReason
    ensures m'.idx == m.idx && m'.relDate == m.relDate && m'.initialSetup == m.initialSetup
    ensures m'.name == m.name && m'.downsources == m.downsources
    ensures w'.now == w.now && w'.currMachine == w.currMachine
    ensures w'.events == w.events + [Event(m.relDate, ActivatePrio, Activation)]
    ensures |w'.calls| == |w.calls| + |m.downsources|
    ensures w'.calls[..|w.calls|] == w.calls
    ensures forall i :: 0 <= i < |m.downsources| ==> w'.calls[|w.calls| + i] == SourceInit(m.downsources[i])
    ensures Valid(m) && m.state != Working ==> Valid(m')
  {
    m' := m.(setupState := m.initialSetup, procFinished := m.relDate, procStarted := 0.0, state := Down);
    w' := w.(events := w.events + [Event(m.relDate, ActivatePrio, Activation)]);
    var k := 0;
    while k < |m.downsources|
      invariant 0 <= k <= |m.downsources|
      invariant w'.now == w.now && w'.currMachine == w.currMachine
      invariant w'.events == w.events + [Event(m.relDate, ActivatePrio, Activation)]
      invariant |w'.calls| == |w.calls| + k
      invariant w'.calls[..|w.calls|] == w.calls
      invariant forall i :: 0 <= i < k ==> w'.calls[|w.calls| + i] == SourceInit(m.downsources[i])
    {
      w' := w'.(calls := w'.calls + [SourceInit(m.downsources[k])]);
      k := k + 1;
    }
  }

  /** Finishes `body`, run on behalf of a machine with the workstation's
      `currMachine` pointing at it, by clearing `currMachine`. The handlers of
      `Init` and `TakeDown` first assert that no other machine is current. */
  function AsCurrent(body: Result<(Machine, World), Failure>): (r: Result<(Machine, World), Failure>)
  {
    match body
    case Err(e) => Err(e)
    case Ok((m', w')) => Ok((m', w'.(currMachine := None)))
  }

  /** The handler of the activation event scheduled by `Init`. */
  function FireActivation(m: Machine, w: World): (r: Result<(Machine, World), Failure>)
    ensures w.currMachine.Some? ==> r.Err?
    ensures r.Ok? ==> r.value.1.currMachine.None?
    ensures r.Ok? <==> w.currMachine.None? && Activate(m, w).Ok?
    ensures r.Ok? ==>
      var (m', w') := r.value;
      && m' == Activate(m, w).value.0
      && w' == w.(calls := w.calls + [Activated(m'.(downReason := m.downReason), Some(m.idx))])
  {
    if w.currMachine.Some? then Err(AssertionFailed("workStation.currMachine == null"))
    else AsCurrent(Activate(m, w.(currMachine := Some(m.idx))))
  }

  /** The handler of a postponed `TakeDown`. */
  function FireTakeDownRetry(m: Machine, w: World, reason: SourceId): (r: Result<(Machine, World), Failure>)
    ensures w.currMachine.Some? ==> r.Err?
    ensures r.Ok? ==> r.value.1.currMachine.None?
    ensures r.Ok? <==> w.currMachine.None? && TakeDown(m, w, reason).Ok?
    ensures r.Ok? ==> r.value.0 == TakeDown(m, w, reason).value.0
    ensures r.Ok? && m.state == Idle ==>
      r.value.1 == w.(calls := w.calls + [TakenDown(r.value.0, Some(m.idx))])
  {
    if w.currMachine.Some? then Err(AssertionFailed("workStation.currMachine == null"))
    else AsCurrent(TakeDown(m, w.(currMachine := Some(m.idx)), reason))
  }

  /** The `onDepart` handler: hands the finished operation to the workstation
      with `currMachine` set to this machine, then clears `currMachine`. What
      the workstation's `depart()` does is not part of this model; the call is
      recorded and the machine is passed through. */
  function OnDepart(m: Machine, w: World): (r: (Machine, World))
    ensures r.0 == m
    ensures r.1.currMachine.None?
    ensures r.1.events == w.events && r.1.now == w.now
    ensures r.1.calls == w.calls + [Departed(m, Some(m.idx))]
  {
    (m, w.(currMachine := Some(m.idx), calls := w.calls + [Departed(m, Some(m.idx))]).(currMachine := None))
  }

  /** Fires one of the machine's events at the current time. */
  function Fire(m: Machine, w: World, e: Event): (r: Result<(Machine, World), Failure>)
  {
    match e.action
    case Activation => FireActivation(m, w)
    case TakeDownRetry(reason) => FireTakeDownRetry(m, w, reason)
    case Depart => Ok(OnDepart(m, w))
  }

  /** `toString()`: the workstation's name, followed by "." and the index when
      the group has more than one machine; computed once and cached. */
  function ToString(m: Machine, wsName: string, numInGroup: int): (r: (string, Machine))
    ensures r.1.name == Some(r.0)
    ensures m.name.Some? ==> r == (m.name.value, m)
    ensures m.name.None? && numInGroup <= 1 ==> r.0 == wsName
    ensures m.name.None? && numInGroup > 1 ==>
      |r.0| > |wsName| + 1 && r.0[..|wsName|] == wsName && r.0[|wsName|] == '.'
    ensures r.1 == m.(name := Some(r.0))
  {
    match m.name
    case Some(n) => (n, m)
    case None =>
      var n := wsName + (if numInGroup > 1 then "." + Numerals.DecimalString(m.idx) else "");
      (n, m.(name := Some(n)))
  }

  // ---------------------------------------------------------------------
  // Invariant and life-cycle lemmas

  /** Java's `assert curJob == null` in `activate` can never fail on a valid
      machine: only the illegal-state check can reject an activation. */
  lemma ActivateOnValid(m: Machine, w: World)
    requires Valid(m)
    ensures Activate(m, w).Ok? <==> m.state == Down
  {
  }

  /** On a valid machine the deferral branch of `takeDown` fails only when
      the current operation or downtime would end in the past. */
  lemma TakeDownOnValid(m: Machine, w: World, reason: SourceId)
    requires Valid(m)
    ensures TakeDown(m, w, reason).Err? <==> m.state != Idle && m.procFinished < w.now
  {
  }

  lemma ActivatePreservesValid(m: Machine, w: World)
    requires Valid(m) && Activate(m, w).Ok?
    ensures Valid(Activate(m, w).value.0)
    ensures LifecycleStep(m.state, Activate(m, w).value.0.state)
  {
  }

  lemma TakeDownPreservesValid(m: Machine, w: World, reason: SourceId)
    requires Valid(m) && TakeDown(m, w, reason).Ok?
    ensures Valid(TakeDown(m, w, reason).value.0)
    ensures LifecycleStep(m.state, TakeDown(m, w, reason).value.0.state)
  {
  }

  /** Every event the machine handles keeps it valid and moves it along the
      life cycle, and leaves `currMachine` cleared. */
  lemma FirePreservesValid(m: Machine, w: World, e: Event)
    requires Valid(m) && Fire(m, w, e).Ok?
    ensures Valid(Fire(m, w, e).value.0)
    ensures LifecycleStep(m.state, Fire(m, w, e).value.0.state)
    ensures ConfigUnchanged(m, Fire(m, w, e).value.0)
    ensures Fire(m, w, e).value.1.currMachine.None?
  {
    match e.action
    case Activation =>
      ActivatePreservesValid(m, w.(currMachine := Some(m.idx)));
    case TakeDownRetry(reason) =>
      TakeDownPreservesValid(m, w.(currMachine := Some(m.idx)), reason);
    case Depart =>
  }

  /** A postponed `takeDown` never interrupts the ongoing operation: while the
      machine is busy the retry only reschedules itself, with the same reason,
      at the end of the operation; no callback is made and the machine is
      untouched. */
  lemma RetryWhileBusyReschedules(m: Machine, w: World, reason: SourceId)
    requires Valid(m) && m.state != Idle && m.procFinished >= w.now && w.currMachine.None?
    ensures FireTakeDownRetry(m, w, reason).Ok?
    ensures FireTakeDownRetry(m, w, reason).value.0 == m
    ensures FireTakeDownRetry(m, w, reason).value.1.calls == w.calls
    ensures FireTakeDownRetry(m, w, reason).value.1.events
      == w.events + [Event(m.procFinished, TakeDownPrio, TakeDownRetry(reason))]
  {
  }

  /** Scenario: a machine busy until t=10 is asked to go down at t=4. The
      request is deferred to t=10; when the retry fires at t=10 on the machine
      that has meanwhile finished (IDLE), the machine goes DOWN at t=10. */
  lemma DeferredDowntimeScenario(m: Machine, w: World, reason: SourceId, job: TargetId)
    requires m.state == Working && m.curJob == Some(job) && m.procFinished == 10.0 && m.downReason.None?
    requires w.now == 4.0 && w.currMachine.None?
    ensures TakeDown(m, w, reason).Ok?
    ensures TakeDown(m, w, reason).value.0.state == Working
    ensures TakeDown(m, w, reason).value.1.events[|w.events|] == Event(10.0, TakeDownPrio, TakeDownRetry(reason))
    ensures
      var idle := m.(state := Idle, curJob := None);
      var later := TakeDown(m, w, reason).value.1.(now := 10.0);
      && FireTakeDownRetry(idle, later, reason).Ok?
      && FireTakeDownRetry(idle, later, reason).value.0.state == Down
      && FireTakeDownRetry(idle, later, reason).value.0.procStarted == 10.0
      && FireTakeDownRetry(idle, later, reason).value.0.downReason == Some(reason)
  {
  }

  /** The cached name is stable: asking again returns the same text and
      changes nothing. */
  lemma ToStringCached(m: Machine, wsName: string, numInGroup: int, wsName2: string, numInGroup2: int)
    ensures ToString(ToString(m, wsName, numInGroup).1, wsName2, numInGroup2)
      == (ToString(m, wsName, numInGroup).0, ToString(m, wsName, numInGroup).1)
  {
  }

  /** In a group of several machines the name ends in the machine's index,
      written as Java writes an `int` (a '-' for negatives, no leading
      zeros), which can be read back from it. */
  lemma {:induction false} ToStringIndexReadsBack(m: Machine, wsName: string, numInGroup: int)
    requires m.name.None? && numInGroup > 1
    ensures
      var n := ToString(m, wsName, numInGroup).0;
      |n| > |wsName| + 1 && Numerals.IsDecimalOf(n[|wsName| + 1..], m.idx)
  {
    NameOfMember(m, wsName, numInGroup);
    Numerals.DecimalStringParses(m.idx);
  }

  lemma NameOfMember(m: Machine, wsName: string, numInGroup: int)
    requires m.name.None? && numInGroup > 1
    ensures
      var n := ToString(m, wsName, numInGroup).0;
      |n| == |wsName| + 1 + |Numerals.DecimalString(m.idx)| && n[|wsName| + 1..] == Numerals.DecimalString(m.idx)
  {
    var n := ToString(m, wsName, numInGroup).0;
    assert n == (wsName + ".") + Numerals.DecimalString(m.idx);
  }
}
