# jasima shop-floor core in Dafny

A model of four self-contained pieces of the jasima job-shop simulator,
written as immutable records and pure transition functions, with their
contracts proved:

- **Individual machine** (`machine.dfy`, module `IndividualMachines`): the
  DOWN / IDLE / WORKING life cycle of one machine of a workstation —
  construction, `activate`, `takeDown` with its deferral protocol, `init`,
  the event handlers that run on the machine's behalf, and the cached
  display name. The workstation, shop and simulation are reduced to a
  `World` record: the current time, the workstation's `currMachine` field,
  the list of events the machine scheduled and the list of callbacks it
  made. Java `assert` statements are modelled as checked (`AssertionFailed`),
  exceptions as `Err` results.
- **Stream-definition parser** (`stream_def.dfy`, module `StreamDefs`):
  `parseDblStream` — cutting `type(params)` at parentheses the way
  `StringTokenizer` does, `String.trim` of each piece, the arity check and the
  registry lookup with its two error messages — and `registerStreamFactory`.
  Factories are opaque records holding a type string and a function.
- **Simulation components** (`sim_component.dfy`, module `SimComponents`):
  the lazy, caching lookup of a component's simulation through its parent
  chain (`getSim`), proved equal to a reference "nearest ancestor" definition
  that also says exactly which components end up caching the answer; the
  accessors, `toString` and `clone`.
- **MDD priority rule** (`mdd.dfy`, module `Mdd`): `-max(remaining processing
  time, due date - now)` over exact reals, with its bounds, SRPT/EDD split
  and monotonicity.

Three details of the code that the model keeps:

- `activate` calls the workstation's `activated` callback before it clears
  `downReason`, so the callback sees the old reason
  (`IndividualMachine.java:120-122`).
- An immediate `takeDown` reports through the workstation's `takenDown`
  callback (`IndividualMachine.java:156`).
- `clone` keeps the simulation reference, because it starts from
  `super.clone()` (`SimComponentBase.java:104`).

Shared helpers: `base.dfy` (`Option`, `Result`) and `numerals.dfy` (decimal
and hexadecimal rendering as Java prints an `int`, with round-trip proofs).

## Model

| member | source | states |
|---|---|---|
| IndividualMachines.NewMachine | src/jasima/shopSim/core/IndividualMachine.java:90-98 | a new machine is DOWN, has the given default setup, release date 0, no cached name, and satisfies the machine invariant |
| IndividualMachines.Activate | src/jasima/shopSim/core/IndividualMachine.java:111-123 | fails with the illegal-state error exactly when the machine is not DOWN (the `curJob == null` assertion is the only other failure); on success the machine is IDLE with both timestamps -1 and no downtime reason, no configuration field changes, no event is scheduled, and one `activated` callback is made that still sees the previous downtime reason |
| IndividualMachines.ActivateOnValid | src/jasima/shopSim/core/IndividualMachine.java:112-114 | on a machine satisfying the invariant, activation succeeds if and only if the machine is DOWN: the `curJob == null` assertion never fails |
| IndividualMachines.TakeDown | src/jasima/shopSim/core/IndividualMachine.java:132-158 | an IDLE machine goes DOWN with both timestamps at the current time, the given reason and no job, with exactly one `takenDown` callback; a DOWN or WORKING machine is unchanged, no callback is made, and exactly one retry event with the same reason is appended at `procFinished` with the take-down priority, never earlier than now; the deferral fails only on its two assertions |
| IndividualMachines.TakeDownOnValid | src/jasima/shopSim/core/IndividualMachine.java:135-137 | on a valid machine `takeDown` fails exactly when the machine is busy and its current period ended before now |
| IndividualMachines.ActivatePreservesValid | src/jasima/shopSim/core/IndividualMachine.java:111-123 | a successful activation keeps the invariant (job loaded iff WORKING, reason only when DOWN) and is a legal life-cycle step |
| IndividualMachines.TakeDownPreservesValid | src/jasima/shopSim/core/IndividualMachine.java:132-158 | `takeDown` keeps the invariant and is a legal life-cycle step, immediate or deferred |
| IndividualMachines.Init | src/jasima/shopSim/core/IndividualMachine.java:160-178 | the machine is DOWN with the initial setup, `procFinished` = release date and `procStarted` = 0, all else unchanged; exactly one activation event at the release date with the activation priority is scheduled; every downtime source is initialised once, in list order; a valid machine that is not WORKING stays valid |
| IndividualMachines.FireActivation | src/jasima/shopSim/core/IndividualMachine.java:167-172 | the activation handler fails if another machine is current, otherwise activates with `currMachine` pointing at this machine during the `activated` callback and null afterwards |
| IndividualMachines.FireTakeDownRetry | src/jasima/shopSim/core/IndividualMachine.java:141-146 | the retry handler fails if another machine is current, otherwise retries `takeDown` with the same reason, with `currMachine` set during the call and null afterwards |
| IndividualMachines.OnDepart | src/jasima/shopSim/core/IndividualMachine.java:101-108 | the departure handler makes one `depart` callback that sees this machine as current, and leaves `currMachine` null |
| IndividualMachines.FirePreservesValid | src/jasima/shopSim/core/IndividualMachine.java:101-172 | every event handler keeps the invariant, moves along the life cycle, leaves the configuration fields alone and clears `currMachine` |
| IndividualMachines.RetryWhileBusyReschedules | src/jasima/shopSim/core/IndividualMachine.java:135-146 | a retry that fires while the machine is still busy does not interrupt it: the machine and the callback log are unchanged and the same retry is scheduled again at the end of the period |
| IndividualMachines.DeferredDowntimeScenario | src/jasima/shopSim/core/IndividualMachine.java:132-157 | a machine working until t=10 asked to go down at t=4 keeps working, the retry is due at t=10, and when it fires at t=10 on the then idle machine the machine goes DOWN at t=10 with the requested reason |
| IndividualMachines.ToString | src/jasima/shopSim/core/IndividualMachine.java:181-185 | a cached name is returned unchanged; otherwise the name is the workstation name, followed by '.' and more text only when the group has more than one machine, and it is cached |
| IndividualMachines.ToStringCached | src/jasima/shopSim/core/IndividualMachine.java:182-184 | once computed, the name does not change, whatever the workstation reports later |
| IndividualMachines.ToStringIndexReadsBack | src/jasima/shopSim/core/IndividualMachine.java:183 | in a multi-machine group the text after the workstation name and '.' is the machine index as Java writes an `int`: a '-' exactly for negatives, then decimal digits without leading zeros that read back to its magnitude |
| Numerals.DecimalString | src/jasima/shopSim/core/IndividualMachine.java:183 | `"" + i` is non-empty, starts with '-' exactly when `i` is negative, and its digits have no leading zero |
| Numerals.DecimalStringParses | src/jasima/shopSim/core/IndividualMachine.java:183 | the decimal rendering of an `int` is Java's text for it: sign, digits without leading zeros, and the digits read back to the magnitude |
| Numerals.DecimalStringUnique | src/jasima/shopSim/core/IndividualMachine.java:183 | any text with the sign, canonical digits and value of `i` is exactly the rendering of `i`, so the name suffix is determined by the index |
| Numerals.CanonicalNumeral | src/jasima/core/simulation/SimComponentBase.java:80 | a numeral without leading zeros that reads back to `n` in base `b` is exactly the digit string written for `n` |
| StreamDefs.Tokenize | src/jasima/shopSim/util/modelDef/streams/StreamDef.java:28-32 | the tokenising loop yields exactly the maximal parenthesis-free runs of the input, each non-empty |
| StreamDefs.TokensShape | src/jasima/shopSim/util/modelDef/streams/StreamDef.java:28-32 | no token is empty or contains a parenthesis, and the tokens together are the input with its parentheses removed |
| StreamDefs.TokensOfJoin | src/jasima/shopSim/util/modelDef/streams/StreamDef.java:28-32 | non-empty parenthesis-free pieces written with a parenthesis between neighbours tokenise back to the same pieces |
| StreamDefs.Trim | src/jasima/shopSim/util/modelDef/streams/StreamDef.java:31 | the trimmed piece is a stretch of the piece, only characters at or below U+0020 are cut off, and it neither starts nor ends with one |
| StreamDefs.TrimIdempotent | src/jasima/shopSim/util/modelDef/streams/StreamDef.java:31 | trimming twice is trimming once |
| StreamDefs.Pieces | src/jasima/shopSim/util/modelDef/streams/StreamDef.java:28-32 | one trimmed piece per token, in order, none containing a parenthesis |
| StreamDefs.ParseDblStream | src/jasima/shopSim/util/modelDef/streams/StreamDef.java:27-53 | earlier errors are kept in place; other than two pieces gives null and exactly one "invalid stream configuration" message; an unregistered type gives null and exactly one "Invalid stream type" message listing the registered types; otherwise the result and the added messages are exactly the factory's; a non-null result implies two pieces and a registered type |
| StreamDefs.ParseWellFormed | src/jasima/shopSim/util/modelDef/streams/StreamDef.java:38-52 | `type(params)` with trimmed, parenthesis-free parts and a registered type parses to exactly the factory's answer for `params`, with no message of the parser's own |
| StreamDefs.ExampleAccepted | src/jasima/shopSim/util/modelDef/streams/StreamDef.java:28-39 | `a(b)` splits into type `a` and parameters `b` |
| StreamDefs.ExampleRejected | src/jasima/shopSim/util/modelDef/streams/StreamDef.java:33-36 | `a(b)(c)` is rejected with null and the single message `invalid stream configuration 'a(b)(c)'` |
| StreamDefs.ExampleTrailingBlank | src/jasima/shopSim/util/modelDef/streams/StreamDef.java:28-36 | a blank after the closing parenthesis counts as a third piece, because pieces are cut before they are trimmed |
| StreamDefs.RegisterStreamFactory | src/jasima/shopSim/util/modelDef/streams/StreamDef.java:62-64 | after registering a factory, its type string maps to it, the key set grows by at most that string, and every other entry is unchanged |
| StreamDefs.RegisterReplaces | src/jasima/shopSim/util/modelDef/streams/StreamDef.java:62-64 | registering a second factory under the same type string replaces the first |
| SimComponents.GetSim | src/jasima/core/simulation/SimComponentBase.java:35-49 | the lookup changes nothing but `sim` fields of the tree |
| SimComponents.Fill | src/jasima/core/simulation/SimComponentBase.java:37-45 | storing the answer along the chain sets it in exactly the components from this one up to the first ancestor that had a simulation, and nowhere else |
| SimComponents.GetSimSpec | src/jasima/core/simulation/SimComponentBase.java:35-49 | the Java lookup, with its nested calls on the ancestors, returns the nearest ancestor-or-self's simulation and leaves the tree filled in along the path, or untouched if none was found |
| SimComponents.ClimbSpec | src/jasima/core/simulation/SimComponentBase.java:38-45 | the parent loop stops at the first parent that yields a simulation, stores it, and returns null with nothing stored when no parent yields one |
| SimComponents.GetSimContract | src/jasima/core/simulation/SimComponentBase.java:35-49 | the answer is the nearest ancestor's simulation; with none, nothing is stored; otherwise exactly the components on the path now hold it and all other components are unchanged |
| SimComponents.ResolveFromAncestors | src/jasima/core/simulation/SimComponentBase.java:37-45 | a simulation is found if and only if some ancestor-or-self has one, and the one found belongs to such an ancestor |
| SimComponents.GetSimWhenSet | src/jasima/core/simulation/SimComponentBase.java:35-36 | a component that already has a simulation returns it and changes nothing |
| SimComponents.GetSimNoAncestor | src/jasima/core/simulation/SimComponentBase.java:37-48 | with no simulation on the whole chain, the answer is null and nothing is stored |
| SimComponents.GetSimIdempotent | src/jasima/core/simulation/SimComponentBase.java:35-49 | a second lookup returns the same answer and leaves the tree as the first left it |
| SimComponents.GetSimCachesPath | src/jasima/core/simulation/SimComponentBase.java:37-45 | every ancestor the lookup passed through afterwards answers at once with the same simulation |
| SimComponents.SetSim | src/jasima/core/simulation/SimComponentBase.java:52-54 | only this component's simulation changes |
| SimComponents.SetSimGetSim | src/jasima/core/simulation/SimComponentBase.java:35-54 | after setting a non-null simulation, the lookup returns it and stores nothing further |
| SimComponents.SetParent | src/jasima/core/simulation/SimComponentBase.java:57-64 | the parent read back is the parent set; nothing else changes |
| SimComponents.SetParentKeepsWellFormed | src/jasima/core/simulation/SimComponentBase.java:62-64 | re-parenting under an earlier component keeps the parent chain finite |
| SimComponents.ToString | src/jasima/core/simulation/SimComponentBase.java:78-84 | the name when there is one; otherwise the class name, '@', and the hash code's unsigned 32-bit value in hexadecimal without leading zeros |
| Numerals.HexString | src/jasima/core/simulation/SimComponentBase.java:80 | `Integer.toHexString` of a 32-bit value: one to eight digits, no leading zero unless the value is 0, reading back to its unsigned value |
| SimComponents.Clone | src/jasima/core/simulation/SimComponentBase.java:103-115 | the copy shares simulation, parent and name, has a value store with the same entries, and has as many listeners as the original, the i-th being the clone-if-possible of the original's i-th |
| Mdd.CalcPrio | src/jasima/shopSim/prioRules/basic/MDD.java:40 | the priority is at most the SRPT score and at most the EDD score, and equals one of them |
| Mdd.SrptOrEdd | src/jasima/shopSim/prioRules/basic/MDD.java:27-40 | with slack at most the remaining work the rule scores as SRPT, otherwise as EDD |
| Mdd.GreatestLowerBound | src/jasima/shopSim/prioRules/basic/MDD.java:40 | any value below both scores is below the priority, so the priority is the negated maximum |
| Mdd.MonotoneInRemainingWork | src/jasima/shopSim/prioRules/basic/MDD.java:40 | more remaining work never raises the priority |
| Mdd.MonotoneInDueDate | src/jasima/shopSim/prioRules/basic/MDD.java:40 | a later due date never raises the priority |
| Mdd.MonotoneInTime | src/jasima/shopSim/prioRules/basic/MDD.java:40 | the priority never falls as time passes |
| Mdd.DependsOnlyOnTimes | src/jasima/shopSim/prioRules/basic/MDD.java:39-41 | two targets with the same remaining work and due date get the same priority |

## Left out

- The workstation's reactions to `activated`, `takenDown` and `depart`, job dispatch and setup changes: `WorkStation` is not part of this model. Callbacks are recorded in `World.calls`; `OnDepart` passes the machine through, although the real `depart()` changes it.
- The simulation's event queue, its clock and its check that events are not scheduled in the past: `Simulation` is not part of this model. Scheduling appends to `World.events`; the current time is `World.now`.
- The numeric values of `DEPART_PRIO`, `ACTIVATE_PRIO`, `TAKE_DOWN_PRIO` and `DEF_SETUP`: they live in `WorkStation`. Priorities are three distinct constants; the default setup is a parameter of `NewMachine`.
- Whatever keeps `procFinished` up to date while a machine is DOWN (the downtime sources): `DowntimeSource` is not part of this model. The deferral's `procFinished >= simTime` assertion is therefore modelled as a failure result, not proved impossible.
- Java assertions switched off: the model treats every `assert` as checked. On an exception, the model returns only the error; the half-updated state an aborted run leaves behind is not modelled.
- Null strings, a null error list and the resulting `NullPointerException`s in `parseDblStream`.
- StreamDefs.ParseDblStream: factories are modelled as only appending messages to the error list; the Java factory receives the list itself and could alter earlier entries.
- The iteration order of the factory registry's `HashMap`: it is a parameter (`order`), required to list each registered key once.
- `StreamDef.createStream`, `StreamDef.clone`, the concrete factories and the static block that loads them (random-variate construction and class loading).
- Cyclic parent links: `setParent` can create them in Java. If no component on such a cycle has a simulation, `getSim` calls `p.getSim()` on the next parent without end and fails with a `StackOverflowError`. The model proves its lookup facts for acyclic trees only.
- The hash code in `toString`: it is a parameter, not computed.
- Object identity: `clone` yields a record value, so the "fresh" value store and notifier are separate by construction; the notifier's back-reference to its owner is not modelled. The copy keeps the simulation reference, as `super.clone()` does.
- `getParent` (`SimComponents.GetParent`, used only in `SetParent`'s contract), `getName`/`setName`, `valueStoreImpl()` and `notifierImpl()`: plain field accessors.
- Floating point: times and priorities are exact reals, so NaN and rounding are not modelled.
- `ExperimentExecutor`, `SimulationExperiment` and `TraceFileProducer`: thread pools, experiment orchestration and file output.
