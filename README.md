# Register-allocation verifier, modelled in Dafny

This project models the register-allocation verifier of the Graal compiler. The verifier
checks an allocated LIR program by abstract interpretation. Every physical location (a
register or a stack slot) carries an allocation state:

- Unknown: nothing is known about the location;
- Value: the location holds exactly one symbol, a variable or a register;
- Conflicted: incoming paths disagree on what it holds.

The verifier runs in two phases:

1. A FIFO worklist (`calculateEntryBlocks`) meets each block's exit state into the entry
   state of every successor until no entry state changes. Along the way it resolves the
   locations of phi results. For each result, the predecessors agree on one location, which
   is written into the label's definitions and every predecessor jump's alive values.
2. A linear pass (`verifyInstructionInputs`) replays each block from its entry state. Each
   instruction's uses are checked against the state, and then the instruction's effect is
   applied. The first failing check makes the verdict false.

## Files

- **Values** (`values.dfy`): the LIR values (variables, registers, stack slots, constants,
  `ILLEGAL`), `Option`, the `Result` of an operation that may throw, and the fatal errors.
- **AllocationStates** (`allocation_state.dfy`): the lattice, with `meet` and the coarse
  `equals`.
- **StateMaps** (`state_map.dfy`): `HashAllocationStateMap` as a value map, with:
  - `get`, which returns Unknown for an absent key;
  - `putClone`;
  - `mergeWith`, a loop proved against `MergedMap` and `MergeChanged`;
  - `getVariableLocations`, a loop proved against `LocationsOf`.
- **Instructions** (`rav_instruction.dfy`): the abstracted instructions.
  - `GetCountProcedure` and `ValueArrayPair` are classes. `ValueArrayPair` holds its
    `orig`/`curr` arrays, and the copy procedures fill those arrays through index counters.
  - `Op` sizes its four operand groups by counting traversals.
  - `Base` holds the instruction kind and the list of virtual moves.
  - Pure views (`PairView`, `InstrView`) give what an instruction holds at a given moment.
- **Semantics** (`semantics.dfy`): `check` (`Passes`), `update` (`Step`), a block's exit
  state (`Transfer`) and the linear pass (`Replay`, `VerifyBlocks`), written as pure
  functions, with the lemmas about them. It also holds two one-block scenarios.
- **VerifierStates** (`verifier_state.dfy`): the `VerifierState` class. Its two map fields
  are reassigned by `meetWith`, `checkInputs`, `checkAliveConstraint`, `check` and `update`,
  and each method is proved against the functions in Semantics.
- **Dataflow** (`dataflow.dfy`): the graph and the worklist's fixed point. This covers:
  - `Settled`: every exit state is absorbed by each successor's entry state;
  - the propagation of one exit state (`Propagate`);
  - the phi intersection (`Intersect`, `PhiLocations`);
  - the end-to-end two-block example.
- **Verifier** (`verifier.dfy`): the `RegisterAllocationVerifier` class. The block-state maps
  are `map` fields, and the label and jump arrays are written in place by phi resolution. It
  holds the worklist and the checking pass, each proved against the Semantics and Dataflow
  definitions.

Three behaviours of the code shape the model:

- `meet(Value(v), Conflicted(S))` returns the Conflicted argument unchanged
  (`RegisterAllocationVerifier.java` lines 421-423), and so does `Meet`.
- Phase 2 visits the blocks in index order, and so does `VerifyBlocks`.
- A block without an entry state makes phase 2 dereference null. The model reports it as the
  fatal error `MissingEntryState`.

Phase 1 writes only two kinds of arrays: the definition locations of labels and the alive
locations of jumps. Every other array of locations keeps what the allocator recorded, and
`CalculateEntryBlocks` and `Run` say so. In the code every operand group owns its arrays, so
the use locations of every instruction are among those kept. When the phi
arrays start safe and the start state is empty, the entry states are also bounded from above:
a location that an entry state knows is known at the exit of some predecessor, and a Value
it holds is held there by such an exit.

## Model

Source paths are relative to the repository root.

| member | source | states |
|---|---|---|
| AllocationStates.Meet | compiler/src/jdk.graal.compiler/src/jdk/graal/compiler/lir/alloc/verifier/RegisterAllocationVerifier.java:347-431 | Unknown is the identity on both sides. Equal Values keep the receiver, and different Values give `Conflicted([v, w])`. Any Conflicted operand gives a Conflicted result. |
| AllocationStates.EqualsIsEquivalence | compiler/src/jdk.graal.compiler/src/jdk/graal/compiler/lir/alloc/verifier/RegisterAllocationVerifier.java:365-436 | The coarse `equals` is an equivalence. Two states are equal exactly when they have the same lattice rank and, for Values, the same payload, so Conflicted contents are ignored. |
| AllocationStates.MeetCommutes | compiler/src/jdk.graal.compiler/src/jdk/graal/compiler/lir/alloc/verifier/RegisterAllocationVerifier.java:347-431 | `a.meet(b)` equals `b.meet(a)` under the coarse equality. |
| AllocationStates.MeetAssociates | compiler/src/jdk.graal.compiler/src/jdk/graal/compiler/lir/alloc/verifier/RegisterAllocationVerifier.java:347-431 | Meet is associative under the coarse equality. |
| AllocationStates.MeetIdempotent | compiler/src/jdk.graal.compiler/src/jdk/graal/compiler/lir/alloc/verifier/RegisterAllocationVerifier.java:347-431 | `a.meet(a)` equals `a` under the coarse equality. |
| AllocationStates.MeetMonotone | compiler/src/jdk.graal.compiler/src/jdk/graal/compiler/lir/alloc/verifier/RegisterAllocationVerifier.java:347-431 | The result ranks at least as high as either operand, and once Conflicted, a location stays Conflicted. |
| AllocationStates.AbsorbsIff | compiler/src/jdk.graal.compiler/src/jdk/graal/compiler/lir/alloc/verifier/RegisterAllocationVerifier.java:416-436 | Meeting `b` into `a` leaves `a` equal exactly when `b` is Unknown, `a` is Conflicted, or both are the same Value. |
| AllocationStates.AbsorbsStable | compiler/src/jdk.graal.compiler/src/jdk/graal/compiler/lir/alloc/verifier/RegisterAllocationVerifier.java:347-436 | A state that absorbs `b` still absorbs `b` after any further meet. |
| AllocationStates.MeetSettles | compiler/src/jdk.graal.compiler/src/jdk/graal/compiler/lir/alloc/verifier/RegisterAllocationVerifier.java:347-436 | Meeting the same argument a second time changes nothing. |
| StateMaps.Get | compiler/src/jdk.graal.compiler/src/jdk/graal/compiler/lir/alloc/verifier/RegisterAllocationVerifier.java:465-471 | `get` never fails. It returns the stored state of a present key and Unknown for an absent one. |
| StateMaps.PutClone | compiler/src/jdk.graal.compiler/src/jdk/graal/compiler/lir/alloc/verifier/RegisterAllocationVerifier.java:486-492 | The key is added and reads back the stored state, Unknown included. Every other key keeps its state. |
| StateMaps.MergedMap | compiler/src/jdk.graal.compiler/src/jdk/graal/compiler/lir/alloc/verifier/RegisterAllocationVerifier.java:495-514 | The keys are the union of both maps' keys. Each source key holds the meet of the old state (Unknown when absent) with the source state. Keys outside the source are untouched. |
| StateMaps.MergeWith | compiler/src/jdk.graal.compiler/src/jdk/graal/compiler/lir/alloc/verifier/RegisterAllocationVerifier.java:495-514 | The entry loop produces the merged map, and reports a change exactly when a source key was absent or its met state is not `equals` to the old one. |
| StateMaps.VariableLocations | compiler/src/jdk.graal.compiler/src/jdk/graal/compiler/lir/alloc/verifier/RegisterAllocationVerifier.java:474-484 | The reverse scan returns exactly the keys whose state is the Value of the variable. |
| StateMaps.UnchangedIff | compiler/src/jdk.graal.compiler/src/jdk/graal/compiler/lir/alloc/verifier/RegisterAllocationVerifier.java:495-514 | A merge reports no change exactly when every source key is present in the target, and there it is Unknown in the source, Conflicted in the target, or the same Value. So Conflicted into Conflicted never counts as a change. |
| StateMaps.MergeSettles | compiler/src/jdk.graal.compiler/src/jdk/graal/compiler/lir/alloc/verifier/RegisterAllocationVerifier.java:495-514 | Merging the same source a second time reports no change. |
| StateMaps.MergeKeepsSettled | compiler/src/jdk.graal.compiler/src/jdk/graal/compiler/lir/alloc/verifier/RegisterAllocationVerifier.java:495-514 | A target that absorbs a source still absorbs it after merging any other map. |
| StateMaps.UnchangedKeepsKeys | compiler/src/jdk.graal.compiler/src/jdk/graal/compiler/lir/alloc/verifier/RegisterAllocationVerifier.java:497-502 | A merge that reports no change adds no key. An empty target reports no change only for an empty source. |
| StateMaps.MergeMonotone | compiler/src/jdk.graal.compiler/src/jdk/graal/compiler/lir/alloc/verifier/RegisterAllocationVerifier.java:495-514 | Merging never lowers a location's rank, and a Conflicted location stays Conflicted. |
| Instructions.CountProcedure.constructor | compiler/src/jdk.graal.compiler/src/jdk/graal/compiler/lir/alloc/verifier/RAVInstruction.java:38-39 | A new counter is at zero. |
| Instructions.CountProcedure.DoValue | compiler/src/jdk.graal.compiler/src/jdk/graal/compiler/lir/alloc/verifier/RAVInstruction.java:48-52 | The visited value is handed back unchanged, and the count goes up by one. |
| Instructions.CountProcedure.GetCount | compiler/src/jdk.graal.compiler/src/jdk/graal/compiler/lir/alloc/verifier/RAVInstruction.java:41-46 | It returns the visits since the last reset, and resets the count to zero. |
| Instructions.CountProcedure.Visit | compiler/src/jdk.graal.compiler/src/jdk/graal/compiler/lir/alloc/verifier/RAVInstruction.java:134-135 | A traversal adds the number of values it visits to the count. |
| Instructions.ValueArrayPair.constructor | compiler/src/jdk.graal.compiler/src/jdk/graal/compiler/lir/alloc/verifier/RAVInstruction.java:60-64 | `count == n`, both arrays have length `n`, are fresh and distinct, and every slot is null. |
| Instructions.ValueArrayPair.AddOrig | compiler/src/jdk.graal.compiler/src/jdk/graal/compiler/lir/alloc/verifier/RAVInstruction.java:103-106 | Only the given index of `orig` changes, and `getOrig` returns what was stored. |
| Instructions.ValueArrayPair.AddCurrent | compiler/src/jdk.graal.compiler/src/jdk/graal/compiler/lir/alloc/verifier/RAVInstruction.java:98-101 | Only the given index of `curr` changes, and `getCurrent` returns what was stored. |
| Instructions.ValueArrayPair.CopyOriginal | compiler/src/jdk.graal.compiler/src/jdk/graal/compiler/lir/alloc/verifier/RAVInstruction.java:66-75 | The k-th visited value goes to `orig[k]` and is returned unchanged. The index advances by one, and `curr`'s index is untouched. |
| Instructions.ValueArrayPair.CopyCurrent | compiler/src/jdk.graal.compiler/src/jdk/graal/compiler/lir/alloc/verifier/RAVInstruction.java:77-86 | The k-th visited location goes to `curr[k]` and is returned unchanged. The index advances by one. |
| Instructions.ValueArrayPair.FillOriginal | compiler/src/jdk.graal.compiler/src/jdk/graal/compiler/lir/alloc/verifier/RAVInstruction.java:66-75 | After a whole traversal, slot `start + k` of `orig` holds the k-th visited value, and every other slot keeps its value. |
| Instructions.ValueArrayPair.FillCurrent | compiler/src/jdk.graal.compiler/src/jdk/graal/compiler/lir/alloc/verifier/RAVInstruction.java:77-86 | After a whole traversal, slot `start + k` of `curr` holds the k-th visited location, and every other slot keeps its value. |
| Instructions.ValueArrayPair.VerifyContents | compiler/src/jdk.graal.compiler/src/jdk/graal/compiler/lir/alloc/verifier/RAVInstruction.java:113-120 | True exactly when no slot of `orig` or `curr` is null. |
| Instructions.Op.constructor | compiler/src/jdk.graal.compiler/src/jdk/graal/compiler/lir/alloc/verifier/RAVInstruction.java:129-145 | Each group is sized by the length of its own traversal, through one counter that every `getCount` resets. All eight arrays are fresh, every slot of every group starts null, and every group's two copy procedures start at index 0. |
| Instructions.ValueArrayPair.GetOrig | compiler/src/jdk.graal.compiler/src/jdk/graal/compiler/lir/alloc/verifier/RAVInstruction.java:93-96 | The original value at an index below `count` is the one the pair's view holds there. |
| Instructions.ValueArrayPair.GetCurrent | compiler/src/jdk.graal.compiler/src/jdk/graal/compiler/lir/alloc/verifier/RAVInstruction.java:88-91 | The location at an index below `count` is the one the pair's view holds there. |
| Instructions.Op.HasMissingDefinitions | compiler/src/jdk.graal.compiler/src/jdk/graal/compiler/lir/alloc/verifier/RAVInstruction.java:151-153 | True when the first definition is a variable whose location is still null. Such an Op is never completely filled. |
| Instructions.Op.VerifyContents | compiler/src/jdk.graal.compiler/src/jdk/graal/compiler/lir/alloc/verifier/RAVInstruction.java:147-149 | True exactly when all four groups are completely filled. |
| Instructions.Base.constructor | compiler/src/jdk.graal.compiler/src/jdk/graal/compiler/lir/alloc/verifier/RAVInstruction.java:20-23 | A new instruction has its kind and an empty virtual-move list. |
| Instructions.Base.AddVirtualMove | compiler/src/jdk.graal.compiler/src/jdk/graal/compiler/lir/alloc/verifier/RAVInstruction.java:29-31 | The move is appended after all earlier ones. |
| VerifierStates.VerifierState.constructor | compiler/src/jdk.graal.compiler/src/jdk/graal/compiler/lir/alloc/verifier/RegisterAllocationVerifier.java:161-164 | Both maps start empty. |
| VerifierStates.VerifierState.Copy | compiler/src/jdk.graal.compiler/src/jdk/graal/compiler/lir/alloc/verifier/RegisterAllocationVerifier.java:166-175 | With no source the state is empty, and otherwise it holds exactly the source's two maps. |
| VerifierStates.VerifierState.MeetWith | compiler/src/jdk.graal.compiler/src/jdk/graal/compiler/lir/alloc/verifier/RegisterAllocationVerifier.java:185-189 | Both maps become the merged maps, and the result is true exactly when either merge reports a change. |
| VerifierStates.VerifierState.CheckInputs | compiler/src/jdk.graal.compiler/src/jdk/graal/compiler/lir/alloc/verifier/RegisterAllocationVerifier.java:191-219 | True exactly when every slot either kept its original value, or finds the Value of that original in its register. |
| VerifierStates.VerifierState.CheckAliveConstraint | compiler/src/jdk.graal.compiler/src/jdk/graal/compiler/lir/alloc/verifier/RegisterAllocationVerifier.java:221-244 | True exactly when no alive location is also a temporary, a use or a definition of the Op. |
| VerifierStates.VerifierState.Check | compiler/src/jdk.graal.compiler/src/jdk/graal/compiler/lir/alloc/verifier/RegisterAllocationVerifier.java:246-268 | The result is `Passes` on the current registers. Only an Op's uses are examined. |
| VerifierStates.VerifierState.Update | compiler/src/jdk.graal.compiler/src/jdk/graal/compiler/lir/alloc/verifier/RegisterAllocationVerifier.java:270-297 | The new state is `Step` of the old one. It fails exactly when `Step` reports the Value constructor's throw. |
| Semantics.CheckFailsIff | compiler/src/jdk.graal.compiler/src/jdk/graal/compiler/lir/alloc/verifier/RegisterAllocationVerifier.java:191-219 | `check` fails exactly when the instruction is an Op and some use the allocator moved finds its location null, its register Unknown or Conflicted, or the Value of a different symbol. |
| Semantics.ConflictedUseFails | compiler/src/jdk.graal.compiler/src/jdk/graal/compiler/lir/alloc/verifier/RegisterAllocationVerifier.java:202-205 | A moved use of a Conflicted register fails the check. |
| Semantics.UnmovedUsesPass | compiler/src/jdk.graal.compiler/src/jdk/graal/compiler/lir/alloc/verifier/RegisterAllocationVerifier.java:197-200 | An instruction whose every use kept its original value passes in any state. |
| Semantics.Define | compiler/src/jdk.graal.compiler/src/jdk/graal/compiler/lir/alloc/verifier/RegisterAllocationVerifier.java:273-286 | The only failure of an Op's definitions is the Value constructor's `IllegalStateException`. |
| Semantics.Step | compiler/src/jdk.graal.compiler/src/jdk/graal/compiler/lir/alloc/verifier/RegisterAllocationVerifier.java:270-297 | Only an Op can fail, and only with the Value constructor's error. The four move kinds always succeed. |
| Semantics.DefineSucceedsIff | compiler/src/jdk.graal.compiler/src/jdk/graal/compiler/lir/alloc/verifier/RegisterAllocationVerifier.java:273-286 | The definitions succeed exactly when every recorded slot (not ILLEGAL, location present) has a register or a variable as its original. |
| Semantics.DefineLastWins | compiler/src/jdk.graal.compiler/src/jdk/graal/compiler/lir/alloc/verifier/RegisterAllocationVerifier.java:273-286 | After the definitions, the last recorded definition of each location gives that location the Value of its original. |
| Semantics.DefineKeepsUntouched | compiler/src/jdk.graal.compiler/src/jdk/graal/compiler/lir/alloc/verifier/RegisterAllocationVerifier.java:273-286 | A location that no recorded definition names keeps its old state, or its absence. |
| Semantics.DefineErrorPersists | compiler/src/jdk.graal.compiler/src/jdk/graal/compiler/lir/alloc/verifier/RegisterAllocationVerifier.java:273-286 | A definition that throws ends all the Op's definitions with that error. |
| Semantics.SpillReloadRoundTrip | compiler/src/jdk.graal.compiler/src/jdk/graal/compiler/lir/alloc/verifier/RegisterAllocationVerifier.java:288-291 | Spilling R to S and then reloading S into R gives R its old state and S that state, and leaves every other register unchanged. |
| Semantics.MovesWriteOneLocation | compiler/src/jdk.graal.compiler/src/jdk/graal/compiler/lir/alloc/verifier/RegisterAllocationVerifier.java:288-295 | Spill, Reload, Move and VirtualMove never fail. Each keeps the other map whole and every other location of the map it writes, and gives its target the source's state or the variable's Value. |
| Semantics.GrowthIsOrder | compiler/src/jdk.graal.compiler/src/jdk/graal/compiler/lir/alloc/verifier/RegisterAllocationVerifier.java:270-297 | Growth of machine states (keys kept, known locations stay known) is reflexive and transitive. So is the gain of definition locations by instruction views. |
| Semantics.DefineGrows | compiler/src/jdk.graal.compiler/src/jdk/graal/compiler/lir/alloc/verifier/RegisterAllocationVerifier.java:273-286 | Writing an Op's definitions keeps the growth of the register map when the definitions have gained locations. |
| Semantics.StepGrows | compiler/src/jdk.graal.compiler/src/jdk/graal/compiler/lir/alloc/verifier/RegisterAllocationVerifier.java:270-297 | A grown state updated through an instruction whose definitions have gained locations grows the updated state. |
| Semantics.TransferGrows | compiler/src/jdk.graal.compiler/src/jdk/graal/compiler/lir/alloc/verifier/RegisterAllocationVerifier.java:111-114 | The exit state grows when the entry state grows and the block's instructions gain definition locations. |
| Semantics.TransferErrorPersists | compiler/src/jdk.graal.compiler/src/jdk/graal/compiler/lir/alloc/verifier/RegisterAllocationVerifier.java:111-114 | An `update` that throws in the middle of a block ends the block's transfer with that error. |
| Semantics.RejectionPersists | compiler/src/jdk.graal.compiler/src/jdk/graal/compiler/lir/alloc/verifier/RegisterAllocationVerifier.java:141-144 | A failed check ends the pass: the block stays rejected however it continues. |
| Semantics.ErrorPersists | compiler/src/jdk.graal.compiler/src/jdk/graal/compiler/lir/alloc/verifier/RegisterAllocationVerifier.java:141-146 | A throwing update ends the pass over the block with that error. |
| Semantics.ReplayAcceptsIff | compiler/src/jdk.graal.compiler/src/jdk/graal/compiler/lir/alloc/verifier/RegisterAllocationVerifier.java:141-146 | The pass accepts a block exactly when every update succeeds and each instruction passes its check in the state the instructions before it produced. The final state is then the block's exit state. |
| Semantics.VerifyBlocksStep | compiler/src/jdk.graal.compiler/src/jdk/graal/compiler/lir/alloc/verifier/RegisterAllocationVerifier.java:136-147 | After accepted blocks, the next block decides the verdict on one block more: it has no entry state (fatal), or its error, rejection or acceptance. |
| Semantics.VerdictPersists | compiler/src/jdk.graal.compiler/src/jdk/graal/compiler/lir/alloc/verifier/RegisterAllocationVerifier.java:136-149 | A false verdict or an error on the first blocks is the verdict on the whole program. |
| Semantics.VerifyBlocksIff | compiler/src/jdk.graal.compiler/src/jdk/graal/compiler/lir/alloc/verifier/RegisterAllocationVerifier.java:135-150 | The program verifies exactly when every block has an entry state from which the pass accepts it. |
| Semantics.WrongRegisterRejected | compiler/src/jdk.graal.compiler/src/jdk/graal/compiler/lir/alloc/verifier/RegisterAllocationVerifier.java:197-210 | A variable defined in register 1 and then read from register 2 is rejected. |
| Semantics.SpilledValueReloaded | compiler/src/jdk.graal.compiler/src/jdk/graal/compiler/lir/alloc/verifier/RegisterAllocationVerifier.java:288-291 | Define in register 1, spill, reload into register 2, then read from register 2: the read is accepted, and register 2 holds the variable. |
| Dataflow.EntryOf | compiler/src/jdk.graal.compiler/src/jdk/graal/compiler/lir/alloc/verifier/RegisterAllocationVerifier.java:119 | A block without an entry state starts from the empty state. |
| Dataflow.MergeInto | compiler/src/jdk.graal.compiler/src/jdk/graal/compiler/lir/alloc/verifier/RegisterAllocationVerifier.java:185-189 | The merged state absorbs the exit state, and both maps gain exactly the exit state's keys. |
| Dataflow.MergeKeepsAbsorbing | compiler/src/jdk.graal.compiler/src/jdk/graal/compiler/lir/alloc/verifier/RegisterAllocationVerifier.java:185-189 | An entry state that absorbed one exit state still does after merging any other. |
| Dataflow.EmptyAbsorbsIff | compiler/src/jdk.graal.compiler/src/jdk/graal/compiler/lir/alloc/verifier/RegisterAllocationVerifier.java:119-121 | A fresh empty entry state reports no change exactly for the empty exit state. |
| Dataflow.SettledMeaning | compiler/src/jdk.graal.compiler/src/jdk/graal/compiler/lir/alloc/verifier/RegisterAllocationVerifier.java:97-127 | At the worklist's fixed point, each successor of a block with a non-empty exit state has an entry state. There, every location of the exit state is present and is Conflicted, holds the same Value, or was Unknown at the exit. |
| Dataflow.SettledReplacing | compiler/src/jdk.graal.compiler/src/jdk/graal/compiler/lir/alloc/verifier/RegisterAllocationVerifier.java:115 | Storing a new exit state for a block unsettles only that block's outgoing edges. |
| Dataflow.MeetSuccessorSettles | compiler/src/jdk.graal.compiler/src/jdk/graal/compiler/lir/alloc/verifier/RegisterAllocationVerifier.java:118-124 | Meeting the exit into one successor settles that edge and unsettles no other. |
| Dataflow.PropagateSettles | compiler/src/jdk.graal.compiler/src/jdk/graal/compiler/lir/alloc/verifier/RegisterAllocationVerifier.java:117-125 | Propagating a block's exit to all its successors restores the fixed point. |
| Dataflow.PropagateReaches | compiler/src/jdk.graal.compiler/src/jdk/graal/compiler/lir/alloc/verifier/RegisterAllocationVerifier.java:117-125 | Propagation keeps every entry state it finds. A block gains an entry state only as a successor that was put on the worklist, and only successors are put there. |
| Dataflow.IncomingLocations | compiler/src/jdk.graal.compiler/src/jdk/graal/compiler/lir/alloc/verifier/RegisterAllocationVerifier.java:65-67 | A variable's set holds exactly the locations in the register map (registers or stack slots) whose state is its Value. A null alive value gives the empty set, and a non-variable fails the cast. |
| Dataflow.IntersectIff | compiler/src/jdk.graal.compiler/src/jdk/graal/compiler/lir/alloc/verifier/RegisterAllocationVerifier.java:60-74 | The intersection over predecessors succeeds exactly when every predecessor's set does, and then holds exactly the common locations. |
| Dataflow.IntersectErrorPersists | compiler/src/jdk.graal.compiler/src/jdk/graal/compiler/lir/alloc/verifier/RegisterAllocationVerifier.java:61-74 | The first failing predecessor's error is the error of the whole intersection. |
| Dataflow.IntersectFailsAt | compiler/src/jdk.graal.compiler/src/jdk/graal/compiler/lir/alloc/verifier/RegisterAllocationVerifier.java:61-74 | A failed intersection fails with the error of one of the predecessors. |
| Dataflow.PhiLocationIff | compiler/src/jdk.graal.compiler/src/jdk/graal/compiler/lir/alloc/verifier/RegisterAllocationVerifier.java:58-80 | A phi result has a location exactly when there are predecessors, each offers a set, and their intersection has exactly one element. That element is in every predecessor's set. Otherwise the error is the missing predecessors, a predecessor's error, or a location that is not unique. |
| Dataflow.StoreBounded | compiler/src/jdk.graal.compiler/src/jdk/graal/compiler/lir/alloc/verifier/RegisterAllocationVerifier.java:115-124 | Replacing a block's exit state by a grown one and propagating it keeps every entry state bounded by the exit states of blocks with an edge to it. |
| Dataflow.PropagateGrows | compiler/src/jdk.graal.compiler/src/jdk/graal/compiler/lir/alloc/verifier/RegisterAllocationVerifier.java:117-124 | Meeting an exit state into the successors only grows every entry state. |
| Dataflow.TracedStep | compiler/src/jdk.graal.compiler/src/jdk/graal/compiler/lir/alloc/verifier/RegisterAllocationVerifier.java:102-124 | After a worklist step, every exit state is still `Transfer` of a recorded entry state that the current entry state grows. |
| Dataflow.FollowStep | compiler/src/jdk.graal.compiler/src/jdk/graal/compiler/lir/alloc/verifier/RegisterAllocationVerifier.java:102-124 | After a worklist step, every recorded instruction list is still extended by the current instructions, whose definitions only gained locations. |
| Dataflow.BoundedStep | compiler/src/jdk.graal.compiler/src/jdk/graal/compiler/lir/alloc/verifier/RegisterAllocationVerifier.java:102-124 | When the definitions only gain locations, a worklist step keeps every entry state bounded by the exit states. |
| Dataflow.UnboundedEntryRuledOut | compiler/src/jdk.graal.compiler/src/jdk/graal/compiler/lir/alloc/verifier/RegisterAllocationVerifier.java:90-127 | An entry state that claims a register no predecessor exit holds can still be settled, and would let a wrong-register use pass. The upper bound excludes it and holds for the true entry state. |
| Dataflow.SpuriousConflictBounded | compiler/src/jdk.graal.compiler/src/jdk/graal/compiler/lir/alloc/verifier/RegisterAllocationVerifier.java:90-127 | On a two-block program without a loop, an entry state that marks register 1 Conflicted, where the code has the predecessor's Value, is settled, traced and bounded, and makes the use in the second block fail. The upper bound does not exclude it. |
| Dataflow.TwoBlockProgram | compiler/src/jdk.graal.compiler/src/jdk/graal/compiler/lir/alloc/verifier/RegisterAllocationVerifier.java:97-155 | Block 0 defines variable 0 in register 1 and jumps to block 1. The merged entry state of block 1 is settled. A use in register 1 verifies, and a use in register 2 does not. |
| Verifier.WriteSlot | compiler/src/jdk.graal.compiler/src/jdk/graal/compiler/lir/alloc/verifier/RegisterAllocationVerifier.java:81-86 | Each target array ends up with exactly the one slot replaced, even when arrays coincide. |
| Verifier.UpdateAll | compiler/src/jdk.graal.compiler/src/jdk/graal/compiler/lir/alloc/verifier/RegisterAllocationVerifier.java:111-114 | Updating with each instruction in turn leaves `Transfer` of the old state, or reports its error. |
| Verifier.ReplayAll | compiler/src/jdk.graal.compiler/src/jdk/graal/compiler/lir/alloc/verifier/RegisterAllocationVerifier.java:141-146 | Checking and then updating each instruction until a check fails gives `Replay` of the old state. |
| Verifier.RegisterAllocationVerifier.constructor | compiler/src/jdk.graal.compiler/src/jdk/graal/compiler/lir/alloc/verifier/RegisterAllocationVerifier.java:25-34 | Only the start block has an entry state, the empty one, and no block has an exit state. |
| Verifier.RegisterAllocationVerifier.DoPredecessorsHaveStates | compiler/src/jdk.graal.compiler/src/jdk/graal/compiler/lir/alloc/verifier/RegisterAllocationVerifier.java:36-44 | True exactly when every predecessor has an exit state. |
| Verifier.RegisterAllocationVerifier.PhiLocationsAt | compiler/src/jdk.graal.compiler/src/jdk/graal/compiler/lir/alloc/verifier/RegisterAllocationVerifier.java:59-80 | The predecessor loop computes `PhiLocations` over what each predecessor offers, in order. |
| Verifier.RegisterAllocationVerifier.ResolvedJumpsCarry | compiler/src/jdk.graal.compiler/src/jdk/graal/compiler/lir/alloc/verifier/RegisterAllocationVerifier.java:64-65 | A resolved result means every predecessor ends with an Op that has the alive value to carry it. |
| Verifier.RegisterAllocationVerifier.Incoming | compiler/src/jdk.graal.compiler/src/jdk/graal/compiler/lir/alloc/verifier/RegisterAllocationVerifier.java:62-67 | A predecessor offers a set exactly when it ends with an Op whose alive slot `i` exists and holds null or a variable. The set is the locations in the register map (registers or stack slots) that its exit state gives that variable's Value. |
| Verifier.RegisterAllocationVerifier.PhiTargets | compiler/src/jdk.graal.compiler/src/jdk/graal/compiler/lir/alloc/verifier/RegisterAllocationVerifier.java:81-86 | The arrays written are the label's definition locations, then each predecessor jump's alive locations, in order. |
| Verifier.RegisterAllocationVerifier.PlacePhi | compiler/src/jdk.graal.compiler/src/jdk/graal/compiler/lir/alloc/verifier/RegisterAllocationVerifier.java:81-86 | The location lands in slot `i` of every target, and no other slot changes. Every array outside the label's definitions and the predecessor jumps' alive values is unchanged. |
| Verifier.RegisterAllocationVerifier.ResolvePhi | compiler/src/jdk.graal.compiler/src/jdk/graal/compiler/lir/alloc/verifier/RegisterAllocationVerifier.java:76-80 | The result is the one element of the agreed set, or its error. |
| Verifier.RegisterAllocationVerifier.PlaceAgreed | compiler/src/jdk.graal.compiler/src/jdk/graal/compiler/lir/alloc/verifier/RegisterAllocationVerifier.java:81-86 | Placing result `i` extends the placed plan by one, and earlier results keep their locations. Every array outside the label's definitions and the predecessor jumps' alive values is unchanged. |
| Verifier.RegisterAllocationVerifier.SearchPhi | compiler/src/jdk.graal.compiler/src/jdk/graal/compiler/lir/alloc/verifier/RegisterAllocationVerifier.java:59-80 | The plan holds the agreed location of each result in order, up to the first result without one, whose error is returned. |
| Verifier.RegisterAllocationVerifier.PlacePlan | compiler/src/jdk.graal.compiler/src/jdk/graal/compiler/lir/alloc/verifier/RegisterAllocationVerifier.java:81-86 | After placement, every target holds the planned locations in its first slots. Every array outside the label's definitions and the predecessor jumps' alive values is unchanged. |
| Verifier.RegisterAllocationVerifier.FillMissingVariableLocationsForPhi | compiler/src/jdk.graal.compiler/src/jdk/graal/compiler/lir/alloc/verifier/RegisterAllocationVerifier.java:58-88 | Each result up to the first failing one holds its agreed location in the label's definitions and in every jump's alive values. The failing result's error is raised, and none means every result was placed. Every array outside the label's definitions and the predecessor jumps' alive values is unchanged. |
| Verifier.RegisterAllocationVerifier.TransferBlock | compiler/src/jdk.graal.compiler/src/jdk/graal/compiler/lir/alloc/verifier/RegisterAllocationVerifier.java:111-114 | The new exit state is a fresh object holding `Transfer` of the block's entry state (empty when absent), or `Transfer`'s error. |
| Verifier.RegisterAllocationVerifier.MeetInto | compiler/src/jdk.graal.compiler/src/jdk/graal/compiler/lir/alloc/verifier/RegisterAllocationVerifier.java:118-124 | The entry map becomes `MeetSuccessor`. The result is true exactly when the successor's entry state did not absorb the exit state. |
| Verifier.RegisterAllocationVerifier.PropagateExit | compiler/src/jdk.graal.compiler/src/jdk/graal/compiler/lir/alloc/verifier/RegisterAllocationVerifier.java:117-125 | The entry map and the successors added to the worklist are exactly `Propagate`. |
| Verifier.RegisterAllocationVerifier.CompletePhi | compiler/src/jdk.graal.compiler/src/jdk/graal/compiler/lir/alloc/verifier/RegisterAllocationVerifier.java:105-108 | A label that needs no phi, or whose predecessors are not all done, raises nothing and changes no array. Otherwise an error is the error of some phi result, and success places every result's agreed location in the label and every jump. Only those arrays change, and from safe phi arrays every instruction's definitions only gain locations. |
| Verifier.RegisterAllocationVerifier.PhiKeepsViews | compiler/src/jdk.graal.compiler/src/jdk/graal/compiler/lir/alloc/verifier/RegisterAllocationVerifier.java:81-86 | Filling the phi of a label that lacks it, with safe phi arrays, changes each instruction's definitions only by giving locations to null slots. |
| Verifier.RegisterAllocationVerifier.PhiKeepsSafe | compiler/src/jdk.graal.compiler/src/jdk/graal/compiler/lir/alloc/verifier/RegisterAllocationVerifier.java:81-86 | Filling a label's phi completely keeps the phi arrays safe. |
| Verifier.RegisterAllocationVerifier.StoreExit | compiler/src/jdk.graal.compiler/src/jdk/graal/compiler/lir/alloc/verifier/RegisterAllocationVerifier.java:115-125 | It stores the exit state and keeps the fixed point. The new entry states and worklist additions are exactly `Propagate` of the old entry states with that exit state. |
| Verifier.RegisterAllocationVerifier.ExitBlock | compiler/src/jdk.graal.compiler/src/jdk/graal/compiler/lir/alloc/verifier/RegisterAllocationVerifier.java:110-125 | The exit state is `Transfer` of the entry state, stored and propagated exactly as `Propagate`, or the transfer's error with both maps unchanged. No array changes. |
| Verifier.RegisterAllocationVerifier.ProcessBlock | compiler/src/jdk.graal.compiler/src/jdk/graal/compiler/lir/alloc/verifier/RegisterAllocationVerifier.java:102-125 | One worklist step keeps the fixed point. On success only the block's exit state changes, to `Transfer` of its old entry state, and the entry states become exactly `Propagate` of the old ones. A fatal error leaves both maps as they were. Only the block's phi arrays change, and from safe phi arrays every instruction's definitions only gain locations. |
| Verifier.RegisterAllocationVerifier.TraceBlock | compiler/src/jdk.graal.compiler/src/jdk/graal/compiler/lir/alloc/verifier/RegisterAllocationVerifier.java:102-125 | A worklist step keeps every exit state `Transfer` of a recorded entry state that the current one grows. From safe phi arrays it keeps them safe and, from an empty start entry, every entry state bounded by the exit states. |
| Verifier.RegisterAllocationVerifier.WorklistStep | compiler/src/jdk.graal.compiler/src/jdk/graal/compiler/lir/alloc/verifier/RegisterAllocationVerifier.java:103-125 | Taking the first block off the worklist and queueing its changed successors keeps the loop's invariant. |
| Verifier.RegisterAllocationVerifier.CalculateEntryBlocks | compiler/src/jdk.graal.compiler/src/jdk/graal/compiler/lir/alloc/verifier/RegisterAllocationVerifier.java:90-127 | Only labels' definition locations and jumps' alive locations change. Every exit state is `Transfer` of a recorded entry state that the final one grows. Once the worklist drains, every exit state is absorbed by each successor's entry state, and every block with an entry state (the start block among them) has an exit state. From safe phi arrays and an empty start entry, every location of an entry state is known at some predecessor's exit, and each Value it holds is held there. |
| Verifier.RegisterAllocationVerifier.ReplayBlock | compiler/src/jdk.graal.compiler/src/jdk/graal/compiler/lir/alloc/verifier/RegisterAllocationVerifier.java:138-146 | The pass over one block returns `Replay` of its entry state. |
| Verifier.RegisterAllocationVerifier.VerifyInstructionInputs | compiler/src/jdk.graal.compiler/src/jdk/graal/compiler/lir/alloc/verifier/RegisterAllocationVerifier.java:135-150 | The verdict is `VerifyBlocks` over the entry states, which `VerifyBlocksIff` characterises. |
| Verifier.RegisterAllocationVerifier.Run | compiler/src/jdk.graal.compiler/src/jdk/graal/compiler/lir/alloc/verifier/RegisterAllocationVerifier.java:152-155 | Only labels' definition locations and jumps' alive locations change; every other array keeps the allocator's locations. A verdict comes from the fixed point: the entry states are settled, cover the start block, are traced to the exit states and, from safe phi arrays and an empty start entry, bounded by them. The verdict is the checking pass's verdict on them. |

## Left out

- The control-flow graph, `LIR`, `BlockMap` and `LIRInstruction` are parameters. Blocks are
  indices with predecessor and successor lists, and each operand traversal of a real
  instruction is a given sequence of values. The `lirInstruction` back-reference of `Base` is
  not modelled.
- Registers, stack slots and variables are given by number. There are no typed values and no
  `ValueKind`.
- The Conflicted payload is appended as in the code, but it is a value. Java's shallow map
  copy shares Conflicted objects between states, and in-place `meet` mutates them. That
  aliasing is not modelled. Neither `check` nor `equals` reads the payload.
- `clone` is the identity, because allocation states are values.
- The block-state maps hold machine states as values, not `VerifierState` objects. In Java no
  two blocks share a state object, so `meetWith` on the stored entry state is modelled as
  replacing the stored value.
- `verifyInstructionInputs` in Java updates the stored entry states in place while it
  replays. The model replays each block on a copy, so the entry states keep the values phase
  1 computed. This does not change the verdict, since each block is replayed once.
- `update`'s `default -> throw` branch is unreachable here, because the instruction kinds
  form a closed datatype.
- `checkAliveConstraint` is modelled, but, as in the code, `check` never calls it. The alive
  and temporary checks that are commented out in the code are not modelled.
- Verifier.RegisterAllocationVerifier.CalculateEntryBlocks: the worklist runs on a `fuel` bound of
  processed blocks and reports `OutOfFuel` (and `Run` reports `Exhausted`) when the bound is
  reached. The code promises no termination bound, and no bound is proved.
- Verifier.RegisterAllocationVerifier.Run and `CalculateEntryBlocks` require a fresh verifier: only the start block has an entry state, and no block has an
  exit state. That is the constructor's state.
- Verifier.RegisterAllocationVerifier.VerifyInstructionInputs, `ReplayBlock` and `Run` require every use to have its
  original value (`UsesRecorded`), because `checkInputs` dereferences it.
- Verifier.RegisterAllocationVerifier.CalculateEntryBlocks states the fixed point as absorption:
  every stored exit state is absorbed by each successor's entry state. It does not claim that
  each exit state equals `Transfer` of the final entry state. A block processed before a phi
  of its own label is placed, or before a later merge into it, can keep an exit state
  computed from an earlier entry state. It claims instead that each exit state is `Transfer`
  of a recorded entry state that the final entry state grows.
- Verifier.RegisterAllocationVerifier.CalculateEntryBlocks and `Run` state the upper bound
  (`Bounded`) only when the phi arrays start safe and the start block's entry state is empty.
  Safe means no jump's alive locations are also an Op's definition locations, and a label
  lacking its phi results has no location placed. The code fills every slot of a label whose
  first slot alone is null, so an earlier location could be overwritten, and a shared array
  would let one write change another instruction. Either can break the bound.
- Verifier.RegisterAllocationVerifier.CalculateEntryBlocks: the upper bound is not minimality,
  and the entry states are not claimed to be the least fixed point. `Bounded` limits a
  Conflicted entry location only by some predecessor's exit state holding that key, whatever
  its value. So even without a loop, an entry location can be Conflicted where the code's
  is a Value (`Dataflow.SpuriousConflictBounded`). Around a loop, locations that justify one
  another also satisfy the bound, so a location can be a Value where the code's is absent.
- Verifier.RegisterAllocationVerifier.Run: the verdict is not determined by the contract. It
  is `VerifyBlocks` of the computed entry states, and those are pinned down only as far as the
  previous line says. A spuriously Conflicted entry would make the verdict reject a program
  the code accepts. Around a loop, locations that justify one another would let it accept a
  program the code rejects.
- Verifier.WellFormedProgram requires every block, reached or not, to begin with an Op. The
  code casts the first instruction only of blocks the worklist reaches. An LIR block always
  begins with its label, so the cast does not fail on compiled code.
- VerifierStates.VerifierState.CheckAliveConstraint requires every alive location to be
  non-null. There the code calls `equals` on the alive location (line 224) and would throw a
  NullPointerException. Nothing calls the method, so that exception is not modelled.
- Verifier.RegisterAllocationVerifier.FillMissingVariableLocationsForPhi searches every result
  before placing any. The search reads only exit states and original alive values, and the
  writes touch only locations, so the outcome matches the code's interleaving, including how
  many results are placed before an error.
- Phi resolution on a block with no predecessors dereferences a null set in the code. The
  model reports it as `NoPredecessors`. A non-Op jump or a missing alive slot is
  `MalformedInstruction`, in place of Java's cast or index exception.
- The `ValueAllocationState` constructor's class check is modelled as an `update` that fails
  with `IllegalAllocationState`, in place of the thrown exception.
- The Java `assert`s on `index < count` in the array accessors are preconditions of
  `GetOrig`, `GetCurrent`, `AddOrig`, `AddCurrent`, `CopyOriginal`, `CopyCurrent` and the
  fill methods. The assertion that a recorded definition has an original value (line 282)
  is not a precondition. A null original fails the Value constructor's class check, as it
  does when assertions are off.
- The HashSet iteration order of phi resolution is left out. An agreed set has exactly one
  element, so the order cannot matter.
