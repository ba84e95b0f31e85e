/**
 * The meaning of `check` and `update` on the abstract machine state (the
 * register map and the spill-slot map), as pure functions over what the
 * instructions hold. The verifier state's methods and the driver are proved
 * against these definitions.
 */
module Semantics {
  import opened Values
  import opened AllocationStates
  import opened StateMaps
  import opened Instructions

  /** The abstract machine state at one program point. */
  datatype MachineState = MachineState(registers: StateMap, spillSlots: StateMap)

  // ---------------------------------------------------------------- check

  /**
   * One use is acceptable when the allocator left it in place, or when the
   * register state at its location is exactly the Value of the original symbol.
   * A null location reads as Unknown, since no null key is ever stored.
   */
  predicate UseValid(registers: StateMap, orig: Value, curr: Option<Value>) {
    Some(orig) == curr || (curr.Some? && Get(registers, curr.value) == ValueState(orig))
  }

  /** `checkInputs`: every slot of the group is acceptable. */
  predicate InputsValid(registers: StateMap, values: PairView)
    requires values.Valid() && values.OrigPresent()
  {
    forall i :: 0 <= i < |values.orig| ==> UseValid(registers, values.orig[i].value, values.curr[i])
  }

  /** What `check` needs of an instruction: the uses of an Op have their original values. */
  predicate Checkable(iv: InstrView) {
    iv.OpView? ==> iv.uses.Valid() && iv.uses.OrigPresent()
  }

  /**
   * `check`: only the uses of an Op are examined; its definitions, temporaries
   * and alive values, and every other kind of instruction, always pass.
   */
  predicate Passes(registers: StateMap, iv: InstrView)
    requires Checkable(iv)
  {
    iv.OpView? ==> InputsValid(registers, iv.uses)
  }

  /**
   * Check fails exactly when some use that the allocator moved finds its register
   * Unknown, Conflicted, or holding the Value of a different symbol.
   */
  lemma CheckFailsIff(registers: StateMap, iv: InstrView)
    requires Checkable(iv)
    ensures !Passes(registers, iv) <==>
      iv.OpView? &&
      exists i :: 0 <= i < |iv.uses.orig| && Some(iv.uses.orig[i].value) != iv.uses.curr[i] &&
        (iv.uses.curr[i].None? ||
         var s := Get(registers, iv.uses.curr[i].value);
         s.Unknown? || s.Conflicted? || (s.ValueState? && s.value != iv.uses.orig[i].value))
  {
    if iv.OpView? {
      forall i | 0 <= i < |iv.uses.orig| && iv.uses.curr[i].Some?
        ensures var s := Get(registers, iv.uses.curr[i].value);
                s.Unknown? || s.Conflicted? || s.ValueState?
      {
      }
    }
  }

  /** Once a register is Conflicted, every moved use of it fails the check. */
  lemma ConflictedUseFails(registers: StateMap, iv: InstrView, i: nat)
    requires Checkable(iv) && iv.OpView? && i < |iv.uses.orig|
    requires iv.uses.curr[i].Some? && iv.uses.curr[i].value in registers
    requires registers[iv.uses.curr[i].value].Conflicted?
    requires Some(iv.uses.orig[i].value) != iv.uses.curr[i]
    ensures !Passes(registers, iv)
  {
    assert !UseValid(registers, iv.uses.orig[i].value, iv.uses.curr[i]);
  }

  /** An instruction whose every use kept its original value passes in any state. */
  lemma UnmovedUsesPass(registers: StateMap, iv: InstrView)
    requires Checkable(iv)
    requires iv.OpView? ==> forall i :: 0 <= i < |iv.uses.orig| ==> iv.uses.curr[i] == iv.uses.orig[i]
    ensures Passes(registers, iv)
  {
  }

  // ---------------------------------------------------------------- update

  /** A definition slot that `update` records: its original value is not ILLEGAL and it has a location. */
  predicate Recorded(dests: PairView, i: nat)
    requires dests.Valid() && i < |dests.orig|
  {
    dests.orig[i] != Some(Illegal) && dests.curr[i].Some?
  }

  /**
   * The first `n` definitions of an Op applied in order: each recorded one puts
   * the Value of its original symbol at its location; an original that is not a
   * register or a variable makes the Value state's constructor throw.
   */
  function Define(registers: StateMap, dests: PairView, n: nat): (r: Result<StateMap>)
    requires dests.Valid() && n <= |dests.orig|
    ensures r.Err? ==> r.error == IllegalAllocationState
  {
    if n == 0 then Ok(registers)
    else
      match Define(registers, dests, n - 1)
      case Err(e) => Err(e)
      case Ok(regs) =>
        if !Recorded(dests, n - 1) then Ok(regs)
        else if dests.orig[n - 1].Some? && IsSymbol(dests.orig[n - 1].value) then
          Ok(regs[dests.curr[n - 1].value := ValueState(dests.orig[n - 1].value)])
        else Err(IllegalAllocationState)
  }

  /** What `update` needs of an instruction: the groups of an Op are well formed. */
  predicate Updatable(iv: InstrView) {
    iv.OpView? ==> iv.dests.Valid()
  }

  /**
   * `update`: an Op records its definitions in the registers; a Spill copies a
   * register's state to a stack slot, a Reload a slot's state to a register,
   * a Move one register's state to another; a VirtualMove puts the Value of its
   * variable into its register.
   */
  function Step(st: MachineState, iv: InstrView): (r: Result<MachineState>)
    requires Updatable(iv)
    ensures r.Err? ==> iv.OpView? && r.error == IllegalAllocationState
  {
    match iv
    case OpView(_, dests, _, _) =>
      (match Define(st.registers, dests, |dests.orig|)
       case Err(e) => Err(e)
       case Ok(regs) => Ok(st.(registers := regs)))
    case SpillView(from, to) =>
      Ok(st.(spillSlots := PutClone(st.spillSlots, StackSlot(to), Get(st.registers, Register(from)))))
    case ReloadView(from, to) =>
      Ok(st.(registers := PutClone(st.registers, Register(to), Get(st.spillSlots, StackSlot(from)))))
    case MoveView(from, to) =>
      Ok(st.(registers := PutClone(st.registers, Register(to), Get(st.registers, Register(from)))))
    case VirtualMoveView(to, from) =>
      Ok(st.(registers := st.registers[Register(from) := ValueState(Variable(to))]))
  }

  /** Slot `i` is the last recorded definition, among the first `n`, of its location. */
  predicate LastRecorded(dests: PairView, n: nat, i: nat)
    requires dests.Valid() && n <= |dests.orig| && i < n
  {
    Recorded(dests, i) && forall j :: i < j < n && Recorded(dests, j) ==> dests.curr[j] != dests.curr[i]
  }

  /** No recorded definition among the first `n` names the location. */
  predicate Untouched(dests: PairView, n: nat, loc: Value)
    requires dests.Valid() && n <= |dests.orig|
  {
    forall i :: 0 <= i < n && Recorded(dests, i) ==> dests.curr[i] != Some(loc)
  }

  /**
   * The definitions of an Op succeed exactly when every recorded slot has a
   * register or a variable as its original value.
   */
  lemma {:induction false} DefineSucceedsIff(registers: StateMap, dests: PairView, n: nat)
    requires dests.Valid() && n <= |dests.orig|
    ensures Define(registers, dests, n).Ok? <==>
      forall i :: 0 <= i < n && Recorded(dests, i) ==> dests.orig[i].Some? && IsSymbol(dests.orig[i].value)
  {
    if n > 0 {
      DefineSucceedsIff(registers, dests, n - 1);
    }
  }

  /** After the definitions, the last recorded definition of a location decides its state. */
  lemma {:induction false} DefineLastWins(registers: StateMap, dests: PairView, n: nat)
    requires dests.Valid() && n <= |dests.orig| && Define(registers, dests, n).Ok?
    ensures var r := Define(registers, dests, n).value;
      forall i :: 0 <= i < n && LastRecorded(dests, n, i) ==>
        dests.curr[i].value in r && dests.orig[i].Some? && r[dests.curr[i].value] == ValueState(dests.orig[i].value)
  {
    if n > 0 {
      DefineLastWins(registers, dests, n - 1);
    }
  }

  /** A location that no recorded definition names keeps its old state, or its absence. */
  lemma {:induction false} DefineKeepsUntouched(registers: StateMap, dests: PairView, n: nat)
    requires dests.Valid() && n <= |dests.orig| && Define(registers, dests, n).Ok?
    ensures var r := Define(registers, dests, n).value;
      forall loc :: Untouched(dests, n, loc) ==>
        (loc in r <==> loc in registers) && (loc in registers ==> r[loc] == registers[loc])
  {
    if n > 0 {
      DefineKeepsUntouched(registers, dests, n - 1);
    }
  }

  /** A definition that throws ends all the definitions of the Op with that error. */
  lemma {:induction false} DefineErrorPersists(registers: StateMap, dests: PairView, m: nat, n: nat)
    requires dests.Valid() && m <= n <= |dests.orig|
    requires Define(registers, dests, m).Err?
    ensures Define(registers, dests, n) == Define(registers, dests, m)
  {
    if m < n {
      DefineErrorPersists(registers, dests, m, n - 1);
    }
  }

  /** Spilling a register and reloading it from the same slot gives the register its old state back. */
  lemma SpillReloadRoundTrip(st: MachineState, register: nat, slot: nat)
    ensures Step(st, SpillView(register, slot)).Ok?
    ensures var mid := Step(st, SpillView(register, slot)).value;
            Step(mid, ReloadView(slot, register)).Ok? &&
            var after := Step(mid, ReloadView(slot, register)).value;
            Get(after.registers, Register(register)) == Get(st.registers, Register(register)) &&
            Get(after.spillSlots, StackSlot(slot)) == Get(st.registers, Register(register)) &&
            (forall k :: k in st.registers && k != Register(register) ==> after.registers[k] == st.registers[k])
  {
  }

  /**
   * The move kinds never fail and touch one location: the other map is kept
   * whole, every other location of the written map keeps its state, and the
   * target gains the source's state (the variable's Value for a virtual move).
   */
  lemma MovesWriteOneLocation(st: MachineState, iv: InstrView)
    requires !iv.OpView?
    ensures Step(st, iv).Ok?
    ensures var after := Step(st, iv).value;
      match iv
      case SpillView(from, to) =>
        after.registers == st.registers &&
        (forall k :: k in st.spillSlots && k != StackSlot(to) ==> k in after.spillSlots && after.spillSlots[k] == st.spillSlots[k]) &&
        after.spillSlots.Keys == st.spillSlots.Keys + {StackSlot(to)} &&
        after.spillSlots[StackSlot(to)] == Get(st.registers, Register(from))
      case ReloadView(from, to) =>
        after.spillSlots == st.spillSlots &&
        (forall k :: k in st.registers && k != Register(to) ==> k in after.registers && after.registers[k] == st.registers[k]) &&
        after.registers.Keys == st.registers.Keys + {Register(to)} &&
        after.registers[Register(to)] == Get(st.spillSlots, StackSlot(from))
      case MoveView(from, to) =>
        after.spillSlots == st.spillSlots &&
        (forall k :: k in st.registers && k != Register(to) ==> k in after.registers && after.registers[k] == st.registers[k]) &&
        after.registers.Keys == st.registers.Keys + {Register(to)} &&
        after.registers[Register(to)] == Get(st.registers, Register(from))
      case VirtualMoveView(to, from) =>
        after.spillSlots == st.spillSlots &&
        (forall k :: k in st.registers && k != Register(from) ==> k in after.registers && after.registers[k] == st.registers[k]) &&
        after.registers.Keys == st.registers.Keys + {Register(from)} &&
        after.registers[Register(from)] == ValueState(Variable(to))
  {
  }

  // ---------------------------------------------------------------- blocks

  /** Every instruction of a sequence can be checked and updated. */
  predicate AllReady(ivs: seq<InstrView>) {
    forall i :: 0 <= i < |ivs| ==> Checkable(ivs[i]) && Updatable(ivs[i])
  }

  /** Every instruction of a sequence can be updated. */
  predicate AllUpdatable(ivs: seq<InstrView>) {
    forall i :: 0 <= i < |ivs| ==> Updatable(ivs[i])
  }

  /** Threads a state through `update` for each instruction in order (the exit state of a block). */
  function Transfer(st: MachineState, ivs: seq<InstrView>): (r: Result<MachineState>)
    requires AllUpdatable(ivs)
  {
    if ivs == [] then Ok(st)
    else
      match Transfer(st, ivs[..|ivs| - 1])
      case Err(e) => Err(e)
      case Ok(s) => Step(s, ivs[|ivs| - 1])
  }

  /** A failing update in a prefix ends the whole transfer with the same error. */
  lemma {:induction false} TransferErrorPersists(st: MachineState, ivs: seq<InstrView>, n: nat)
    requires AllUpdatable(ivs) && n <= |ivs|
    requires Transfer(st, ivs[..n]).Err?
    ensures Transfer(st, ivs) == Transfer(st, ivs[..n])
  {
    if n < |ivs| {
      assert ivs[..n] == ivs[..|ivs| - 1][..n];
      TransferErrorPersists(st, ivs[..|ivs| - 1], n);
    } else {
      assert ivs[..n] == ivs;
    }
  }

  /** How far a linear check/update pass over a block got. */
  datatype Progress = Running(state: MachineState) | Rejected

  /**
   * The linear pass over a block: each instruction is checked and then applied;
   * the first failing check rejects and nothing after it is looked at.
   */
  function Replay(st: MachineState, ivs: seq<InstrView>): (r: Result<Progress>)
    requires AllReady(ivs)
  {
    if ivs == [] then Ok(Running(st))
    else
      match Replay(st, ivs[..|ivs| - 1])
      case Err(e) => Err(e)
      case Ok(Rejected) => Ok(Rejected)
      case Ok(Running(s)) =>
        if !Passes(s.registers, ivs[|ivs| - 1]) then Ok(Rejected)
        else
          match Step(s, ivs[|ivs| - 1])
          case Err(e) => Err(e)
          case Ok(s') => Ok(Running(s'))
  }

  /** A rejected prefix stays rejected however the block continues. */
  lemma {:induction false} RejectionPersists(st: MachineState, ivs: seq<InstrView>, n: nat)
    requires AllReady(ivs) && n <= |ivs|
    requires Replay(st, ivs[..n]) == Ok(Rejected)
    ensures Replay(st, ivs) == Ok(Rejected)
  {
    if n < |ivs| {
      assert ivs[..n] == ivs[..|ivs| - 1][..n];
      RejectionPersists(st, ivs[..|ivs| - 1], n);
    } else {
      assert ivs[..n] == ivs;
    }
  }

  /** A fatal error in a prefix ends the pass with that error. */
  lemma {:induction false} ErrorPersists(st: MachineState, ivs: seq<InstrView>, n: nat)
    requires AllReady(ivs) && n <= |ivs|
    requires Replay(st, ivs[..n]).Err?
    ensures Replay(st, ivs) == Replay(st, ivs[..n])
  {
    if n < |ivs| {
      assert ivs[..n] == ivs[..|ivs| - 1][..n];
      ErrorPersists(st, ivs[..|ivs| - 1], n);
    } else {
      assert ivs[..n] == ivs;
    }
  }

  /** Instruction `k` passes its check in the state the instructions before it produce. */
  predicate PassesAt(st: MachineState, ivs: seq<InstrView>, k: nat)
    requires AllReady(ivs) && k < |ivs|
  {
    Transfer(st, ivs[..k]).Ok? && Passes(Transfer(st, ivs[..k]).value.registers, ivs[k])
  }

  /**
   * The pass accepts a block exactly when every instruction passes its check in
   * the state that updating through the instructions before it produced, and
   * every update succeeds; the state it ends in is then the block's exit state.
   */
  lemma {:induction false} ReplayAcceptsIff(st: MachineState, ivs: seq<InstrView>)
    requires AllReady(ivs)
    ensures Replay(st, ivs).Ok? && Replay(st, ivs).value.Running? <==>
      Transfer(st, ivs).Ok? && forall k :: 0 <= k < |ivs| ==> PassesAt(st, ivs, k)
    ensures Replay(st, ivs).Ok? && Replay(st, ivs).value.Running? ==>
      Replay(st, ivs).value.state == Transfer(st, ivs).value
  {
    if ivs != [] {
      var n := |ivs| - 1;
      var init := ivs[..n];
      ReplayAcceptsIff(st, init);
      assert AllReady(init);
      forall k | 0 <= k < n
        ensures PassesAt(st, ivs, k) == PassesAt(st, init, k)
      {
        assert init[..k] == ivs[..k];
      }
      assert PassesAt(st, ivs, n) <==>
        Transfer(st, init).Ok? && Passes(Transfer(st, init).value.registers, ivs[n]);
    }
  }

  // ---------------------------------------------------------------- programs

  /** Every instruction of every block can be checked and updated. */
  predicate ProgramReady(code: seq<seq<InstrView>>) {
    forall b :: 0 <= b < |code| ==> AllReady(code[b])
  }

  /**
   * The linear verification pass over the blocks in index order, each replayed
   * from its own entry state: a block without an entry state is a fatal error,
   * the first rejected block makes the verdict false, and either ends the pass.
   */
  function VerifyBlocks(entries: map<nat, MachineState>, code: seq<seq<InstrView>>): (r: Result<bool>)
    requires ProgramReady(code)
  {
    if code == [] then Ok(true)
    else
      var n := |code| - 1;
      match VerifyBlocks(entries, code[..n])
      case Err(e) => Err(e)
      case Ok(false) => Ok(false)
      case Ok(true) =>
        if n !in entries then Err(MissingEntryState)
        else BlockVerdict(Replay(entries[n], code[n]))
  }

  /** What the pass over one block contributes: its fatal error, a rejection, or acceptance. */
  function BlockVerdict(replayed: Result<Progress>): (r: Result<bool>) {
    match replayed
    case Err(e) => Err(e)
    case Ok(Rejected) => Ok(false)
    case Ok(Running(_)) => Ok(true)
  }

  /** The verdict on the first `n + 1` blocks, given that the first `n` were accepted. */
  lemma VerifyBlocksStep(entries: map<nat, MachineState>, code: seq<seq<InstrView>>, n: nat, replayed: Result<Progress>)
    requires ProgramReady(code) && n < |code|
    requires VerifyBlocks(entries, code[..n]) == Ok(true)
    requires n in entries ==> replayed == Replay(entries[n], code[n])
    ensures VerifyBlocks(entries, code[..n + 1]) ==
      if n !in entries then Err(MissingEntryState) else BlockVerdict(replayed)
  {
    assert code[..n + 1][..n] == code[..n];
  }

  /** A verdict reached on the first blocks is the verdict of the whole program, unless it is true. */
  lemma {:induction false} VerdictPersists(entries: map<nat, MachineState>, code: seq<seq<InstrView>>, n: nat)
    requires ProgramReady(code) && n <= |code|
    requires VerifyBlocks(entries, code[..n]) != Ok(true)
    ensures VerifyBlocks(entries, code) == VerifyBlocks(entries, code[..n])
  {
    if n < |code| {
      var m := |code| - 1;
      assert code[..n] == code[..m][..n];
      VerdictPersists(entries, code[..m], n);
    } else {
      assert code[..n] == code;
    }
  }

  /**
   * The program verifies exactly when every block has an entry state from which
   * the linear pass accepts it.
   */
  lemma {:induction false} VerifyBlocksIff(entries: map<nat, MachineState>, code: seq<seq<InstrView>>)
    requires ProgramReady(code)
    ensures VerifyBlocks(entries, code) == Ok(true) <==>
      forall b :: 0 <= b < |code| ==>
        b in entries && Replay(entries[b], code[b]).Ok? && Replay(entries[b], code[b]).value.Running?
  {
    if code != [] {
      var n := |code| - 1;
      VerifyBlocksIff(entries, code[..n]);
    }
  }

  // ---------------------------------------------------------------- growth

  /** One of the two maps of a machine state: the registers, or with `spill` the stack slots. */
  function Part(st: MachineState, spill: bool): (m: StateMap) {
    if spill then st.spillSlots else st.registers
  }

  /**
   * A later map of the same program point: every location it knew is still
   * present, and one that held more than Unknown still does.
   */
  predicate MapGrows(before: StateMap, after: StateMap) {
    forall loc :: loc in before ==> loc in after && (!before[loc].Unknown? ==> !after[loc].Unknown?)
  }

  /** Both maps of a machine state grow. */
  predicate Grows(before: MachineState, after: MachineState) {
    MapGrows(before.registers, after.registers) && MapGrows(before.spillSlots, after.spillSlots)
  }

  /** A later view of an Op's definitions: the same symbols, and every location recorded before is still there. */
  predicate DestsExtend(before: PairView, after: PairView) {
    before.Valid() && after.Valid() && after.orig == before.orig && |after.curr| == |before.curr| &&
    forall i :: 0 <= i < |before.curr| && before.curr[i].Some? ==> after.curr[i] == before.curr[i]
  }

  /**
   * A later view of the same instruction: a move is unchanged, an Op keeps its
   * recorded definitions (phi resolution only fills null locations).
   */
  predicate ViewExtends(before: InstrView, after: InstrView) {
    if before.OpView? then after.OpView? && DestsExtend(before.dests, after.dests) else after == before
  }

  /** A later view of the same block, instruction by instruction. */
  predicate ViewsExtend(before: seq<InstrView>, after: seq<InstrView>) {
    |after| == |before| && forall j :: 0 <= j < |before| ==> ViewExtends(before[j], after[j])
  }

  /** Growth and extension are orders: reflexive and transitive. */
  lemma GrowthIsOrder(a: MachineState, b: MachineState, c: MachineState,
                      u: seq<InstrView>, v: seq<InstrView>, w: seq<InstrView>)
    ensures Grows(a, a)
    ensures Grows(a, b) && Grows(b, c) ==> Grows(a, c)
    ensures (forall j :: 0 <= j < |u| ==> Updatable(u[j])) ==> ViewsExtend(u, u)
    ensures ViewsExtend(u, v) && ViewsExtend(v, w) ==> ViewsExtend(u, w)
  {
    if ViewsExtend(u, v) && ViewsExtend(v, w) {
      forall j | 0 <= j < |u| ensures ViewExtends(u[j], w[j]) {
        assert ViewExtends(u[j], v[j]) && ViewExtends(v[j], w[j]);
      }
    }
  }

  /** Definitions from a grown map with extended locations give a grown map. */
  lemma {:induction false} DefineGrows(registers: StateMap, registers': StateMap, dests: PairView, dests': PairView, n: nat)
    requires MapGrows(registers, registers') && DestsExtend(dests, dests') && n <= |dests.orig|
    requires Define(registers, dests, n).Ok? && Define(registers', dests', n).Ok?
    ensures MapGrows(Define(registers, dests, n).value, Define(registers', dests', n).value)
  {
    if n > 0 {
      DefineGrows(registers, registers', dests, dests', n - 1);
    }
  }

  /** One update from a grown state with an extended instruction gives a grown state. */
  lemma StepGrows(st: MachineState, st': MachineState, iv: InstrView, iv': InstrView)
    requires Grows(st, st') && ViewExtends(iv, iv') && Updatable(iv) && Updatable(iv')
    requires Step(st, iv).Ok? && Step(st', iv').Ok?
    ensures Grows(Step(st, iv).value, Step(st', iv').value)
  {
    if iv.OpView? {
      DefineGrows(st.registers, st'.registers, iv.dests, iv'.dests, |iv.dests.orig|);
    }
  }

  /**
   * Transfer is monotone: starting from a grown entry state, with every Op
   * keeping the locations it had, the exit state grows.
   */
  lemma {:induction false} TransferGrows(st: MachineState, st': MachineState, ivs: seq<InstrView>, ivs': seq<InstrView>)
    requires AllUpdatable(ivs) && AllUpdatable(ivs') && ViewsExtend(ivs, ivs') && Grows(st, st')
    requires Transfer(st, ivs).Ok? && Transfer(st', ivs').Ok?
    ensures Grows(Transfer(st, ivs).value, Transfer(st', ivs').value)
  {
    if ivs != [] {
      var n := |ivs| - 1;
      assert ViewsExtend(ivs[..n], ivs'[..n]) by {
        forall j | 0 <= j < n ensures ViewExtends(ivs[..n][j], ivs'[..n][j]) {
          assert ViewExtends(ivs[j], ivs'[j]);
        }
      }
      TransferGrows(st, st', ivs[..n], ivs'[..n]);
      assert ViewExtends(ivs[n], ivs'[n]);
      StepGrows(Transfer(st, ivs[..n]).value, Transfer(st', ivs'[..n]).value, ivs[n], ivs'[n]);
    }
  }

  // ---------------------------------------------------------------- scenarios

  /** An operand group with no slots. */
  const NoValues := PairView([], [])

  /** An Op that defines variable `v` in register `r`. */
  function DefineIn(v: nat, r: nat): (iv: InstrView) {
    OpView(NoValues, PairView([Some(Variable(v))], [Some(Register(r))]), NoValues, NoValues)
  }

  /** An Op that uses variable `v`, which the allocator placed in register `r`. */
  function UseFrom(v: nat, r: nat): (iv: InstrView) {
    OpView(PairView([Some(Variable(v))], [Some(Register(r))]), NoValues, NoValues, NoValues)
  }

  /** A variable defined in one register and read from another is rejected at the read. */
  lemma WrongRegisterRejected()
    ensures AllReady([DefineIn(0, 1), UseFrom(0, 2)])
    ensures Replay(MachineState(map[], map[]), [DefineIn(0, 1), UseFrom(0, 2)]) == Ok(Rejected)
  {
    var ivs := [DefineIn(0, 1), UseFrom(0, 2)];
    assert ivs[..1] == [DefineIn(0, 1)] && ivs[..1][..0] == [];
    assert !UseValid(map[Register(1) := ValueState(Variable(0))], Variable(0), Some(Register(2)));
  }

  /**
   * A variable defined in a register, spilled, reloaded into another register
   * and read from there is accepted; the second register then holds it.
   */
  lemma SpilledValueReloaded()
    ensures AllReady([DefineIn(0, 1), SpillView(1, 0), ReloadView(0, 2), UseFrom(0, 2)])
    ensures var r := Replay(MachineState(map[], map[]), [DefineIn(0, 1), SpillView(1, 0), ReloadView(0, 2), UseFrom(0, 2)]);
      r.Ok? && r.value.Running? && Get(r.value.state.registers, Register(2)) == ValueState(Variable(0))
  {
    var ivs := [DefineIn(0, 1), SpillView(1, 0), ReloadView(0, 2), UseFrom(0, 2)];
    assert ivs[..3] == [DefineIn(0, 1), SpillView(1, 0), ReloadView(0, 2)];
    assert ivs[..3][..2] == [DefineIn(0, 1), SpillView(1, 0)];
    assert ivs[..3][..2][..1] == [DefineIn(0, 1)] && ivs[..3][..2][..1][..0] == [];
    var st := MachineState(map[], map[]);
    var held := ValueState(Variable(0));
    var defined := MachineState(map[Register(1) := held], map[]);
    assert Define(map[], DefineIn(0, 1).dests, 1) == Ok(defined.registers);
    assert Replay(st, ivs[..1]) == Ok(Running(defined));
    var spilled := defined.(spillSlots := map[StackSlot(0) := held]);
    assert Replay(st, ivs[..2]) == Ok(Running(spilled));
    var reloaded := spilled.(registers := spilled.registers[Register(2) := held]);
    assert ivs[..3][..2] == ivs[..2];
    assert Replay(st, ivs[..3]) == Ok(Running(reloaded));
    assert UseValid(reloaded.registers, Variable(0), Some(Register(2)));
  }

  /** A set with one element is the singleton of any of its elements. */
  lemma SingletonOf<T>(s: set<T>, x: T)
    requires |s| == 1 && x in s
    ensures s == {x}
  {
    assert |s - {x}| == 0;
    assert s == (s - {x}) + {x};
  }
}
