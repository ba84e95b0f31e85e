/**
 * VerifierState: the abstract machine state at one program point, a register
 * map and a spill-slot map, with the verifier's `check`, `update` and
 * `meetWith`. The two maps are fields the methods reassign.
 */
module VerifierStates {
  import opened Values
  import opened AllocationStates
  import opened StateMaps
  import opened Instructions
  import opened Semantics

  /**
   * The constraint `checkAliveConstraint` tests: no alive location of an Op is
   * also one of its temporaries, uses or definitions.
   */
  predicate AliveApart(uses: PairView, dests: PairView, temp: PairView, alive: PairView) {
    forall i :: 0 <= i < |alive.curr| ==>
      alive.curr[i] !in temp.curr && alive.curr[i] !in uses.curr && alive.curr[i] !in dests.curr
  }

  class VerifierState {
    var registers: StateMap
    var spillSlots: StateMap

    /** The empty state: every location Unknown. */
    constructor ()
      ensures registers == map[] && spillSlots == map[]
    {
      registers, spillSlots := map[], map[];
    }

    /**
     * A copy of another state, or the empty state when there is none. The maps
     * of the block states hold their states as values, so the copied state is
     * given by what it holds.
     */
    constructor Copy(other: Option<MachineState>)
      ensures other.None? ==> registers == map[] && spillSlots == map[]
      ensures other.Some? ==> View() == other.value
    {
      if other.None? {
        registers, spillSlots := map[], map[];
      } else {
        registers, spillSlots := other.value.registers, other.value.spillSlots;
      }
    }

    function View(): (st: MachineState)
      reads this
    {
      MachineState(registers, spillSlots)
    }

    /** `meetWith`: merges both maps of the other state into this one; reports whether either changed. */
    method MeetWith(other: VerifierState) returns (changed: bool)
      modifies this
      ensures registers == MergedMap(old(registers), old(other.registers))
      ensures spillSlots == MergedMap(old(spillSlots), old(other.spillSlots))
      ensures changed == (MergeChanged(old(registers), old(other.registers)) ||
                          MergeChanged(old(spillSlots), old(other.spillSlots)))
    {
      var otherRegisters, otherSpillSlots := other.registers, other.spillSlots;
      var regChanged, stackChanged;
      registers, regChanged := MergeWith(registers, otherRegisters);
      spillSlots, stackChanged := MergeWith(spillSlots, otherSpillSlots);
      changed := regChanged || stackChanged;
    }

    /** `checkInputs`: each slot of the group either kept its value or finds it in its register. */
    method CheckInputs(values: ValueArrayPair) returns (ok: bool)
      requires values.Valid() && values.View().OrigPresent()
      ensures ok == InputsValid(registers, values.View())
    {
      var idx := 0;
      while idx < values.count
        invariant 0 <= idx <= values.count
        invariant forall k :: 0 <= k < idx ==> UseValid(registers, values.orig[k].value, values.curr[k])
      {
        var orig := values.orig[idx].value;
        var curr := values.curr[idx];
        if Some(orig) != curr {
          var state := if curr.Some? then Get(registers, curr.value) else Unknown;
          if state.Conflicted? || state.Unknown? {
            return false;
          }
          if state.value != orig {
            return false;
          }
        }
        idx := idx + 1;
      }
      return true;
    }

    /** `checkAliveConstraint`: no alive location is a temporary, a use or a definition. */
    method CheckAliveConstraint(op: Op) returns (ok: bool)
      requires op.Valid()
      requires forall i :: 0 <= i < op.alive.count ==> op.alive.curr[i].Some?
      ensures ok == AliveApart(op.uses.View(), op.dests.View(), op.temp.View(), op.alive.View())
    {
      var i := 0;
      while i < op.alive.count
        invariant 0 <= i <= op.alive.count
        invariant forall k :: 0 <= k < i ==>
          op.alive.curr[k] !in op.temp.curr[..] && op.alive.curr[k] !in op.uses.curr[..] &&
          op.alive.curr[k] !in op.dests.curr[..]
      {
        var live := op.alive.curr[i];
        var j := 0;
        while j < op.temp.count
          invariant 0 <= j <= op.temp.count
          invariant live !in op.temp.curr[..j]
        {
          if live == op.temp.curr[j] {
            return false;
          }
          assert op.temp.curr[..j + 1] == op.temp.curr[..j] + [op.temp.curr[j]];
          j := j + 1;
        }
        assert op.temp.curr[..j] == op.temp.curr[..];
        j := 0;
        while j < op.uses.count
          invariant 0 <= j <= op.uses.count
          invariant live !in op.uses.curr[..j]
        {
          if live == op.uses.curr[j] {
            return false;
          }
          assert op.uses.curr[..j + 1] == op.uses.curr[..j] + [op.uses.curr[j]];
          j := j + 1;
        }
        assert op.uses.curr[..j] == op.uses.curr[..];
        j := 0;
        while j < op.dests.count
          invariant 0 <= j <= op.dests.count
          invariant live !in op.dests.curr[..j]
        {
          if live == op.dests.curr[j] {
            return false;
          }
          assert op.dests.curr[..j + 1] == op.dests.curr[..j] + [op.dests.curr[j]];
          j := j + 1;
        }
        assert op.dests.curr[..j] == op.dests.curr[..];
        i := i + 1;
      }
      return true;
    }

    /** `check`: the uses of an Op are checked; every other instruction passes. */
    method Check(instr: Base) returns (ok: bool)
      requires instr.Valid() && Checkable(instr.View())
      ensures ok == Passes(registers, instr.View())
    {
      if instr.kind.OpKind? {
        ok := CheckInputs(instr.kind.op.uses);
      } else {
        ok := true;
      }
    }

    /**
     * `update`: applies the instruction to the state; `ok` is false when the
     * Java code throws because a definition's original value is neither a
     * register nor a variable.
     */
    method Update(instr: Base) returns (ok: bool)
      requires instr.Valid()
      modifies this
      ensures ok == Step(old(View()), instr.View()).Ok?
      ensures ok ==> View() == Step(old(View()), instr.View()).value
    {
      match instr.kind
      case OpKind(op) =>
        var dests := op.dests;
        var i := 0;
        while i < dests.count
          invariant 0 <= i <= dests.count
          invariant Define(old(registers), dests.View(), i) == Ok(registers)
          invariant spillSlots == old(spillSlots)
        {
          if dests.orig[i] != Some(Illegal) && dests.curr[i].Some? {
            if dests.orig[i].Some? && IsSymbol(dests.orig[i].value) {
              registers := registers[dests.curr[i].value := ValueState(dests.orig[i].value)];
            } else {
              DefineErrorPersists(old(registers), dests.View(), i + 1, dests.count);
              return false;
            }
          }
          i := i + 1;
        }
        ok := true;
      case SpillKind(from, to) =>
        spillSlots := PutClone(spillSlots, StackSlot(to), Get(registers, Register(from)));
        ok := true;
      case ReloadKind(from, to) =>
        registers := PutClone(registers, Register(to), Get(spillSlots, StackSlot(from)));
        ok := true;
      case MoveKind(from, to) =>
        registers := PutClone(registers, Register(to), Get(registers, Register(from)));
        ok := true;
      case VirtualMoveKind(to, from) =>
        registers := registers[Register(from) := ValueState(Variable(to))];
        ok := true;
    }
  }
}
