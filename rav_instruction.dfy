/**
 * The abstracted instructions (RAVInstruction): every allocated LIR instruction
 * becomes an Op with four operand groups, each pairing the values before
 * allocation (`orig`) with the locations after it (`curr`), or one of the four
 * move kinds. The operand traversals of the real instruction are given as the
 * sequences of values they visit.
 */
module Instructions {
  import opened Values

  /** GetCountProcedure: counts the values a traversal visits. */
  class CountProcedure {
    var count: nat

    constructor ()
      ensures count == 0
    {
      count := 0;
    }

    /** `doValue`: one more visited value, handed back unchanged. */
    method DoValue(value: Value) returns (r: Value)
      modifies this
      ensures r == value && count == old(count) + 1
    {
      count := count + 1;
      r := value;
    }

    /** `getCount`: the number of visits since the last reset; resets the counter. */
    method GetCount() returns (n: nat)
      modifies this
      ensures n == old(count) && count == 0
    {
      n := count;
      count := 0;
    }

    /** One traversal of an operand group of the real instruction with this procedure. */
    method Visit(values: seq<Value>)
      modifies this
      ensures count == old(count) + |values|
    {
      var i := 0;
      while i < |values|
        invariant 0 <= i <= |values|
        invariant count == old(count) + i
      {
        var _ := DoValue(values[i]);
        i := i + 1;
      }
    }
  }

  /** What one operand group holds, slot by slot: the values before and after allocation. */
  datatype PairView = PairView(orig: seq<Option<Value>>, curr: seq<Option<Value>>) {
    predicate Valid() { |orig| == |curr| }
    /** Every slot's value before allocation is present (the checked groups need this). */
    predicate OrigPresent() { forall i :: 0 <= i < |orig| ==> orig[i].Some? }
  }

  /** ValueArrayPair: the `orig` and `curr` arrays of one operand group. */
  class ValueArrayPair {
    const count: nat
    const orig: array<Option<Value>>
    const curr: array<Option<Value>>
    /** The position of the next write of `copyOriginalProc`. */
    var origIndex: nat
    /** The position of the next write of `copyCurrentProc`. */
    var currIndex: nat

    predicate Valid() {
      orig.Length == count && curr.Length == count && orig != curr
    }

    constructor (count: nat)
      ensures Valid() && this.count == count
      ensures fresh(orig) && fresh(curr)
      ensures forall i :: 0 <= i < count ==> orig[i] == None && curr[i] == None
      ensures origIndex == 0 && currIndex == 0
    {
      this.count := count;
      orig := new Option<Value>[count](_ => None);
      curr := new Option<Value>[count](_ => None);
      origIndex, currIndex := 0, 0;
    }

    function View(): (v: PairView)
      requires Valid()
      reads orig, curr
    {
      PairView(orig[..], curr[..])
    }

    /** `getOrig`: the value before allocation at the index, null while not yet copied. */
    function GetOrig(index: nat): (r: Option<Value>)
      requires Valid() && index < count
      reads orig, curr
      ensures r == View().orig[index]
    {
      orig[index]
    }

    /** `getCurrent`: the location after allocation at the index, null while not yet copied. */
    function GetCurrent(index: nat): (r: Option<Value>)
      requires Valid() && index < count
      reads orig, curr
      ensures r == View().curr[index]
    {
      curr[index]
    }

    /** `addOrig`: stores a value at the index and nowhere else. */
    method AddOrig(index: nat, value: Value)
      requires Valid() && index < count
      modifies orig
      ensures orig[..] == old(orig[..])[index := Some(value)]
      ensures GetOrig(index) == Some(value)
    {
      orig[index] := Some(value);
    }

    /** `addCurrent`: stores a location at the index and nowhere else. */
    method AddCurrent(index: nat, value: Value)
      requires Valid() && index < count
      modifies curr
      ensures curr[..] == old(curr[..])[index := Some(value)]
      ensures GetCurrent(index) == Some(value)
    {
      curr[index] := Some(value);
    }

    /** `copyOriginalProc.doValue`: the k-th visited value goes to `orig[k]` and is handed back. */
    method CopyOriginal(value: Value) returns (r: Value)
      requires Valid() && origIndex < count
      modifies this, orig
      ensures r == value && origIndex == old(origIndex) + 1 && currIndex == old(currIndex)
      ensures orig[..] == old(orig[..])[old(origIndex) := Some(value)]
    {
      AddOrig(origIndex, value);
      origIndex := origIndex + 1;
      r := value;
    }

    /** `copyCurrentProc.doValue`: the k-th visited location goes to `curr[k]` and is handed back. */
    method CopyCurrent(value: Value) returns (r: Value)
      requires Valid() && currIndex < count
      modifies this, curr
      ensures r == value && currIndex == old(currIndex) + 1 && origIndex == old(origIndex)
      ensures curr[..] == old(curr[..])[old(currIndex) := Some(value)]
    {
      AddCurrent(currIndex, value);
      currIndex := currIndex + 1;
      r := value;
    }

    /** A whole traversal with `copyOriginalProc`: the visited values fill `orig` from `origIndex` on. */
    method FillOriginal(values: seq<Value>)
      requires Valid() && origIndex + |values| <= count
      modifies this, orig
      ensures origIndex == old(origIndex) + |values| && currIndex == old(currIndex)
      ensures forall k :: 0 <= k < count ==>
        orig[k] == if old(origIndex) <= k < old(origIndex) + |values|
                   then Some(values[k - old(origIndex)]) else old(orig[k])
    {
      var i := 0;
      while i < |values|
        invariant 0 <= i <= |values|
        invariant origIndex == old(origIndex) + i && currIndex == old(currIndex)
        invariant forall k :: 0 <= k < count ==>
          orig[k] == if old(origIndex) <= k < old(origIndex) + i
                     then Some(values[k - old(origIndex)]) else old(orig[k])
      {
        var _ := CopyOriginal(values[i]);
        i := i + 1;
      }
    }

    /** A whole traversal with `copyCurrentProc`: the visited locations fill `curr` from `currIndex` on. */
    method FillCurrent(values: seq<Value>)
      requires Valid() && currIndex + |values| <= count
      modifies this, curr
      ensures currIndex == old(currIndex) + |values| && origIndex == old(origIndex)
      ensures forall k :: 0 <= k < count ==>
        curr[k] == if old(currIndex) <= k < old(currIndex) + |values|
                   then Some(values[k - old(currIndex)]) else old(curr[k])
    {
      var i := 0;
      while i < |values|
        invariant 0 <= i <= |values|
        invariant currIndex == old(currIndex) + i && origIndex == old(origIndex)
        invariant forall k :: 0 <= k < count ==>
          curr[k] == if old(currIndex) <= k < old(currIndex) + i
                     then Some(values[k - old(currIndex)]) else old(curr[k])
      {
        var _ := CopyCurrent(values[i]);
        i := i + 1;
      }
    }

    /** No slot of either array is null. */
    predicate Filled()
      requires Valid()
      reads orig, curr
    {
      forall i :: 0 <= i < count ==> curr[i].Some? && orig[i].Some?
    }

    /** `verifyContents`: no slot of either array is still null. */
    method VerifyContents() returns (ok: bool)
      requires Valid()
      ensures ok <==> forall i :: 0 <= i < count ==> curr[i].Some? && orig[i].Some?
      ensures ok <==> Filled()
    {
      var i := 0;
      while i < curr.Length
        invariant 0 <= i <= curr.Length
        invariant forall k :: 0 <= k < i ==> curr[k].Some? && orig[k].Some?
      {
        if curr[i].None? || orig[i].None? {
          return false;
        }
        i := i + 1;
      }
      return true;
    }
  }

  /** Op: a general instruction with its four operand groups. */
  class Op {
    const uses: ValueArrayPair
    const dests: ValueArrayPair
    const temp: ValueArrayPair
    const alive: ValueArrayPair

    predicate Valid() {
      uses.Valid() && dests.Valid() && temp.Valid() && alive.Valid()
    }

    /** The arrays of the values before allocation. */
    function OrigArrays(): set<array<Option<Value>>> {
      {uses.orig, dests.orig, temp.orig, alive.orig}
    }

    /** The arrays of the locations after allocation. */
    function CurrArrays(): set<array<Option<Value>>> {
      {uses.curr, dests.curr, temp.curr, alive.curr}
    }

    /** The eight arrays of the four groups. */
    function Arrays(): set<array<Option<Value>>> {
      OrigArrays() + CurrArrays()
    }

    /**
     * Sizes each group by counting its traversal (inputs, outputs, temps, alives)
     * with one counting procedure that every `getCount` resets.
     */
    constructor (inputs: seq<Value>, outputs: seq<Value>, temps: seq<Value>, alives: seq<Value>)
      ensures Valid()
      ensures uses.count == |inputs| && dests.count == |outputs|
      ensures temp.count == |temps| && alive.count == |alives|
      ensures fresh(uses) && fresh(dests) && fresh(temp) && fresh(alive)
      ensures fresh(uses.orig) && fresh(uses.curr) && fresh(dests.orig) && fresh(dests.curr)
      ensures fresh(temp.orig) && fresh(temp.curr) && fresh(alive.orig) && fresh(alive.curr)
      ensures uses.origIndex == 0 && uses.currIndex == 0 && dests.origIndex == 0 && dests.currIndex == 0
      ensures temp.origIndex == 0 && temp.currIndex == 0 && alive.origIndex == 0 && alive.currIndex == 0
      ensures forall i :: 0 <= i < uses.count ==> uses.orig[i] == None && uses.curr[i] == None
      ensures forall i :: 0 <= i < dests.count ==> dests.orig[i] == None && dests.curr[i] == None
      ensures forall i :: 0 <= i < temp.count ==> temp.orig[i] == None && temp.curr[i] == None
      ensures forall i :: 0 <= i < alive.count ==> alive.orig[i] == None && alive.curr[i] == None
    {
      var proc := new CountProcedure();
      proc.Visit(inputs);
      var n := proc.GetCount();
      uses := new ValueArrayPair(n);
      proc.Visit(outputs);
      n := proc.GetCount();
      dests := new ValueArrayPair(n);
      proc.Visit(temps);
      n := proc.GetCount();
      temp := new ValueArrayPair(n);
      proc.Visit(alives);
      n := proc.GetCount();
      alive := new ValueArrayPair(n);
    }

    /** `verifyContents`: all four groups are completely filled. */
    method VerifyContents() returns (ok: bool)
      requires Valid()
      ensures ok <==> uses.Filled() && dests.Filled() && temp.Filled() && alive.Filled()
    {
      ok := uses.VerifyContents();
      if ok { ok := dests.VerifyContents(); }
      if ok { ok := temp.VerifyContents(); }
      if ok { ok := alive.VerifyContents(); }
    }

    /**
     * `hasMissingDefinitions`: this is a label whose phi results are not yet
     * placed, as its first definition is a variable without a location.
     */
    predicate HasMissingDefinitions()
      requires Valid()
      reads dests.orig, dests.curr
      ensures HasMissingDefinitions() ==> !dests.Filled()
    {
      dests.count > 0 && dests.orig[0].Some? && dests.orig[0].value.Variable? && dests.curr[0].None?
    }
  }

  /**
   * The kind of an abstracted instruction. Registers, stack slots and variables
   * of the move kinds are given by number.
   */
  datatype Kind =
    | OpKind(op: Op)
    | MoveKind(from: nat, to: nat)             // register to register
    | SpillKind(from: nat, to: nat)            // register to stack slot
    | ReloadKind(from: nat, to: nat)           // stack slot to register
    | VirtualMoveKind(to: nat, from: nat)      // variable `to` now lives in register `from`

  /** What an abstracted instruction holds at one moment. */
  datatype InstrView =
    | OpView(uses: PairView, dests: PairView, temp: PairView, alive: PairView)
    | MoveView(from: nat, to: nat)
    | SpillView(from: nat, to: nat)
    | ReloadView(from: nat, to: nat)
    | VirtualMoveView(to: nat, from: nat)

  /** Base: the envelope of every abstracted instruction, with its side-list of virtual moves. */
  class Base {
    const kind: Kind
    var virtualMoves: seq<Base>

    constructor (kind: Kind)
      ensures this.kind == kind && virtualMoves == []
    {
      this.kind := kind;
      virtualMoves := [];
    }

    predicate Valid() {
      kind.OpKind? ==> kind.op.Valid()
    }

    function Arrays(): set<array<Option<Value>>> {
      if kind.OpKind? then kind.op.Arrays() else {}
    }

    /** `addVirtualMove`: appends to the side-list, after everything added before. */
    method AddVirtualMove(virtualMove: Base)
      requires virtualMove.kind.VirtualMoveKind?
      modifies this
      ensures virtualMoves == old(virtualMoves) + [virtualMove]
    {
      virtualMoves := virtualMoves + [virtualMove];
    }

    function View(): (v: InstrView)
      requires Valid()
      reads Arrays()
      ensures v.OpView? <==> kind.OpKind?
      ensures v.OpView? ==> v.uses.Valid() && v.dests.Valid() && v.temp.Valid() && v.alive.Valid()
    {
      match kind
      case OpKind(op) => OpView(op.uses.View(), op.dests.View(), op.temp.View(), op.alive.View())
      case MoveKind(from, to) => MoveView(from, to)
      case SpillKind(from, to) => SpillView(from, to)
      case ReloadKind(from, to) => ReloadView(from, to)
      case VirtualMoveKind(to, from) => VirtualMoveView(to, from)
    }
  }
}
