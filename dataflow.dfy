/**
 * The control-flow facts the driver works with, as values: blocks and their
 * edges, what it means for a block's entry state to have absorbed the exit
 * state of a predecessor (the fixed point the worklist reaches), and the
 * location intersection that resolves the results of a phi.
 */
module Dataflow {
  import opened Values
  import opened AllocationStates
  import opened StateMaps
  import opened Instructions
  import opened Semantics

  /** A basic block of the control-flow graph: the indices of its predecessors and successors. */
  datatype Block = Block(predecessors: seq<nat>, successors: seq<nat>)

  /** Every edge of the graph leads to a block of the graph. */
  predicate EdgesInRange(blocks: seq<Block>) {
    forall b :: 0 <= b < |blocks| ==>
      (forall k :: 0 <= k < |blocks[b].predecessors| ==> blocks[b].predecessors[k] < |blocks|) &&
      (forall k :: 0 <= k < |blocks[b].successors| ==> blocks[b].successors[k] < |blocks|)
  }

  // ---------------------------------------------------------------- the fixed point

  /** The machine state with no location known, which a block without an entry state starts from. */
  const Empty := MachineState(map[], map[])

  /** A block's entry state, or the empty state when it has none. */
  function EntryOf(entries: map<nat, MachineState>, b: nat): (r: MachineState)
    ensures b !in entries ==> r == Empty
  {
    if b in entries then entries[b] else Empty
  }

  /** Meeting the exit state into the entry state would report no change in either map. */
  predicate Absorbs(entry: MachineState, exit: MachineState) {
    !MergeChanged(entry.registers, exit.registers) && !MergeChanged(entry.spillSlots, exit.spillSlots)
  }

  /** `meetWith` on values: both maps merged point-wise. */
  function MergeInto(entry: MachineState, exit: MachineState): (r: MachineState)
    ensures Absorbs(r, exit)
    ensures r.registers.Keys == entry.registers.Keys + exit.registers.Keys
    ensures r.spillSlots.Keys == entry.spillSlots.Keys + exit.spillSlots.Keys
  {
    MergeSettles(entry.registers, exit.registers);
    MergeSettles(entry.spillSlots, exit.spillSlots);
    MachineState(MergedMap(entry.registers, exit.registers), MergedMap(entry.spillSlots, exit.spillSlots))
  }

  /** An entry state that has absorbed an exit state still does after any further merge. */
  lemma MergeKeepsAbsorbing(entry: MachineState, exit: MachineState, other: MachineState)
    requires Absorbs(entry, exit)
    ensures Absorbs(MergeInto(entry, other), exit)
  {
    MergeKeepsSettled(entry.registers, exit.registers, other.registers);
    MergeKeepsSettled(entry.spillSlots, exit.spillSlots, other.spillSlots);
  }

  /** The empty state absorbs exactly the empty exit state. */
  lemma EmptyAbsorbsIff(exit: MachineState)
    ensures Absorbs(Empty, exit) <==> exit == Empty
  {
    if exit != Empty {
      if exit.registers != map[] {
        var k :| k in exit.registers;
        assert MergeChanged(map[], exit.registers);
      } else {
        var k :| k in exit.spillSlots;
        assert MergeChanged(map[], exit.spillSlots);
      }
    }
  }

  /** The edge from block `b` to its `k`-th successor carries nothing the successor's entry lacks. */
  predicate EdgeSettled(blocks: seq<Block>, entries: map<nat, MachineState>, exits: map<nat, MachineState>, b: nat, k: nat)
    requires b < |blocks| && b in exits && k < |blocks[b].successors|
  {
    Absorbs(EntryOf(entries, blocks[b].successors[k]), exits[b])
  }

  /**
   * The worklist's fixed point: for every block with an exit state, every
   * successor's entry state absorbs it, so propagating any exit again would
   * change nothing.
   */
  predicate Settled(blocks: seq<Block>, entries: map<nat, MachineState>, exits: map<nat, MachineState>) {
    forall b, k :: 0 <= b < |blocks| && b in exits && 0 <= k < |blocks[b].successors| ==>
      EdgeSettled(blocks, entries, exits, b, k)
  }

  /**
   * At the fixed point each successor of a block whose exit state knows some
   * location has an entry state, and there every location of the exit state is
   * present and holds the same Value, is Conflicted, or was Unknown at the exit.
   */
  lemma SettledMeaning(blocks: seq<Block>, entries: map<nat, MachineState>, exits: map<nat, MachineState>, b: nat, k: nat)
    requires Settled(blocks, entries, exits)
    requires b < |blocks| && b in exits && k < |blocks[b].successors|
    ensures exits[b] != Empty ==> blocks[b].successors[k] in entries
    ensures var entry := EntryOf(entries, blocks[b].successors[k]);
      forall l :: l in exits[b].registers ==>
        l in entry.registers &&
        (exits[b].registers[l].Unknown? || entry.registers[l].Conflicted? || entry.registers[l] == exits[b].registers[l])
    ensures var entry := EntryOf(entries, blocks[b].successors[k]);
      forall l :: l in exits[b].spillSlots ==>
        l in entry.spillSlots &&
        (exits[b].spillSlots[l].Unknown? || entry.spillSlots[l].Conflicted? || entry.spillSlots[l] == exits[b].spillSlots[l])
  {
    var entry := EntryOf(entries, blocks[b].successors[k]);
    assert EdgeSettled(blocks, entries, exits, b, k);
    EmptyAbsorbsIff(exits[b]);
    UnchangedIff(entry.registers, exits[b].registers);
    UnchangedIff(entry.spillSlots, exits[b].spillSlots);
  }

  /** Every edge is settled except those from block `b` to its successors at position `n` and beyond. */
  predicate SettledBefore(blocks: seq<Block>, entries: map<nat, MachineState>, exits: map<nat, MachineState>, b: nat, n: nat) {
    forall c, k :: 0 <= c < |blocks| && c in exits && 0 <= k < |blocks[c].successors| && (c != b || k < n) ==>
      EdgeSettled(blocks, entries, exits, c, k)
  }

  /**
   * One edge of the propagation: the successor's entry state, or a fresh empty
   * one when it has none, meets the exit state. An existing entry state is
   * changed in place whatever the merge reports; a fresh one is stored only
   * when the merge reports a change.
   */
  function MeetSuccessor(entries: map<nat, MachineState>, s: nat, exit: MachineState): (r: map<nat, MachineState>) {
    if s in entries || !Absorbs(Empty, exit) then entries[s := MergeInto(EntryOf(entries, s), exit)]
    else entries
  }

  /** What propagating an exit state along some edges leaves: the entry states, and the successors to revisit. */
  datatype Propagated = Propagated(entries: map<nat, MachineState>, changed: seq<nat>)

  /**
   * The exit state met into each successor in order; a successor joins the
   * worklist when its merge reports a change.
   */
  function Propagate(entries: map<nat, MachineState>, exit: MachineState, successors: seq<nat>): (r: Propagated) {
    if successors == [] then Propagated(entries, [])
    else
      var before := Propagate(entries, exit, successors[..|successors| - 1]);
      var s := successors[|successors| - 1];
      Propagated(MeetSuccessor(before.entries, s, exit),
                 if Absorbs(EntryOf(before.entries, s), exit) then before.changed else before.changed + [s])
  }

  /** A new exit state for block `b` unsettles only the edges leaving `b`. */
  lemma SettledReplacing(blocks: seq<Block>, entries: map<nat, MachineState>, exits: map<nat, MachineState>, b: nat, exit: MachineState)
    requires Settled(blocks, entries, exits)
    ensures SettledBefore(blocks, entries, exits[b := exit], b, 0)
  {
    var after := exits[b := exit];
    forall c, k | 0 <= c < |blocks| && c in after && 0 <= k < |blocks[c].successors| && c != b
      ensures EdgeSettled(blocks, entries, after, c, k)
    {
      assert EdgeSettled(blocks, entries, exits, c, k);
    }
  }

  /** Meeting the exit of block `b` into its `n`-th successor settles that edge and unsettles none. */
  lemma MeetSuccessorSettles(blocks: seq<Block>, entries: map<nat, MachineState>, exits: map<nat, MachineState>, b: nat, n: nat)
    requires b < |blocks| && b in exits && n < |blocks[b].successors|
    requires SettledBefore(blocks, entries, exits, b, n)
    ensures SettledBefore(blocks, MeetSuccessor(entries, blocks[b].successors[n], exits[b]), exits, b, n + 1)
  {
    var s := blocks[b].successors[n];
    var after := MeetSuccessor(entries, s, exits[b]);
    forall c, k | 0 <= c < |blocks| && c in exits && 0 <= k < |blocks[c].successors| && (c != b || k < n + 1)
      ensures EdgeSettled(blocks, after, exits, c, k)
    {
      var t := blocks[c].successors[k];
      if c == b && k == n {
        if s !in entries && Absorbs(Empty, exits[b]) {
          assert EntryOf(after, s) == Empty;
        }
      } else if t == s {
        assert EdgeSettled(blocks, entries, exits, c, k);
        if s in entries || !Absorbs(Empty, exits[b]) {
          MergeKeepsAbsorbing(EntryOf(entries, s), exits[c], exits[b]);
        }
      } else {
        assert EdgeSettled(blocks, entries, exits, c, k);
        assert EntryOf(after, t) == EntryOf(entries, t);
      }
    }
  }

  /** Propagating the exit of block `b` along its first `n` edges settles them and unsettles none. */
  lemma {:induction false} PropagateSettles(blocks: seq<Block>, entries: map<nat, MachineState>, exits: map<nat, MachineState>, b: nat, n: nat)
    requires b < |blocks| && b in exits && n <= |blocks[b].successors|
    requires SettledBefore(blocks, entries, exits, b, 0)
    ensures SettledBefore(blocks, Propagate(entries, exits[b], blocks[b].successors[..n]).entries, exits, b, n)
    ensures n == |blocks[b].successors| ==> Settled(blocks, Propagate(entries, exits[b], blocks[b].successors).entries, exits)
  {
    var succs := blocks[b].successors;
    assert succs[..|succs|] == succs;
    if n == 0 {
      assert succs[..0] == [];
    } else {
      PropagateSettles(blocks, entries, exits, b, n - 1);
      assert succs[..n][..n - 1] == succs[..n - 1];
      MeetSuccessorSettles(blocks, Propagate(entries, exits[b], succs[..n - 1]).entries, exits, b, n - 1);
    }
  }

  /**
   * Propagation keeps every entry state it finds, and a block gains an entry
   * state only as a successor that joined the worklist.
   */
  lemma {:induction false} PropagateReaches(entries: map<nat, MachineState>, exit: MachineState, successors: seq<nat>)
    ensures entries.Keys <= Propagate(entries, exit, successors).entries.Keys
    ensures forall c :: c in Propagate(entries, exit, successors).entries ==>
      c in entries || c in Propagate(entries, exit, successors).changed
    ensures forall j :: 0 <= j < |Propagate(entries, exit, successors).changed| ==>
      Propagate(entries, exit, successors).changed[j] in successors
  {
    if successors != [] {
      var init := successors[..|successors| - 1];
      PropagateReaches(entries, exit, init);
      var before := Propagate(entries, exit, init);
      var s := successors[|successors| - 1];
      if s !in before.entries && !Absorbs(Empty, exit) {
        assert !Absorbs(EntryOf(before.entries, s), exit);
      }
      assert forall j :: 0 <= j < |before.changed| ==> before.changed[j] in init;
    }
  }

  // ---------------------------------------------------------------- where entry states come from

  /** Block `p` has an edge to block `s`. */
  predicate Feeds(blocks: seq<Block>, p: nat, s: nat) {
    p < |blocks| && s in blocks[p].successors
  }

  /** The map knows the location and, where `st` is a Value, holds that same Value there. */
  predicate Witnesses(m: StateMap, loc: Value, st: AllocationState) {
    loc in m && (st.ValueState? ==> m[loc] == st)
  }

  /** Some block with an edge to `s` has an exit state that witnesses `st` at `loc`. */
  ghost predicate Offered(blocks: seq<Block>, exits: map<nat, MachineState>, s: nat, spill: bool, loc: Value, st: AllocationState) {
    exists p :: p in exits && Feeds(blocks, p, s) && Witnesses(Part(exits[p], spill), loc, st)
  }

  /** Every location an entry state knows in one of its maps is offered by the exit state of a block with an edge to it. */
  ghost predicate BoundedPart(blocks: seq<Block>, entries: map<nat, MachineState>, exits: map<nat, MachineState>, spill: bool) {
    forall s, loc :: s in entries && loc in Part(entries[s], spill) ==>
      Offered(blocks, exits, s, spill, loc, Part(entries[s], spill)[loc])
  }

  /**
   * The upper bound of the fixed point: an entry state knows only locations that
   * some block with an edge to it knows at its exit, and holds a Value only
   * where such an exit state holds that Value; everything else is Conflicted.
   */
  ghost predicate Bounded(blocks: seq<Block>, entries: map<nat, MachineState>, exits: map<nat, MachineState>) {
    BoundedPart(blocks, entries, exits, false) && BoundedPart(blocks, entries, exits, true)
  }

  /** The new exit state knows the location, and not as Unknown where the entry holds a Value. */
  predicate Pending(exit: MachineState, spill: bool, loc: Value, st: AllocationState) {
    loc in Part(exit, spill) && (st.ValueState? ==> !Part(exit, spill)[loc].Unknown?)
  }

  /** Bounded, except at the successors still waiting for the new exit state, where it is pending. */
  ghost predicate BoundedPending(blocks: seq<Block>, entries: map<nat, MachineState>, exits: map<nat, MachineState>,
                                 spill: bool, exit: MachineState, rest: seq<nat>) {
    forall s, loc :: s in entries && loc in Part(entries[s], spill) ==>
      Offered(blocks, exits, s, spill, loc, Part(entries[s], spill)[loc]) ||
      (s in rest && Pending(exit, spill, loc, Part(entries[s], spill)[loc]))
  }

  /** Replacing the exit state of `b` by a grown one leaves every entry state bounded or pending at a successor of `b`. */
  lemma BoundedPendingStart(blocks: seq<Block>, entries: map<nat, MachineState>, exits: map<nat, MachineState>,
                            b: nat, exit: MachineState, spill: bool)
    requires BoundedPart(blocks, entries, exits, spill) && b < |blocks|
    requires b in exits ==> Grows(exits[b], exit)
    ensures BoundedPending(blocks, entries, exits[b := exit], spill, exit, blocks[b].successors)
  {
    var after := exits[b := exit];
    forall s, loc | s in entries && loc in Part(entries[s], spill)
      ensures Offered(blocks, after, s, spill, loc, Part(entries[s], spill)[loc]) ||
              (s in blocks[b].successors && Pending(exit, spill, loc, Part(entries[s], spill)[loc]))
    {
      var st := Part(entries[s], spill)[loc];
      var p :| p in exits && Feeds(blocks, p, s) && Witnesses(Part(exits[p], spill), loc, st);
      if p != b {
        assert after[p] == exits[p];
      }
    }
  }

  /** A Value that a meet produces is the argument, or the receiver kept against Unknown or an equal Value. */
  lemma MeetValue(a: AllocationState, c: AllocationState)
    requires Meet(a, c).ValueState?
    ensures Meet(a, c) == c || (Meet(a, c) == a && (c.Unknown? || c == a))
  {
  }

  /** Meeting the new exit state into the `n`-th successor of `b` bounds that successor's entry state. */
  lemma BoundedPendingStep(blocks: seq<Block>, entries: map<nat, MachineState>, exits: map<nat, MachineState>,
                           b: nat, spill: bool, n: nat)
    requires b < |blocks| && b in exits && n < |blocks[b].successors|
    requires BoundedPending(blocks, entries, exits, spill, exits[b], blocks[b].successors[n..])
    ensures BoundedPending(blocks, MeetSuccessor(entries, blocks[b].successors[n], exits[b]), exits,
                           spill, exits[b], blocks[b].successors[n + 1..])
  {
    var succs := blocks[b].successors;
    var s := succs[n];
    var exit := exits[b];
    var after := MeetSuccessor(entries, s, exit);
    assert succs[n..] == [s] + succs[n + 1..];
    forall t, loc | t in after && loc in Part(after[t], spill)
      ensures Offered(blocks, exits, t, spill, loc, Part(after[t], spill)[loc]) ||
              (t in succs[n + 1..] && Pending(exit, spill, loc, Part(after[t], spill)[loc]))
    {
      if t != s || after == entries {
        assert after[t] == entries[t];
      } else {
        var m := Part(EntryOf(entries, s), spill);
        var x := Part(exit, spill);
        assert Part(after[t], spill) == MergedMap(m, x);
        var st := MergedMap(m, x)[loc];
        assert Feeds(blocks, b, s);
        if loc in x {
          if st.ValueState? {
            MeetValue(Get(m, loc), x[loc]);
            if st != x[loc] {
              assert loc in m && m[loc] == st;
              if !x[loc].Unknown? {
                assert Witnesses(x, loc, st);
              }
            }
          } else {
            assert Witnesses(x, loc, st);
          }
        } else {
          assert loc in m && st == m[loc];
        }
      }
    }
  }

  /** Meeting the new exit state into the first `n` successors of `b` leaves only the others pending. */
  lemma {:induction false} BoundedPendingPrefix(blocks: seq<Block>, entries: map<nat, MachineState>, exits: map<nat, MachineState>,
                                                b: nat, spill: bool, n: nat)
    requires b < |blocks| && b in exits && n <= |blocks[b].successors|
    requires BoundedPending(blocks, entries, exits, spill, exits[b], blocks[b].successors)
    ensures BoundedPending(blocks, Propagate(entries, exits[b], blocks[b].successors[..n]).entries, exits,
                           spill, exits[b], blocks[b].successors[n..])
  {
    var succs := blocks[b].successors;
    if n == 0 {
      assert succs[..0] == [] && succs[0..] == succs;
    } else {
      BoundedPendingPrefix(blocks, entries, exits, b, spill, n - 1);
      assert succs[..n][..n - 1] == succs[..n - 1];
      BoundedPendingStep(blocks, Propagate(entries, exits[b], succs[..n - 1]).entries, exits, b, spill, n - 1);
    }
  }

  /**
   * Storing a grown exit state for block `b` and meeting it into every
   * successor keeps every entry state bounded by the exit states.
   */
  lemma StoreBounded(blocks: seq<Block>, entries: map<nat, MachineState>, exits: map<nat, MachineState>, b: nat, exit: MachineState)
    requires Bounded(blocks, entries, exits) && b < |blocks|
    requires b in exits ==> Grows(exits[b], exit)
    ensures Bounded(blocks, Propagate(entries, exit, blocks[b].successors).entries, exits[b := exit])
  {
    var succs := blocks[b].successors;
    var after := exits[b := exit];
    assert succs[..|succs|] == succs;
    assert succs[|succs|..] == [];
    BoundedPendingStart(blocks, entries, exits, b, exit, false);
    BoundedPendingPrefix(blocks, entries, after, b, false, |succs|);
    BoundedPendingStart(blocks, entries, exits, b, exit, true);
    BoundedPendingPrefix(blocks, entries, after, b, true, |succs|);
  }

  /** Meeting an exit state into an entry state only grows it. */
  lemma MergeGrows(entry: MachineState, exit: MachineState)
    ensures Grows(entry, MergeInto(entry, exit))
  {
  }

  /** Meeting exit states into entry states only grows them. */
  lemma {:induction false} PropagateGrows(entries: map<nat, MachineState>, exit: MachineState, successors: seq<nat>, s: nat)
    ensures Grows(EntryOf(entries, s), EntryOf(Propagate(entries, exit, successors).entries, s))
  {
    if successors == [] {
      GrowthIsOrder(EntryOf(entries, s), EntryOf(entries, s), EntryOf(entries, s), [], [], []);
    } else {
      var init := successors[..|successors| - 1];
      PropagateGrows(entries, exit, init, s);
      var prev := Propagate(entries, exit, init).entries;
      var t := successors[|successors| - 1];
      var before := EntryOf(prev, s);
      var after := EntryOf(MeetSuccessor(prev, t, exit), s);
      assert Propagate(entries, exit, successors).entries == MeetSuccessor(prev, t, exit);
      if t == s && (t in prev || !Absorbs(Empty, exit)) {
        assert after == MergeInto(before, exit);
        MergeGrows(before, exit);
      } else {
        assert after == before;
        GrowthIsOrder(before, before, before, [], [], []);
      }
      GrowthIsOrder(EntryOf(entries, s), before, after, [], [], []);
    }
  }

  /**
   * How the worklist came by its exit states: each processed block's exit state
   * is the transfer of an entry state the block had, through the instructions
   * as they then read (`entryUsed`, `viewsUsed`), and that entry state has only
   * grown since.
   */
  ghost predicate Traced(entries: map<nat, MachineState>, exits: map<nat, MachineState>,
                         entryUsed: map<nat, MachineState>, viewsUsed: map<nat, seq<InstrView>>) {
    forall c :: c in exits ==>
      c in entryUsed && c in viewsUsed && AllUpdatable(viewsUsed[c]) &&
      Transfer(entryUsed[c], viewsUsed[c]) == Ok(exits[c]) && Grows(entryUsed[c], EntryOf(entries, c))
  }

  /** The instructions each processed block was transferred through have since only gained locations. */
  ghost predicate ViewsFollow(exits: map<nat, MachineState>, viewsUsed: map<nat, seq<InstrView>>, code: seq<seq<InstrView>>) {
    forall c :: c in exits ==> c in viewsUsed && c < |code| && ViewsExtend(viewsUsed[c], code[c])
  }

  /**
   * Processing block `b` (its exit state the transfer of its current entry
   * state, stored and met into every successor) keeps every exit state traced.
   */
  lemma TracedStep(blocks: seq<Block>, entries: map<nat, MachineState>, exits: map<nat, MachineState>,
                   entryUsed: map<nat, MachineState>, viewsUsed: map<nat, seq<InstrView>>,
                   b: nat, views: seq<InstrView>, exit: MachineState)
    requires Traced(entries, exits, entryUsed, viewsUsed) && b < |blocks|
    requires AllUpdatable(views) && Transfer(EntryOf(entries, b), views) == Ok(exit)
    ensures Traced(Propagate(entries, exit, blocks[b].successors).entries, exits[b := exit],
                   entryUsed[b := EntryOf(entries, b)], viewsUsed[b := views])
  {
    var after := Propagate(entries, exit, blocks[b].successors).entries;
    forall c | c in exits[b := exit]
      ensures Grows(entryUsed[b := EntryOf(entries, b)][c], EntryOf(after, c))
    {
      PropagateGrows(entries, exit, blocks[b].successors, c);
      if c != b {
        GrowthIsOrder(entryUsed[c], EntryOf(entries, c), EntryOf(after, c), [], [], []);
      }
    }
  }

  /** The instructions only gaining locations keeps the record of what each block was transferred through following them. */
  lemma FollowStep(exits: map<nat, MachineState>, viewsUsed: map<nat, seq<InstrView>>,
                   before: seq<seq<InstrView>>, after: seq<seq<InstrView>>, b: nat, exit: MachineState)
    requires ViewsFollow(exits, viewsUsed, before)
    requires |after| == |before| && forall c :: 0 <= c < |before| ==> ViewsExtend(before[c], after[c])
    requires b < |after| && AllUpdatable(after[b])
    ensures ViewsFollow(exits[b := exit], viewsUsed[b := after[b]], after)
  {
    GrowthIsOrder(Empty, Empty, Empty, after[b], after[b], after[b]);
    forall c | c in exits && c != b ensures ViewsExtend(viewsUsed[c], after[c]) {
      GrowthIsOrder(Empty, Empty, Empty, viewsUsed[c], before[c], after[c]);
    }
  }

  /**
   * When the instructions only gain locations, processing block `b` grows its
   * exit state and so keeps every entry state bounded by the exit states.
   */
  lemma BoundedStep(blocks: seq<Block>, entries: map<nat, MachineState>, exits: map<nat, MachineState>,
                    entryUsed: map<nat, MachineState>, viewsUsed: map<nat, seq<InstrView>>,
                    before: seq<seq<InstrView>>, after: seq<seq<InstrView>>, b: nat, exit: MachineState)
    requires Bounded(blocks, entries, exits) && Traced(entries, exits, entryUsed, viewsUsed)
    requires ViewsFollow(exits, viewsUsed, before)
    requires |after| == |before| && forall c :: 0 <= c < |before| ==> ViewsExtend(before[c], after[c])
    requires b < |blocks| && b < |after| && AllUpdatable(after[b])
    requires Transfer(EntryOf(entries, b), after[b]) == Ok(exit)
    ensures Bounded(blocks, Propagate(entries, exit, blocks[b].successors).entries, exits[b := exit])
  {
    if b in exits {
      GrowthIsOrder(Empty, Empty, Empty, viewsUsed[b], before[b], after[b]);
      TransferGrows(entryUsed[b], EntryOf(entries, b), viewsUsed[b], after[b]);
    }
    StoreBounded(blocks, entries, exits, b, exit);
  }

  // ---------------------------------------------------------------- phi resolution

  /**
   * The locations in a predecessor's exit registers that hold the value the
   * jump passes to the phi: a null slot finds none, a slot that is not a
   * variable fails the cast.
   */
  function IncomingLocations(registers: StateMap, input: Option<Value>): (r: Result<set<Value>>)
    ensures r.Ok? <==> input.None? || input.value.Variable?
    ensures r.Ok? && input.Some? ==> forall l :: l in r.value <==> l in registers && registers[l] == ValueState(input.value)
    ensures input.None? ==> r == Ok({})
  {
    match input
    case None => Ok({})
    case Some(v) => if v.Variable? then Ok(LocationsOf(registers, v.id)) else Err(MalformedInstruction)
  }

  /** The sets of all predecessors intersected in order; the first failing one ends the computation. */
  function Intersect(incoming: seq<Result<set<Value>>>): (r: Result<set<Value>>)
    requires |incoming| > 0
  {
    if |incoming| == 1 then incoming[0]
    else
      var n := |incoming| - 1;
      match Intersect(incoming[..n])
      case Err(e) => Err(e)
      case Ok(s) =>
        match incoming[n]
        case Err(e) => Err(e)
        case Ok(t) => Ok(s * t)
  }

  /**
   * The intersection succeeds exactly when every predecessor's set does, and
   * then holds exactly the locations common to all of them.
   */
  lemma {:induction false} IntersectIff(incoming: seq<Result<set<Value>>>)
    requires |incoming| > 0
    ensures Intersect(incoming).Ok? <==> forall j :: 0 <= j < |incoming| ==> incoming[j].Ok?
    ensures Intersect(incoming).Ok? ==>
      forall l :: l in Intersect(incoming).value <==> forall j :: 0 <= j < |incoming| ==> l in incoming[j].value
  {
    if |incoming| > 1 {
      var n := |incoming| - 1;
      IntersectIff(incoming[..n]);
      assert forall j :: 0 <= j < n ==> incoming[..n][j] == incoming[j];
    }
  }

  /** Once the intersection of the first predecessors fails, the whole intersection fails the same way. */
  lemma {:induction false} IntersectErrorPersists(incoming: seq<Result<set<Value>>>, n: nat)
    requires 0 < n <= |incoming|
    requires Intersect(incoming[..n]).Err?
    ensures Intersect(incoming) == Intersect(incoming[..n])
  {
    if n < |incoming| {
      var m := |incoming| - 1;
      assert incoming[..n] == incoming[..m][..n];
      IntersectErrorPersists(incoming[..m], n);
    } else {
      assert incoming[..n] == incoming;
    }
  }

  /**
   * `fillMissingVariableLocationsForPhi` for one result: the locations the
   * predecessors agree on, which must be exactly one; a block without
   * predecessors has no set at all.
   */
  function PhiLocations(incoming: seq<Result<set<Value>>>): (r: Result<set<Value>>) {
    if |incoming| == 0 then Err(NoPredecessors)
    else
      match Intersect(incoming)
      case Err(e) => Err(e)
      case Ok(s) => if |s| != 1 then Err(PhiLocationNotUnique) else Ok(s)
  }

  /** The location a phi result resolves to: the one element of the agreed set. */
  ghost function PhiLocation(incoming: seq<Result<set<Value>>>): (r: Result<Value>) {
    match PhiLocations(incoming)
    case Err(e) => Err(e)
    case Ok(s) => var l :| l in s; Ok(l)
  }

  /**
   * A phi result has a location exactly when there are predecessors, each
   * offers a set, and exactly one location is common to all of them; that
   * location is then the result. Otherwise the error is the missing
   * predecessors, the error of a predecessor, or a location that is not unique.
   */
  lemma PhiLocationIff(incoming: seq<Result<set<Value>>>)
    ensures |incoming| == 0 ==> PhiLocation(incoming) == Err(NoPredecessors)
    ensures PhiLocation(incoming).Ok? <==>
      |incoming| > 0 && (forall j :: 0 <= j < |incoming| ==> incoming[j].Ok?) &&
      Intersect(incoming).Ok? && |Intersect(incoming).value| == 1
    ensures PhiLocation(incoming).Ok? ==>
      Intersect(incoming) == Ok({PhiLocation(incoming).value}) &&
      forall j :: 0 <= j < |incoming| ==> PhiLocation(incoming).value in incoming[j].value
    ensures PhiLocation(incoming).Err? && PhiLocation(incoming) != Err(NoPredecessors) ==>
      (exists j :: 0 <= j < |incoming| && incoming[j] == Err(PhiLocation(incoming).error)) ||
      PhiLocation(incoming) == Err(PhiLocationNotUnique)
  {
    if |incoming| > 0 {
      IntersectIff(incoming);
      match Intersect(incoming)
      case Err(_) => IntersectFailsAt(incoming);
      case Ok(s) =>
        if |s| == 1 {
          SingletonOf(s, PhiLocation(incoming).value);
        }
    }
  }

  /** A failed intersection fails with the error of one of the predecessors. */
  lemma {:induction false} IntersectFailsAt(incoming: seq<Result<set<Value>>>)
    requires |incoming| > 0 && Intersect(incoming).Err?
    ensures exists j :: 0 <= j < |incoming| && incoming[j] == Intersect(incoming)
  {
    if |incoming| > 1 {
      var n := |incoming| - 1;
      if Intersect(incoming[..n]).Err? {
        IntersectFailsAt(incoming[..n]);
        var j :| 0 <= j < n && incoming[..n][j] == Intersect(incoming[..n]);
        assert incoming[j] == Intersect(incoming);
      } else {
        assert incoming[n] == Intersect(incoming);
      }
    }
  }

  // ---------------------------------------------------------------- a two-block program

  /**
   * Block 0 defines variable 0 in register 1 and jumps to block 1, which uses
   * the variable. With the entry states the worklist settles on, the use is
   * accepted when it reads register 1 and rejected when it reads register 2.
   */
  lemma TwoBlockProgram()
    ensures var blocks := [Block([], [1]), Block([0], [])];
      var exit := MachineState(map[Register(1) := ValueState(Variable(0))], map[]);
      var entries := map[0 := Empty, 1 := MergeInto(Empty, exit)];
      Settled(blocks, entries, map[0 := exit, 1 := exit]) &&
      ProgramReady([[DefineIn(0, 1)], [UseFrom(0, 1)]]) &&
      ProgramReady([[DefineIn(0, 1)], [UseFrom(0, 2)]]) &&
      Transfer(Empty, [DefineIn(0, 1)]) == Ok(exit) &&
      VerifyBlocks(entries, [[DefineIn(0, 1)], [UseFrom(0, 1)]]) == Ok(true) &&
      VerifyBlocks(entries, [[DefineIn(0, 1)], [UseFrom(0, 2)]]) == Ok(false)
  {
    var exit := MachineState(map[Register(1) := ValueState(Variable(0))], map[]);
    assert MergedMap(map[], exit.registers) == exit.registers;
    assert MergeInto(Empty, exit) == exit;
    var code := [[DefineIn(0, 1)], [UseFrom(0, 1)]];
    assert code[..1] == [[DefineIn(0, 1)]] && code[..1][..0] == [];
    assert [UseFrom(0, 1)][..0] == [];
    var entries := map[0 := Empty, 1 := MergeInto(Empty, exit)];
    assert Define(map[], DefineIn(0, 1).dests, 1) == Ok(exit.registers);
    assert Replay(Empty, code[0]) == Ok(Running(exit));
    assert VerifyBlocks(entries, code[..1]) == Ok(true);
    assert code[..2] == code;
  }

  /**
   * Settled alone does not pin the entry states down: block 1's entry may also
   * claim the variable in register 2, which no predecessor's exit state holds,
   * and with that entry the wrong-register use would pass. The upper bound
   * rules this entry out.
   */
  lemma {:induction false} UnboundedEntryRuledOut()
    ensures var blocks := [Block([], [1]), Block([0], [])];
      var exit := MachineState(map[Register(1) := ValueState(Variable(0))], map[]);
      var wide := MachineState(map[Register(1) := ValueState(Variable(0)), Register(2) := ValueState(Variable(0))], map[]);
      var entries := map[0 := Empty, 1 := wide];
      Settled(blocks, entries, map[0 := exit, 1 := wide]) &&
      Transfer(wide, [UseFrom(0, 2)]) == Ok(wide) &&
      VerifyBlocks(entries, [[DefineIn(0, 1)], [UseFrom(0, 2)]]) == Ok(true) &&
      !Bounded(blocks, entries, map[0 := exit, 1 := wide]) &&
      Bounded(blocks, map[0 := Empty, 1 := exit], map[0 := exit, 1 := exit])
  {
    var blocks := [Block([], [1]), Block([0], [])];
    var exit := MachineState(map[Register(1) := ValueState(Variable(0))], map[]);
    var wide := MachineState(map[Register(1) := ValueState(Variable(0)), Register(2) := ValueState(Variable(0))], map[]);
    var entries := map[0 := Empty, 1 := wide];
    var exits := map[0 := exit, 1 := wide];
    var code := [[DefineIn(0, 1)], [UseFrom(0, 2)]];
    assert code[..1] == [[DefineIn(0, 1)]] && code[..1][..0] == [];
    assert [UseFrom(0, 2)][..0] == [];
    assert Define(map[], DefineIn(0, 1).dests, 1) == Ok(exit.registers);
    assert Replay(Empty, code[0]) == Ok(Running(exit));
    assert VerifyBlocks(entries, code[..1]) == Ok(true);
    assert Replay(wide, code[1]) == Ok(Running(wide));
    assert code[..2] == code;
    assert !Offered(blocks, exits, 1, false, Register(2), ValueState(Variable(0))) by {
      forall p | p in exits && Feeds(blocks, p, 1) ensures !Witnesses(Part(exits[p], false), Register(2), ValueState(Variable(0))) {
        assert p == 0;
      }
    }
    assert Register(2) in Part(entries[1], false);
    assert Offered(blocks, map[0 := exit, 1 := exit], 1, false, Register(1), ValueState(Variable(0))) by {
      assert Feeds(blocks, 0, 1);
    }
  }

  /**
   * What the upper bound leaves open, on a program without a loop: block 1's
   * entry may hold register 1 as Conflicted, since the bound asks of a
   * Conflicted location only that a predecessor's exit knows it. That entry is
   * settled, bounded and traced, and on it the correct use from register 1 is
   * rejected, while from the code's entry state `{R1: V0}` it is accepted
   * (`TwoBlockProgram`).
   */
  lemma {:induction false} SpuriousConflictBounded()
    ensures var blocks := [Block([], [1]), Block([0], [])];
      var exit := MachineState(map[Register(1) := ValueState(Variable(0))], map[]);
      var muddled := MachineState(map[Register(1) := Conflicted([])], map[]);
      var entries := map[0 := Empty, 1 := muddled];
      var exits := map[0 := exit, 1 := muddled];
      var code := [[DefineIn(0, 1)], [UseFrom(0, 1)]];
      Settled(blocks, entries, exits) && Bounded(blocks, entries, exits) &&
      Traced(entries, exits, entries, map[0 := code[0], 1 := code[1]]) &&
      VerifyBlocks(entries, code) == Ok(false)
  {
    var blocks := [Block([], [1]), Block([0], [])];
    var exit := MachineState(map[Register(1) := ValueState(Variable(0))], map[]);
    var muddled := MachineState(map[Register(1) := Conflicted([])], map[]);
    var entries := map[0 := Empty, 1 := muddled];
    var exits := map[0 := exit, 1 := muddled];
    var code := [[DefineIn(0, 1)], [UseFrom(0, 1)]];
    assert code[..1] == [[DefineIn(0, 1)]] && code[..1][..0] == [];
    assert [UseFrom(0, 1)][..0] == [];
    assert code[..2] == code;
    assert Define(map[], DefineIn(0, 1).dests, 1) == Ok(exit.registers);
    assert Replay(Empty, code[0]) == Ok(Running(exit));
    assert VerifyBlocks(entries, code[..1]) == Ok(true);
    assert Replay(muddled, code[1]) == Ok(Rejected);
    assert Offered(blocks, exits, 1, false, Register(1), Conflicted([])) by {
      assert Feeds(blocks, 0, 1);
    }
    GrowthIsOrder(Empty, Empty, Empty, [], [], []);
    GrowthIsOrder(muddled, muddled, muddled, [], [], []);
    assert Transfer(Empty, code[0]) == Ok(exit);
    assert Transfer(muddled, code[1]) == Ok(muddled);
    assert Settled(blocks, entries, exits);
    assert Bounded(blocks, entries, exits);
    assert Traced(entries, exits, entries, map[0 := code[0], 1 := code[1]]);
    assert VerifyBlocks(entries, code) == Ok(false);
  }
}
