/**
 * The driver: a worklist pass that computes every block's entry state
 * (resolving phi locations on the way), then a linear pass that checks every
 * instruction's inputs from those entry states.
 */
module Verifier {
  import opened Values
  import opened AllocationStates
  import opened StateMaps
  import opened Instructions
  import opened Semantics
  import opened VerifierStates
  import opened Dataflow

  /** How the worklist pass ended; the fuel stands in for the unbounded Java loop. */
  datatype Propagation = Converged | OutOfFuel | Failed(error: Fatal)

  /** What `run` returns, or the fatal error it raises, or that the worklist pass was cut off. */
  datatype RunResult = Verdict(valid: bool) | Aborted(error: Fatal) | Exhausted

  /** The arrays of values before allocation of every Op of the program. */
  ghost function OrigArraysOf(code: seq<seq<Base>>): set<array<Option<Value>>> {
    set b, j, a | 0 <= b < |code| && 0 <= j < |code[b]| && code[b][j].kind.OpKind? &&
                  a in code[b][j].kind.op.OrigArrays() :: a
  }

  /** The arrays of locations after allocation of every Op of the program. */
  ghost function CurrArraysOf(code: seq<seq<Base>>): set<array<Option<Value>>> {
    set b, j, a | 0 <= b < |code| && 0 <= j < |code[b]| && code[b][j].kind.OpKind? &&
                  a in code[b][j].kind.op.CurrArrays() :: a
  }

  /**
   * What the Java code relies on without checking: one instruction list per
   * block, the start block exists, edges stay inside the graph, every block
   * begins with its label (an Op), every instruction is well formed, and no
   * array of original values is also an array of locations.
   */
  ghost predicate WellFormedProgram(blocks: seq<Block>, start: nat, code: seq<seq<Base>>) {
    Shaped(blocks, start, code) && OrigArraysOf(code) !! CurrArraysOf(code)
  }

  /** The structural part of a well-formed program. */
  ghost predicate Shaped(blocks: seq<Block>, start: nat, code: seq<seq<Base>>) {
    |code| == |blocks| && start < |blocks| && EdgesInRange(blocks) &&
    (forall b :: 0 <= b < |code| ==> |code[b]| > 0 && code[b][0].kind.OpKind?) &&
    (forall b, j :: 0 <= b < |code| && 0 <= j < |code[b]| ==> code[b][j].Valid())
  }

  /** Every array of every Op is among the given arrays of original values or of locations. */
  ghost predicate Covered(code: seq<seq<Base>>, origArrays: set<array<Option<Value>>>, currArrays: set<array<Option<Value>>>) {
    forall b, j :: 0 <= b < |code| && 0 <= j < |code[b]| && code[b][j].kind.OpKind? ==>
      code[b][j].kind.op.OrigArrays() <= origArrays && code[b][j].kind.op.CurrArrays() <= currArrays
  }

  /**
   * Writes one value into the same slot of each array in turn. The arrays may
   * coincide: each ends up with exactly that slot replaced.
   */
  method WriteSlot(targets: seq<array<Option<Value>>>, i: nat, v: Option<Value>)
    requires forall t :: 0 <= t < |targets| ==> i < targets[t].Length
    modifies set t | 0 <= t < |targets| :: targets[t]
    ensures forall t :: 0 <= t < |targets| ==> targets[t][..] == old(targets[t][..])[i := v]
  {
    var n := 0;
    while n < |targets|
      invariant 0 <= n <= |targets|
      invariant forall t :: 0 <= t < |targets| ==>
        targets[t][..] == old(targets[t][..]) || targets[t][..] == old(targets[t][..])[i := v]
      invariant forall t :: 0 <= t < n ==> targets[t][..] == old(targets[t][..])[i := v]
    {
      targets[n][i] := v;
      n := n + 1;
    }
  }

  /** The first `|plan|` slots of an array hold the planned locations. */
  ghost predicate SlotsHold(a: array<Option<Value>>, plan: seq<Value>)
    reads a
  {
    |plan| <= a.Length && forall k :: 0 <= k < |plan| ==> a[k] == Some(plan[k])
  }

  /** Applies `update` for each instruction in turn; false when one of them throws. */
  method UpdateAll(state: VerifierState, instructions: seq<Base>, ghost ivs: seq<InstrView>) returns (ok: bool)
    requires |ivs| == |instructions|
    requires forall j :: 0 <= j < |instructions| ==> instructions[j].Valid() && ivs[j] == instructions[j].View()
    modifies state
    ensures AllUpdatable(ivs)
    ensures ok ==> Transfer(old(state.View()), ivs) == Ok(state.View())
    ensures !ok ==> Transfer(old(state.View()), ivs) == Err(IllegalAllocationState)
  {
    ghost var entry := state.View();
    var j := 0;
    while j < |instructions|
      invariant 0 <= j <= |instructions|
      invariant forall k :: 0 <= k < |instructions| ==> ivs[k] == instructions[k].View()
      invariant Transfer(entry, ivs[..j]) == Ok(state.View())
    {
      assert ivs[..j + 1][..j] == ivs[..j];
      ok := state.Update(instructions[j]);
      if !ok {
        TransferErrorPersists(entry, ivs, j + 1);
        return;
      }
      j := j + 1;
    }
    assert ivs[..j] == ivs;
    ok := true;
  }

  /** Checks and then applies each instruction in turn, up to the first failing check. */
  method ReplayAll(state: VerifierState, instructions: seq<Base>, ghost ivs: seq<InstrView>) returns (r: Result<Progress>)
    requires |ivs| == |instructions| && AllReady(ivs)
    requires forall j :: 0 <= j < |instructions| ==> instructions[j].Valid() && ivs[j] == instructions[j].View()
    modifies state
    ensures r == Replay(old(state.View()), ivs)
  {
    ghost var entry := state.View();
    var j := 0;
    while j < |instructions|
      invariant 0 <= j <= |instructions|
      invariant forall k :: 0 <= k < |instructions| ==> ivs[k] == instructions[k].View()
      invariant Replay(entry, ivs[..j]) == Ok(Running(state.View()))
    {
      assert ivs[..j + 1][..j] == ivs[..j];
      var ok := state.Check(instructions[j]);
      if !ok {
        RejectionPersists(entry, ivs, j + 1);
        return Ok(Rejected);
      }
      ok := state.Update(instructions[j]);
      if !ok {
        ErrorPersists(entry, ivs, j + 1);
        return Err(IllegalAllocationState);
      }
      j := j + 1;
    }
    assert ivs[..j] == ivs;
    return Ok(Running(state.View()));
  }

  class RegisterAllocationVerifier {
    const blocks: seq<Block>
    const start: nat
    const blockInstructions: seq<seq<Base>>
    /** The exit state of every block the worklist has processed. */
    var blockStates: map<nat, MachineState>
    /** The state on entry to every block reached so far. */
    var blockEntryStates: map<nat, MachineState>

    /** The arrays of original values, which only the visitor writes. */
    ghost const origArrays: set<array<Option<Value>>>
    /** The arrays of locations, which phi resolution also writes. */
    ghost const currArrays: set<array<Option<Value>>>

    ghost predicate WellFormed() {
      Shaped(blocks, start, blockInstructions) && Covered(blockInstructions, origArrays, currArrays) &&
      origArrays !! currArrays
    }

    ghost predicate Valid()
      reads this
    {
      WellFormed() &&
      (forall b :: b in blockEntryStates ==> b < |blocks|) &&
      (forall b :: b in blockStates ==> b < |blocks|)
    }

    /** The label of a block, its first instruction. */
    function Label(b: nat): (op: Op)
      requires WellFormed() && b < |blocks|
    {
      blockInstructions[b][0].kind.op
    }

    /** The jump that ends a block, its last instruction. */
    function Jump(b: nat): (jump: Base)
      requires WellFormed() && b < |blocks|
    {
      blockInstructions[b][|blockInstructions[b]| - 1]
    }

    // ------------------------------------------------------------ views

    /** What the instructions of a block hold now. */
    ghost function BlockViews(b: nat): (ivs: seq<InstrView>)
      requires WellFormed() && b < |blocks|
      reads origArrays, currArrays
      ensures |ivs| == |blockInstructions[b]|
      ensures forall j :: 0 <= j < |ivs| ==> ivs[j] == blockInstructions[b][j].View()
    {
      seq(|blockInstructions[b]|, j requires 0 <= j < |blockInstructions[b]| reads origArrays, currArrays =>
        blockInstructions[b][j].View())
    }

    /** What the instructions of every block hold now. */
    ghost function ProgramViews(): (code: seq<seq<InstrView>>)
      requires WellFormed()
      reads origArrays, currArrays
      ensures |code| == |blocks|
      ensures forall b :: 0 <= b < |code| ==> code[b] == BlockViews(b)
    {
      seq(|blocks|, b requires 0 <= b < |blocks| reads origArrays, currArrays => BlockViews(b))
    }

    /** Every use of every Op has its original value, which `check` compares against. */
    ghost predicate UsesRecorded()
      requires WellFormed()
      reads origArrays
    {
      forall b, j :: 0 <= b < |blocks| && 0 <= j < |blockInstructions[b]| && blockInstructions[b][j].kind.OpKind? ==>
        forall i :: 0 <= i < blockInstructions[b][j].kind.op.uses.count ==>
          blockInstructions[b][j].kind.op.uses.orig[i].Some?
    }

    lemma ProgramReadyWhenRecorded()
      requires WellFormed() && UsesRecorded()
      ensures ProgramReady(ProgramViews())
    {
      var code := ProgramViews();
      forall b, j | 0 <= b < |code| && 0 <= j < |code[b]|
        ensures Checkable(code[b][j]) && Updatable(code[b][j])
      {
        var instr := blockInstructions[b][j];
        if instr.kind.OpKind? {
          assert forall i :: 0 <= i < instr.kind.op.uses.count ==> instr.kind.op.uses.orig[i].Some?;
        }
      }
    }

    // ------------------------------------------------------------ construction

    /** Only the start block has an entry state, the empty one; no block has been processed. */
    constructor (blocks: seq<Block>, start: nat, blockInstructions: seq<seq<Base>>)
      requires WellFormedProgram(blocks, start, blockInstructions)
      ensures Valid()
      ensures this.blocks == blocks && this.start == start && this.blockInstructions == blockInstructions
      ensures blockStates == map[] && blockEntryStates == map[start := Empty]
    {
      this.blocks := blocks;
      this.start := start;
      this.blockInstructions := blockInstructions;
      this.origArrays := OrigArraysOf(blockInstructions);
      this.currArrays := CurrArraysOf(blockInstructions);
      new;
      forall b, j | 0 <= b < |blockInstructions| && 0 <= j < |blockInstructions[b]| && blockInstructions[b][j].kind.OpKind?
        ensures blockInstructions[b][j].kind.op.OrigArrays() <= origArrays
        ensures blockInstructions[b][j].kind.op.CurrArrays() <= currArrays
      {
        var op := blockInstructions[b][j].kind.op;
        forall a | a in op.OrigArrays() ensures a in origArrays {
          assert 0 <= b < |blockInstructions| && 0 <= j < |blockInstructions[b]| && blockInstructions[b][j].kind.OpKind?;
        }
        forall a | a in op.CurrArrays() ensures a in currArrays {
          assert 0 <= b < |blockInstructions| && 0 <= j < |blockInstructions[b]| && blockInstructions[b][j].kind.OpKind?;
        }
      }
      blockEntryStates := map[start := Empty];
      blockStates := map[];
    }

    /** `doPrecessorsHaveStates`: every predecessor of the block has an exit state. */
    method DoPredecessorsHaveStates(b: nat) returns (r: bool)
      requires WellFormed() && b < |blocks|
      ensures r <==> forall k :: 0 <= k < |blocks[b].predecessors| ==> blocks[b].predecessors[k] in blockStates
    {
      var predecessors := blocks[b].predecessors;
      var i := 0;
      while i < |predecessors|
        invariant 0 <= i <= |predecessors|
        invariant forall k :: 0 <= k < i ==> predecessors[k] in blockStates
      {
        if predecessors[i] !in blockStates {
          return false;
        }
        i := i + 1;
      }
      return true;
    }
  
    // ------------------------------------------------------------ phi resolution

    /**
     * What predecessor `p` offers for the `i`-th phi result: the locations of its
     * exit registers holding the value its jump passes there. A last instruction
     * that is not an Op, or has too few alive values, does not survive the cast.
     */
    function Incoming(p: nat, i: nat): (r: Result<set<Value>>)
      requires WellFormed() && p < |blocks| && p in blockStates
      reads this, origArrays
      ensures r.Ok? <==>
        Jump(p).kind.OpKind? && i < Jump(p).kind.op.alive.count &&
        (Jump(p).kind.op.alive.orig[i].None? || Jump(p).kind.op.alive.orig[i].value.Variable?)
      ensures r.Ok? ==> forall l :: l in r.value <==>
        Jump(p).kind.op.alive.orig[i].Some? && l in blockStates[p].registers &&
        blockStates[p].registers[l] == ValueState(Jump(p).kind.op.alive.orig[i].value)
    {
      var jump := Jump(p);
      if !jump.kind.OpKind? || i >= jump.kind.op.alive.count then Err(MalformedInstruction)
      else
        IncomingLocations(blockStates[p].registers, jump.kind.op.alive.orig[i])
    }

    /** What every predecessor of block `b`, in order, offers for its `i`-th phi result. */
    ghost function IncomingAt(b: nat, i: nat): (incoming: seq<Result<set<Value>>>)
      requires WellFormed() && b < |blocks| && EveryPredecessorDone(b)
      reads this, origArrays
    {
      IncomingPrefix(b, i, |blocks[b].predecessors|)
    }

    /** What the first `n` predecessors of block `b` offer for its `i`-th phi result. */
    ghost function IncomingPrefix(b: nat, i: nat, n: nat): (incoming: seq<Result<set<Value>>>)
      requires WellFormed() && b < |blocks| && EveryPredecessorDone(b) && n <= |blocks[b].predecessors|
      reads this, origArrays
    {
      if n == 0 then []
      else
        var p := blocks[b].predecessors[n - 1];
        assert p < |blocks|;
        IncomingPrefix(b, i, n - 1) + [Incoming(p, i)]
    }

    /** The `j`-th entry of what the first `n` predecessors offer is what predecessor `j` offers. */
    lemma {:induction false} IncomingPrefixMeaning(b: nat, i: nat, n: nat)
      requires WellFormed() && b < |blocks| && EveryPredecessorDone(b) && n <= |blocks[b].predecessors|
      ensures |IncomingPrefix(b, i, n)| == n
      ensures forall j :: 0 <= j < n ==> IncomingPrefix(b, i, n)[j] == Incoming(blocks[b].predecessors[j], i)
    {
      if n > 0 {
        IncomingPrefixMeaning(b, i, n - 1);
      }
    }

    /** There is one entry per predecessor, in the order of the predecessors. */
    lemma IncomingAtMeaning(b: nat, i: nat)
      requires WellFormed() && b < |blocks| && EveryPredecessorDone(b)
      ensures |IncomingAt(b, i)| == |blocks[b].predecessors|
      ensures forall j :: 0 <= j < |blocks[b].predecessors| ==> IncomingAt(b, i)[j] == Incoming(blocks[b].predecessors[j], i)
    {
      IncomingPrefixMeaning(b, i, |blocks[b].predecessors|);
    }

    /** Every predecessor of block `b` has an exit state. */
    ghost predicate EveryPredecessorDone(b: nat)
      requires WellFormed() && b < |blocks|
      reads this
    {
      forall k :: 0 <= k < |blocks[b].predecessors| ==> blocks[b].predecessors[k] in blockStates
    }

    /**
     * The location search of `fillMissingVariableLocationsForPhi` for one
     * result: the predecessors in order, each one's variable looked up in its
     * exit registers, the sets intersected, and exactly one location required.
     */
    method PhiLocationsAt(b: nat, i: nat) returns (r: Result<set<Value>>)
      requires WellFormed() && b < |blocks| && EveryPredecessorDone(b)
      ensures r == PhiLocations(IncomingAt(b, i))
    {
      IncomingAtMeaning(b, i);
      ghost var incoming := IncomingAt(b, i);
      var predecessors := blocks[b].predecessors;
      var locations: set<Value> := {};
      var j := 0;
      while j < |predecessors|
        invariant 0 <= j <= |predecessors|
        invariant j > 0 ==> Intersect(incoming[..j]) == Ok(locations)
      {
        var found := Incoming(predecessors[j], i);
        assert incoming[..j + 1][..j] == incoming[..j];
        assert incoming[..j + 1][j] == found;
        if found.Err? {
          assert Intersect(incoming[..j + 1]) == found;
          IntersectErrorPersists(incoming, j + 1);
          assert |incoming| > 0 && Intersect(incoming).Err?;
          assert PhiLocations(incoming) == found;
          return found;
        }
        if j == 0 {
          locations := found.value;
        } else {
          locations := locations * found.value;
        }
        j := j + 1;
      }
      if |predecessors| == 0 {
        return Err(NoPredecessors);
      }
      assert incoming[..j] == incoming;
      assert Intersect(incoming) == Ok(locations);
      if |locations| != 1 {
        assert PhiLocations(incoming) == Err(PhiLocationNotUnique);
        return Err(PhiLocationNotUnique);
      }
      assert PhiLocations(incoming) == Ok(locations);
      return Ok(locations);
    }

    /** Every predecessor of block `b` ends with an Op. */
    ghost predicate JumpsAreOps(b: nat)
      requires WellFormed() && b < |blocks|
    {
      forall j :: 0 <= j < |blocks[b].predecessors| ==>
        var p := blocks[b].predecessors[j];
        p < |blocks| && Jump(p).kind.OpKind?
    }

    /** Every predecessor of block `b` ends with an Op that has an `i`-th alive value. */
    ghost predicate JumpsCarry(b: nat, i: nat)
      requires WellFormed() && b < |blocks|
    {
      JumpsAreOps(b) &&
      forall j :: 0 <= j < |blocks[b].predecessors| ==> i < Jump(blocks[b].predecessors[j]).kind.op.alive.count
    }

    /** A resolved phi result implies that every predecessor's jump has the alive value to carry it. */
    lemma ResolvedJumpsCarry(b: nat, i: nat)
      requires WellFormed() && b < |blocks| && EveryPredecessorDone(b)
      ensures PhiLocation(IncomingAt(b, i)).Ok? ==> JumpsCarry(b, i)
    {
      IncomingAtMeaning(b, i);
      var incoming := IncomingAt(b, i);
      if PhiLocations(incoming).Err? {
        return;
      }
      IntersectIff(incoming);
      forall j | 0 <= j < |blocks[b].predecessors|
        ensures var p := blocks[b].predecessors[j];
          p < |blocks| && Jump(p).kind.OpKind? && i < Jump(p).kind.op.alive.count
      {
        assert incoming[j].Ok?;
      }
      assert JumpsAreOps(b);
    }

    /** The arrays one phi result is written into: the label's definitions, then each jump's alive values. */
    function PhiTargets(b: nat): (targets: seq<array<Option<Value>>>)
      requires WellFormed() && b < |blocks| && JumpsAreOps(b)
      ensures |targets| == |blocks[b].predecessors| + 1 && targets[0] == Label(b).dests.curr
      ensures forall j :: 0 <= j < |blocks[b].predecessors| ==>
        targets[j + 1] == Jump(blocks[b].predecessors[j]).kind.op.alive.curr
      ensures forall t :: 0 <= t < |targets| ==> targets[t] in currArrays
    {
      [Label(b).dests.curr] +
      seq(|blocks[b].predecessors|, j requires 0 <= j < |blocks[b].predecessors| =>
        var p := blocks[b].predecessors[j];
        Jump(p).kind.op.alive.curr)
    }

    /** The arrays phase 1 may write when completing block `b`: the label's locations and each predecessor jump's alive locations. */
    ghost function PhiArraysOf(b: nat): (arrays: set<array<Option<Value>>>)
      requires WellFormed() && b < |blocks|
      ensures Label(b).dests.curr in arrays
      ensures JumpsAreOps(b) ==> forall t :: 0 <= t < |PhiTargets(b)| ==> PhiTargets(b)[t] in arrays
    {
      {Label(b).dests.curr} +
      set j | 0 <= j < |blocks[b].predecessors| && Jump(blocks[b].predecessors[j]).kind.OpKind? ::
        Jump(blocks[b].predecessors[j]).kind.op.alive.curr
    }

    /** Every array phase 1 may write: the locations of every label and the alive locations of every jump. */
    ghost function PhiArrays(): (arrays: set<array<Option<Value>>>)
      requires WellFormed()
      ensures forall b :: 0 <= b < |blocks| ==> PhiArraysOf(b) <= arrays
    {
      set b, a | 0 <= b < |blocks| && a in PhiArraysOf(b) :: a
    }

    /** No jump passes its alive values in an array that some Op also uses for the locations of its definitions. */
    ghost predicate AliveApart()
      requires WellFormed()
    {
      forall p, c, j ::
        (0 <= p < |blocks| && 0 <= c < |blocks| && 0 <= j < |blockInstructions[c]| &&
         Jump(p).kind.OpKind? && blockInstructions[c][j].kind.OpKind?) ==>
        Jump(p).kind.op.alive.curr != blockInstructions[c][j].kind.op.dests.curr
    }

    /** A label that still lacks its phi results has no location for any of them. */
    ghost predicate LabelsUnplaced()
      requires WellFormed()
      reads origArrays, currArrays
    {
      forall b :: 0 <= b < |blocks| && Label(b).HasMissingDefinitions() ==>
        forall k :: 0 <= k < Label(b).dests.count ==> Label(b).dests.curr[k].None?
    }

    /**
     * Phi resolution only fills null locations: what the Java objects
     * guarantee (every operand group owns its arrays) and what the allocator
     * leaves (a label's locations are all set or all null).
     */
    ghost predicate PhiSafe()
      requires WellFormed()
      reads origArrays, currArrays
    {
      AliveApart() && LabelsUnplaced()
    }

    /** Every result of block `b`'s phi has its one agreed location, placed in the label and in every jump. */
    ghost predicate PhiResolved(b: nat)
      requires WellFormed() && b < |blocks| && EveryPredecessorDone(b)
      reads this, origArrays, currArrays
    {
      forall k :: 0 <= k < Label(b).dests.count ==>
        PhiLocation(IncomingAt(b, k)).Ok? && JumpsCarry(b, k) &&
        forall t :: 0 <= t < |PhiTargets(b)| ==>
          k < PhiTargets(b)[t].Length && PhiTargets(b)[t][k] == Some(PhiLocation(IncomingAt(b, k)).value)
    }

    /**
     * Writes one resolved location into the label's definition and into every
     * predecessor jump's alive value; no other slot of those arrays changes.
     */
    method PlacePhi(b: nat, i: nat, location: Value)
      requires WellFormed() && b < |blocks| && JumpsCarry(b, i) && i < Label(b).dests.count
      modifies currArrays
      ensures forall t, k :: 0 <= t < |PhiTargets(b)| && 0 <= k < PhiTargets(b)[t].Length ==>
        PhiTargets(b)[t][k] == if k == i then Some(location) else old(PhiTargets(b)[t][k])
      ensures forall a :: a in currArrays && a !in PhiArraysOf(b) ==> a[..] == old(a[..])
    {
      TargetsHold(b, i);
      var targets := PhiTargets(b);
      WriteSlot(targets, i, Some(location));
      forall t, k | 0 <= t < |targets| && 0 <= k < targets[t].Length
        ensures targets[t][k] == if k == i then Some(location) else old(targets[t][k])
      {
        assert targets[t][..][k] == targets[t][k];
      }
    }

    /** Every array a phi result is written into has the slot for it. */
    lemma TargetsHold(b: nat, i: nat)
      requires WellFormed() && b < |blocks| && JumpsCarry(b, i) && i < Label(b).dests.count
      ensures forall t :: 0 <= t < |PhiTargets(b)| ==> i < PhiTargets(b)[t].Length
    {
      var targets := PhiTargets(b);
      forall t | 0 <= t < |targets| ensures i < targets[t].Length {
        if t > 0 {
          var p := blocks[b].predecessors[t - 1];
          assert Jump(p).Valid();
        } else {
          assert blockInstructions[b][0].Valid();
        }
      }
    }

    /**
     * The first `|plan|` results of block `b`'s phi hold the planned locations,
     * in the label's definitions and in every predecessor jump's alive values.
     */
    ghost predicate PhiPlaced(b: nat, plan: seq<Value>)
      requires WellFormed() && b < |blocks|
      reads currArrays
    {
      |plan| > 0 ==>
        JumpsAreOps(b) &&
        forall t :: 0 <= t < |PhiTargets(b)| ==> SlotsHold(PhiTargets(b)[t], plan)
    }

    /** One result of the phi: the single location all predecessors agree on, or why there is none. */
    method ResolvePhi(b: nat, i: nat) returns (r: Result<Value>)
      requires WellFormed() && b < |blocks| && EveryPredecessorDone(b)
      ensures r == PhiLocation(IncomingAt(b, i))
    {
      var locations := PhiLocationsAt(b, i);
      if locations.Err? {
        return Err(locations.error);
      }
      var location :| location in locations.value;
      SingletonOf(locations.value, location);
      return Ok(location);
    }

    /** Places the location of result `i`; the results placed before it keep theirs. */
    method PlaceAgreed(b: nat, i: nat, ghost plan: seq<Value>, location: Value)
      requires WellFormed() && b < |blocks| && i < Label(b).dests.count
      requires |plan| == i && JumpsCarry(b, i) && PhiPlaced(b, plan)
      modifies currArrays
      ensures PhiPlaced(b, plan + [location])
      ensures forall a :: a in currArrays && a !in PhiArraysOf(b) ==> a[..] == old(a[..])
    {
      TargetsHold(b, i);
      ghost var targets := PhiTargets(b);
      label Place:
      PlacePhi(b, i, location);
      forall t | 0 <= t < |targets| ensures SlotsHold(targets[t], plan + [location]) {
        assert old@Place(SlotsHold(targets[t], plan));
        forall k | 0 <= k <= i ensures targets[t][k] == Some((plan + [location])[k]) {
          if k < i {
            assert old@Place(targets[t][k]) == Some(plan[k]);
          }
        }
      }
    }

    /**
     * The search half of `fillMissingVariableLocationsForPhi`: the agreed
     * location of each of the first `n` results in order, up to the first
     * result that has none, whose error is returned.
     */
    method SearchPhi(b: nat, n: nat) returns (error: Option<Fatal>, plan: seq<Value>)
      requires WellFormed() && b < |blocks| && EveryPredecessorDone(b)
      ensures |plan| <= n
      ensures error.None? <==> |plan| == n
      ensures error.Some? ==> PhiLocation(IncomingAt(b, |plan|)) == Err(error.value)
      ensures forall k :: 0 <= k < |plan| ==> PhiLocation(IncomingAt(b, k)) == Ok(plan[k])
    {
      plan := [];
      var i := 0;
      while i < n
        invariant 0 <= i <= n && |plan| == i
        invariant forall k :: 0 <= k < i ==> PhiLocation(IncomingAt(b, k)) == Ok(plan[k])
      {
        var resolved := ResolvePhi(b, i);
        if resolved.Err? {
          return Some(resolved.error), plan;
        }
        plan := plan + [resolved.value];
        i := i + 1;
      }
      error := None;
    }

    /**
     * The writing half of `fillMissingVariableLocationsForPhi`: each planned
     * location goes into the label's definition and every jump's alive value.
     */
    method PlacePlan(b: nat, plan: seq<Value>)
      requires WellFormed() && b < |blocks| && |plan| <= Label(b).dests.count
      requires forall k :: 0 <= k < |plan| ==> JumpsCarry(b, k)
      modifies currArrays
      ensures PhiPlaced(b, plan)
      ensures forall a :: a in currArrays && a !in PhiArraysOf(b) ==> a[..] == old(a[..])
    {
      var i := 0;
      while i < |plan|
        invariant 0 <= i <= |plan| && PhiPlaced(b, plan[..i])
        invariant forall a :: a in currArrays && a !in PhiArraysOf(b) ==> a[..] == old(a[..])
      {
        PlaceAgreed(b, i, plan[..i], plan[i]);
        assert plan[..i] + [plan[i]] == plan[..i + 1];
        i := i + 1;
      }
      assert plan[..i] == plan;
    }

    /**
     * `fillMissingVariableLocationsForPhi`: for each result of the label in
     * order, the one location the predecessors agree on is written into the
     * label's definition and every jump's alive value; the first result that
     * has none raises its error, after the results before it were placed.
     * The search reads only exit registers and original alive values, which
     * the writes leave alone, so all results are searched before any is
     * placed.
     */
    method FillMissingVariableLocationsForPhi(b: nat, labelInstr: Op) returns (error: Option<Fatal>, plan: seq<Value>)
      requires WellFormed() && b < |blocks| && labelInstr == Label(b) && EveryPredecessorDone(b)
      modifies currArrays
      ensures |plan| <= labelInstr.dests.count
      ensures error.None? <==> |plan| == labelInstr.dests.count
      ensures error.Some? ==> PhiLocation(IncomingAt(b, |plan|)) == Err(error.value)
      ensures forall k :: 0 <= k < |plan| ==> PhiLocation(IncomingAt(b, k)) == Ok(plan[k])
      ensures forall k :: 0 <= k < |plan| ==> JumpsCarry(b, k)
      ensures forall k :: 0 <= k < |plan| ==> k < labelInstr.dests.curr.Length && labelInstr.dests.curr[k] == Some(plan[k])
      ensures PhiPlaced(b, plan)
      ensures forall a :: a in currArrays && a !in PhiArraysOf(b) ==> a[..] == old(a[..])
    {
      error, plan := SearchPhi(b, labelInstr.dests.count);
      forall k | 0 <= k < |plan| ensures JumpsCarry(b, k) {
        ResolvedJumpsCarry(b, k);
      }
      PlacePlan(b, plan);
      LabelHoldsPlan(b, labelInstr, plan);
    }

    /** The label's own array of locations is one of the arrays the plan was written into. */
    lemma LabelHoldsPlan(b: nat, labelInstr: Op, plan: seq<Value>)
      requires WellFormed() && b < |blocks| && labelInstr == Label(b) && PhiPlaced(b, plan)
      ensures forall k :: 0 <= k < |plan| ==> k < labelInstr.dests.curr.Length && labelInstr.dests.curr[k] == Some(plan[k])
    {
      if |plan| > 0 {
        assert PhiTargets(b)[0] == labelInstr.dests.curr;
        assert SlotsHold(labelInstr.dests.curr, plan);
      }
    }

    // ------------------------------------------------------------ the worklist pass

    /** The instructions of every block can be updated. */
    lemma BlockUpdatable(b: nat)
      requires WellFormed() && b < |blocks|
      ensures AllUpdatable(BlockViews(b))
    {
      var ivs := BlockViews(b);
      forall j | 0 <= j < |ivs| ensures Updatable(ivs[j]) {
        assert blockInstructions[b][j].Valid();
      }
    }

    /**
     * The exit state of block `b`: a new state copied from its entry state (or
     * empty when it has none), updated by each of its instructions in turn.
     */
    method TransferBlock(b: nat) returns (r: Result<VerifierState>)
      requires Valid() && b < |blocks|
      ensures AllUpdatable(BlockViews(b))
      ensures r.Ok? ==> fresh(r.value) && Transfer(EntryOf(blockEntryStates, b), BlockViews(b)) == Ok(r.value.View())
      ensures r.Err? ==> Transfer(EntryOf(blockEntryStates, b), BlockViews(b)) == Err(r.error)
    {
      var state := new VerifierState.Copy(if b in blockEntryStates then Some(blockEntryStates[b]) else None);
      assert state.View() == EntryOf(blockEntryStates, b);
      forall j | 0 <= j < |blockInstructions[b]| ensures blockInstructions[b][j].Valid() {
      }
      var ok := UpdateAll(state, blockInstructions[b], BlockViews(b));
      if !ok {
        return Err(IllegalAllocationState);
      }
      return Ok(state);
    }

    /**
     * One edge of the propagation: the exit state is met into the entry state
     * of successor `s`, a new empty one when it has none; an existing entry
     * state is changed in place, a new one is stored only when the merge
     * reports a change.
     */
    method MeetInto(s: nat, state: VerifierState) returns (changed: bool)
      requires Valid() && s < |blocks|
      modifies this
      ensures Valid() && blockStates == old(blockStates)
      ensures blockEntryStates == MeetSuccessor(old(blockEntryStates), s, state.View())
      ensures changed <==> !Absorbs(EntryOf(old(blockEntryStates), s), state.View())
    {
      var succState := new VerifierState.Copy(if s in blockEntryStates then Some(blockEntryStates[s]) else None);
      assert succState.View() == EntryOf(blockEntryStates, s);
      changed := succState.MeetWith(state);
      if s in blockEntryStates || changed {
        blockEntryStates := blockEntryStates[s := succState.View()];
      }
    }

    /**
     * The exit state of block `b` met into each successor in order; the
     * successors whose merge reported a change are returned for the worklist.
     */
    method PropagateExit(b: nat, state: VerifierState) returns (added: seq<nat>)
      requires Valid() && b < |blocks|
      modifies this
      ensures Valid() && blockStates == old(blockStates)
      ensures Propagate(old(blockEntryStates), state.View(), blocks[b].successors) == Propagated(blockEntryStates, added)
    {
      var successors := blocks[b].successors;
      added := [];
      var i := 0;
      while i < |successors|
        invariant 0 <= i <= |successors|
        invariant Valid() && blockStates == old(blockStates)
        invariant Propagate(old(blockEntryStates), state.View(), successors[..i]) == Propagated(blockEntryStates, added)
      {
        assert successors[..i + 1][..i] == successors[..i];
        var changed := MeetInto(successors[i], state);
        if changed {
          added := added + [successors[i]];
        }
        i := i + 1;
      }
      assert successors[..i] == successors;
    }

    /**
     * The phi step of the worklist: when the block's label still lacks its phi
     * results and every predecessor has an exit state, the results are
     * resolved and placed; a result without a location raises its error.
     * Only the label's locations and the jumps' alive locations are written.
     */
    method CompletePhi(b: nat) returns (error: Option<Fatal>)
      requires Valid() && b < |blocks|
      modifies currArrays
      ensures forall a :: a in currArrays && a !in PhiArraysOf(b) ==> a[..] == old(a[..])
      ensures !(old(Label(b).HasMissingDefinitions()) && EveryPredecessorDone(b)) ==>
        error.None? && forall a :: a in currArrays ==> a[..] == old(a[..])
      ensures error.Some? ==>
        old(Label(b).HasMissingDefinitions()) && EveryPredecessorDone(b) &&
        exists i :: 0 <= i < Label(b).dests.count && PhiLocation(IncomingAt(b, i)) == Err(error.value)
      ensures error.None? && old(Label(b).HasMissingDefinitions()) && EveryPredecessorDone(b) ==> PhiResolved(b)
      ensures error.None? && old(PhiSafe()) ==>
        PhiSafe() && forall c :: 0 <= c < |blocks| ==> ViewsExtend(old(BlockViews(c)), BlockViews(c))
    {
      var labelInstr := Label(b);
      assert blockInstructions[b][0].Valid();
      var missing := labelInstr.HasMissingDefinitions();
      if missing {
        var done := DoPredecessorsHaveStates(b);
        if done {
          var plan;
          error, plan := FillMissingVariableLocationsForPhi(b, labelInstr);
          if error.None? {
            assert PhiResolved(b);
            if old(PhiSafe()) {
              PhiKeepsViews(b);
              PhiKeepsSafe(b);
            }
          }
          return;
        }
      }
      error := None;
      forall c | 0 <= c < |blocks| ensures ViewsExtend(BlockViews(c), BlockViews(c)) {
        BlockUpdatable(c);
        GrowthIsOrder(Empty, Empty, Empty, BlockViews(c), BlockViews(c), BlockViews(c));
      }
    }

    /**
     * When phi resolution fills only null locations, every block's
     * instructions gain locations and lose none: the label's locations were
     * all null, and no Op takes its definitions from a jump's alive array.
     */
    twostate lemma PhiKeepsViews(b: nat)
      requires WellFormed() && b < |blocks| && old(PhiSafe()) && old(Label(b).HasMissingDefinitions())
      requires forall a :: a in currArrays && a !in PhiArraysOf(b) ==> a[..] == old(a[..])
      requires forall a :: a in origArrays ==> a[..] == old(a[..])
      ensures forall c :: 0 <= c < |blocks| ==> ViewsExtend(old(BlockViews(c)), BlockViews(c))
    {
      forall c | 0 <= c < |blocks| ensures ViewsExtend(old(BlockViews(c)), BlockViews(c)) {
        forall j | 0 <= j < |blockInstructions[c]| ensures ViewExtends(old(BlockViews(c))[j], BlockViews(c)[j]) {
          var instr := blockInstructions[c][j];
          assert instr.Valid();
          if instr.kind.OpKind? {
            var d := instr.kind.op.dests;
            assert d.orig in origArrays && d.curr in currArrays;
            if d.curr in PhiArraysOf(b) {
              assert d.curr == Label(b).dests.curr;
            }
          }
        }
      }
    }

    /** Once every result of the label is placed, phi resolution still fills only null locations. */
    twostate lemma PhiKeepsSafe(b: nat)
      requires WellFormed() && b < |blocks| && old(PhiSafe())
      requires forall a :: a in currArrays && a !in PhiArraysOf(b) ==> a[..] == old(a[..])
      requires forall a :: a in origArrays ==> a[..] == old(a[..])
      requires forall k :: 0 <= k < Label(b).dests.count ==> Label(b).dests.curr[k].Some?
      ensures PhiSafe()
    {
      forall c | 0 <= c < |blocks| && Label(c).HasMissingDefinitions()
        ensures forall k :: 0 <= k < Label(c).dests.count ==> Label(c).dests.curr[k].None?
      {
        var d := Label(c).dests;
        assert blockInstructions[c][0].Valid();
        assert d.orig in origArrays && d.curr in currArrays;
        assert d.curr !in PhiArraysOf(b);
        assert old(Label(c).HasMissingDefinitions());
      }
    }

    /**
     * The exit state of block `b` is stored and met into every successor; the
     * successors whose entry state changed are returned for the worklist.
     */
    method StoreExit(b: nat, state: VerifierState) returns (added: seq<nat>)
      requires Valid() && b < |blocks| && Settled(blocks, blockEntryStates, blockStates)
      modifies this
      ensures Valid() && Settled(blocks, blockEntryStates, blockStates)
      ensures blockStates == old(blockStates)[b := state.View()]
      ensures old(blockEntryStates).Keys <= blockEntryStates.Keys
      ensures forall c :: c in blockEntryStates ==> c in old(blockEntryStates) || c in added
      ensures forall j :: 0 <= j < |added| ==> added[j] in blocks[b].successors && added[j] < |blocks|
      ensures Propagate(old(blockEntryStates), state.View(), blocks[b].successors) == Propagated(blockEntryStates, added)
    {
      ghost var entries := blockEntryStates;
      SettledReplacing(blocks, entries, blockStates, b, state.View());
      blockStates := blockStates[b := state.View()];
      added := PropagateExit(b, state);
      PropagateSettles(blocks, entries, blockStates, b, |blocks[b].successors|);
      PropagateReaches(entries, state.View(), blocks[b].successors);
      forall j | 0 <= j < |added| ensures added[j] < |blocks| {
        var k :| 0 <= k < |blocks[b].successors| && blocks[b].successors[k] == added[j];
      }
    }

    /**
     * One step of the worklist: the phi results of the block are completed, its
     * exit state is computed from its entry state and stored, and it is met
     * into every successor. A fatal error leaves both maps as they were.
     */
    method ProcessBlock(b: nat) returns (error: Option<Fatal>, added: seq<nat>)
      requires Valid() && b < |blocks| && Settled(blocks, blockEntryStates, blockStates)
      modifies this, currArrays
      ensures Valid() && Settled(blocks, blockEntryStates, blockStates)
      ensures old(blockEntryStates).Keys <= blockEntryStates.Keys
      ensures forall c :: c in blockEntryStates ==> c in old(blockEntryStates) || c in added
      ensures forall j :: 0 <= j < |added| ==> added[j] in blocks[b].successors && added[j] < |blocks|
      ensures AllUpdatable(BlockViews(b))
      ensures error.None? ==>
        blockStates.Keys == old(blockStates).Keys + {b} &&
        Transfer(EntryOf(old(blockEntryStates), b), BlockViews(b)) == Ok(blockStates[b])
      ensures error.Some? ==> blockStates == old(blockStates) && blockEntryStates == old(blockEntryStates)
      ensures error.None? ==>
        blockStates == old(blockStates)[b := blockStates[b]] &&
        Propagate(old(blockEntryStates), blockStates[b], blocks[b].successors) == Propagated(blockEntryStates, added)
      ensures forall a :: a in currArrays && a !in PhiArraysOf(b) ==> a[..] == old(a[..])
      ensures error.None? && old(PhiSafe()) ==>
        PhiSafe() && forall c :: 0 <= c < |blocks| ==> ViewsExtend(old(BlockViews(c)), BlockViews(c))
    {
      error := CompletePhi(b);
      if error.Some? {
        BlockUpdatable(b);
        return error, [];
      }
      error, added := ExitBlock(b);
    }

    /**
     * The part of a worklist step after the phi results are complete: the exit
     * state is computed and, unless the block is refused, stored and met into
     * every successor.
     */
    method ExitBlock(b: nat) returns (error: Option<Fatal>, added: seq<nat>)
      requires Valid() && b < |blocks| && Settled(blocks, blockEntryStates, blockStates)
      modifies this
      ensures Valid() && Settled(blocks, blockEntryStates, blockStates)
      ensures old(blockEntryStates).Keys <= blockEntryStates.Keys
      ensures forall c :: c in blockEntryStates ==> c in old(blockEntryStates) || c in added
      ensures forall j :: 0 <= j < |added| ==> added[j] in blocks[b].successors && added[j] < |blocks|
      ensures AllUpdatable(BlockViews(b))
      ensures error.None? ==>
        b in blockStates && blockStates == old(blockStates)[b := blockStates[b]] &&
        Transfer(EntryOf(old(blockEntryStates), b), BlockViews(b)) == Ok(blockStates[b]) &&
        Propagate(old(blockEntryStates), blockStates[b], blocks[b].successors) == Propagated(blockEntryStates, added)
      ensures error.Some? ==>
        blockStates == old(blockStates) && blockEntryStates == old(blockEntryStates) &&
        Transfer(EntryOf(blockEntryStates, b), BlockViews(b)) == Err(error.value)
      ensures unchanged(origArrays, currArrays)
    {
      var transferred := TransferBlock(b);
      if transferred.Err? {
        return Some(transferred.error), [];
      }
      error := None;
      added := StoreExit(b, transferred.value);
    }

    /**
     * What the worklist keeps about the ghost record of the entry state and the
     * instructions each exit state was computed from; `safe` says the phi arrays
     * were safe, and `emptyStart` that the start block began with an empty state.
     */
    ghost predicate Tracing(entryUsed: map<nat, MachineState>, viewsUsed: map<nat, seq<InstrView>>,
                            safe: bool, emptyStart: bool)
      requires WellFormed()
      reads this, origArrays, currArrays
    {
      Traced(blockEntryStates, blockStates, entryUsed, viewsUsed) &&
      (safe ==> PhiSafe() && ViewsFollow(blockStates, viewsUsed, ProgramViews())) &&
      (safe && emptyStart ==> Bounded(blocks, blockEntryStates, blockStates))
    }

    /**
     * A worklist step together with the ghost record of the entry state and the
     * instructions each exit state was computed from: the record stays a trace
     * of the exit states, and while the phi arrays are safe the instructions
     * only gain locations and the entry states stay bounded by the exit states.
     */
    method TraceBlock(b: nat, ghost entryUsed: map<nat, MachineState>, ghost viewsUsed: map<nat, seq<InstrView>>,
                      ghost safe: bool, ghost emptyStart: bool)
      returns (error: Option<Fatal>, added: seq<nat>,
               ghost entryUsed': map<nat, MachineState>, ghost viewsUsed': map<nat, seq<InstrView>>)
      requires Valid() && b < |blocks| && Settled(blocks, blockEntryStates, blockStates)
      requires Tracing(entryUsed, viewsUsed, safe, emptyStart)
      modifies this, currArrays
      ensures Valid() && Settled(blocks, blockEntryStates, blockStates)
      ensures old(blockEntryStates).Keys <= blockEntryStates.Keys
      ensures forall c :: c in blockEntryStates ==> c in old(blockEntryStates) || c in added
      ensures forall j :: 0 <= j < |added| ==> added[j] < |blocks|
      ensures error.None? ==> blockStates.Keys == old(blockStates).Keys + {b}
      ensures forall a :: a in currArrays && a !in PhiArrays() ==> a[..] == old(a[..])
      ensures Traced(blockEntryStates, blockStates, entryUsed', viewsUsed')
      ensures error.None? ==> Tracing(entryUsed', viewsUsed', safe, emptyStart)
    {
      ghost var entries, exits, code := blockEntryStates, blockStates, ProgramViews();
      error, added := ProcessBlock(b);
      if error.Some? {
        return error, added, entryUsed, viewsUsed;
      }
      TracedStep(blocks, entries, exits, entryUsed, viewsUsed, b, BlockViews(b), blockStates[b]);
      if safe {
        FollowStep(exits, viewsUsed, code, ProgramViews(), b, blockStates[b]);
        if emptyStart {
          BoundedStep(blocks, entries, exits, entryUsed, viewsUsed, code, ProgramViews(), b, blockStates[b]);
        }
      }
      entryUsed', viewsUsed' := entryUsed[b := EntryOf(entries, b)], viewsUsed[b := BlockViews(b)];
    }

    /**
     * What holds between two steps of the worklist: the maps settled, every block
     * with an entry state processed or still queued, and the ghost record as `Tracing` keeps it.
     */
    ghost predicate WorklistHolds(worklist: seq<nat>, entryUsed: map<nat, MachineState>, viewsUsed: map<nat, seq<InstrView>>,
                                  safe: bool, emptyStart: bool)
      reads this, origArrays, currArrays
    {
      Valid() && start in blockEntryStates && Settled(blocks, blockEntryStates, blockStates) &&
      (forall c :: c in blockEntryStates ==> c in blockStates || c in worklist) &&
      (forall j :: 0 <= j < |worklist| ==> worklist[j] < |blocks|) &&
      Tracing(entryUsed, viewsUsed, safe, emptyStart)
    }

    /** The body of the worklist loop: the first queued block is processed and its changed successors queued. */
    method WorklistStep(worklist: seq<nat>, ghost entryUsed: map<nat, MachineState>, ghost viewsUsed: map<nat, seq<InstrView>>,
                        ghost safe: bool, ghost emptyStart: bool)
      returns (error: Option<Fatal>, worklist': seq<nat>,
               ghost entryUsed': map<nat, MachineState>, ghost viewsUsed': map<nat, seq<InstrView>>)
      requires worklist != [] && WorklistHolds(worklist, entryUsed, viewsUsed, safe, emptyStart)
      modifies this, currArrays
      ensures error.None? ==> WorklistHolds(worklist', entryUsed', viewsUsed', safe, emptyStart)
      ensures Valid() && start in blockEntryStates && Traced(blockEntryStates, blockStates, entryUsed', viewsUsed')
      ensures forall a :: a in currArrays && a !in PhiArrays() ==> a[..] == old(a[..])
    {
      var b := worklist[0];
      var added;
      error, added, entryUsed', viewsUsed' := TraceBlock(b, entryUsed, viewsUsed, safe, emptyStart);
      worklist' := worklist[1..] + added;
    }

    /**
     * `calculateEntryBlocks`: the worklist, starting from the start block, runs
     * until it is empty or `fuel` blocks have been processed. Once it empties,
     * every exit state has been absorbed by the entry state of each successor,
     * and every block with an entry state, the start block among them, has an
     * exit state.
     */
    method CalculateEntryBlocks(fuel: nat)
      returns (outcome: Propagation, ghost entryUsed: map<nat, MachineState>, ghost viewsUsed: map<nat, seq<InstrView>>)
      requires Valid() && blockStates == map[] && blockEntryStates.Keys == {start}
      modifies this, currArrays
      ensures Valid() && start in blockEntryStates
      ensures forall a :: a in currArrays && a !in PhiArrays() ==> a[..] == old(a[..])
      ensures Traced(blockEntryStates, blockStates, entryUsed, viewsUsed)
      ensures outcome.Converged? ==>
        Settled(blocks, blockEntryStates, blockStates) &&
        blockEntryStates.Keys <= blockStates.Keys && start in blockStates
      ensures outcome.Converged? && old(PhiSafe()) ==>
        PhiSafe() && ViewsFollow(blockStates, viewsUsed, ProgramViews())
      ensures outcome.Converged? && old(PhiSafe()) && old(blockEntryStates[start]) == Empty ==>
        Bounded(blocks, blockEntryStates, blockStates)
    {
      var worklist: seq<nat> := [start];
      var remaining := fuel;
      outcome, entryUsed, viewsUsed := Converged, map[], map[];
      ghost var safe, emptyStart := PhiSafe(), blockEntryStates[start] == Empty;
      assert safe == old(PhiSafe()) && emptyStart == (old(blockEntryStates[start]) == Empty);
      while worklist != []
        invariant WorklistHolds(worklist, entryUsed, viewsUsed, safe, emptyStart)
        invariant forall a :: a in currArrays && a !in PhiArrays() ==> a[..] == old(a[..])
        decreases remaining, |worklist|
      {
        if remaining == 0 {
          return OutOfFuel, entryUsed, viewsUsed;
        }
        var error;
        error, worklist, entryUsed, viewsUsed := WorklistStep(worklist, entryUsed, viewsUsed, safe, emptyStart);
        if error.Some? {
          return Failed(error.value), entryUsed, viewsUsed;
        }
        remaining := remaining - 1;
      }
    }

    // ------------------------------------------------------------ the checking pass

    /**
     * The check of one block: a copy of its entry state, each instruction
     * checked and then applied; the first failing check rejects the block.
     */
    method ReplayBlock(b: nat) returns (r: Result<Progress>)
      requires Valid() && UsesRecorded() && b < |blocks| && b in blockEntryStates
      ensures AllReady(BlockViews(b))
      ensures r == Replay(blockEntryStates[b], BlockViews(b))
    {
      ProgramReadyWhenRecorded();
      assert BlockViews(b) == ProgramViews()[b];
      var state := new VerifierState.Copy(Some(blockEntryStates[b]));
      forall j | 0 <= j < |blockInstructions[b]| ensures blockInstructions[b][j].Valid() {
      }
      r := ReplayAll(state, blockInstructions[b], BlockViews(b));
    }

    /**
     * `verifyInstructionInputs`: the blocks in order, each checked from its
     * entry state; the first rejected block makes the verdict false, and a
     * block without an entry state is a fatal error.
     */
    method VerifyInstructionInputs() returns (r: Result<bool>)
      requires Valid() && UsesRecorded()
      ensures ProgramReady(ProgramViews())
      ensures r == VerifyBlocks(blockEntryStates, ProgramViews())
    {
      ProgramReadyWhenRecorded();
      ghost var code := ProgramViews();
      r := Ok(true);
      var i := 0;
      while i < |blocks| && r == Ok(true)
        invariant 0 <= i <= |blocks|
        invariant VerifyBlocks(blockEntryStates, code[..i]) == r
      {
        if i !in blockEntryStates {
          VerifyBlocksStep(blockEntryStates, code, i, Err(MissingEntryState));
          r := Err(MissingEntryState);
        } else {
          var replayed := ReplayBlock(i);
          assert code[i] == BlockViews(i);
          VerifyBlocksStep(blockEntryStates, code, i, replayed);
          r := BlockVerdict(replayed);
        }
        i := i + 1;
      }
      if r != Ok(true) {
        VerdictPersists(blockEntryStates, code, i);
      } else {
        assert code[..i] == code;
      }
    }

    /**
     * `run`: the worklist pass, then the checking pass from the entry states it
     * computed. A verdict means the worklist settled and the verdict is that of
     * the checking pass.
     */
    method Run(fuel: nat)
      returns (r: RunResult, ghost entryUsed: map<nat, MachineState>, ghost viewsUsed: map<nat, seq<InstrView>>)
      requires Valid() && UsesRecorded() && blockStates == map[] && blockEntryStates.Keys == {start}
      modifies this, currArrays
      ensures Valid() && ProgramReady(ProgramViews())
      ensures forall a :: a in currArrays && a !in PhiArrays() ==> a[..] == old(a[..])
      ensures r.Verdict? ==>
        Settled(blocks, blockEntryStates, blockStates) &&
        blockEntryStates.Keys <= blockStates.Keys && start in blockStates &&
        Traced(blockEntryStates, blockStates, entryUsed, viewsUsed) &&
        VerifyBlocks(blockEntryStates, ProgramViews()) == Ok(r.valid)
      ensures r.Verdict? && old(PhiSafe()) ==>
        PhiSafe() && ViewsFollow(blockStates, viewsUsed, ProgramViews())
      ensures r.Verdict? && old(PhiSafe()) && old(blockEntryStates[start]) == Empty ==>
        Bounded(blocks, blockEntryStates, blockStates)
    {
      var outcome;
      outcome, entryUsed, viewsUsed := CalculateEntryBlocks(fuel);
      ProgramReadyWhenRecorded();
      if outcome.OutOfFuel? {
        return Exhausted, entryUsed, viewsUsed;
      }
      if outcome.Failed? {
        return Aborted(outcome.error), entryUsed, viewsUsed;
      }
      ghost var code, safe := ProgramViews(), PhiSafe();
      var verdict := VerifyInstructionInputs();
      assert ProgramViews() == code && PhiSafe() == safe;
      if verdict.Err? {
        return Aborted(verdict.error), entryUsed, viewsUsed;
      }
      return Verdict(verdict.value), entryUsed, viewsUsed;
    }
  }
}
