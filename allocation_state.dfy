/**
 * The allocation-state lattice: what the verifier knows about the content of
 * one physical location. Unknown knows nothing, ValueState holds exactly one
 * symbol, Conflicted records that incoming paths disagree.
 */
module AllocationStates {
  import opened Values

  /**
   * Conflicted keeps the list of values it was built from and that later
   * meets append to; the verifier never reads that list back.
   */
  datatype AllocationState =
    | Unknown
    | ValueState(value: Value)
    | Conflicted(values: seq<Value>)

  /**
   * `a.meet(b)` as the three Java classes implement it: the receiver decides.
   * Unknown yields the argument; a Value keeps itself against Unknown or an equal
   * Value, gives way to a Conflicted argument and becomes Conflicted against a
   * different Value; a Conflicted state appends whatever the argument holds.
   */
  function Meet(a: AllocationState, b: AllocationState): (r: AllocationState)
    ensures a.Unknown? ==> r == b
    ensures b.Unknown? ==> r == a
    ensures a.ValueState? && b.ValueState? && a.value == b.value ==> r == a
    ensures a.ValueState? && b.ValueState? && a.value != b.value ==>
              r == Conflicted([a.value, b.value])
    ensures a.Conflicted? || b.Conflicted? ==> r.Conflicted?
  {
    match a
    case Unknown => b
    case ValueState(v) =>
      if b.Unknown? then a
      else if b.Conflicted? then b
      else if v != b.value then Conflicted([v, b.value])
      else a
    case Conflicted(vs) =>
      match b
      case Unknown => a
      case ValueState(w) => Conflicted(vs + [w])
      case Conflicted(ws) => Conflicted(vs + ws)
  }

  /**
   * `a.equals(b)`, the coarse equality used for change detection: Unknown equals
   * only Unknown, a Value equals a Value with the same payload, and a Conflicted
   * state equals every Conflicted state whatever its list holds.
   */
  predicate Equals(a: AllocationState, b: AllocationState) {
    match a
    case Unknown => b.Unknown?
    case ValueState(v) => b.ValueState? && b.value == v
    case Conflicted(_) => b.Conflicted?
  }

  /** The height of a state in the lattice: Unknown below Value below Conflicted. */
  function Rank(a: AllocationState): (r: nat)
    ensures r <= 2
  {
    match a
    case Unknown => 0
    case ValueState(_) => 1
    case Conflicted(_) => 2
  }

  /** Two states are coarsely equal exactly when they have the same rank and, for Values, the same payload. */
  lemma EqualsIsEquivalence(a: AllocationState, b: AllocationState, c: AllocationState)
    ensures Equals(a, a)
    ensures Equals(a, b) <==> Equals(b, a)
    ensures Equals(a, b) && Equals(b, c) ==> Equals(a, c)
    ensures Equals(a, b) <==> Rank(a) == Rank(b) && (a.ValueState? ==> a == b)
  {
  }

  /** Meet is commutative, up to the coarse equality. */
  lemma MeetCommutes(a: AllocationState, b: AllocationState)
    ensures Equals(Meet(a, b), Meet(b, a))
  {
  }

  /** Meet is associative, up to the coarse equality. */
  lemma MeetAssociates(a: AllocationState, b: AllocationState, c: AllocationState)
    ensures Equals(Meet(Meet(a, b), c), Meet(a, Meet(b, c)))
  {
  }

  /** Meet is idempotent, up to the coarse equality. */
  lemma MeetIdempotent(a: AllocationState)
    ensures Equals(Meet(a, a), a)
  {
  }

  /**
   * Meet never moves down the lattice: the result is at least as high as either
   * operand, so a Conflicted location never becomes a precise Value again.
   */
  lemma MeetMonotone(a: AllocationState, b: AllocationState)
    ensures Rank(Meet(a, b)) >= Rank(a) && Rank(Meet(a, b)) >= Rank(b)
    ensures Rank(a) == 2 ==> Rank(Meet(a, b)) == 2
  {
  }

  /**
   * When meeting `b` into `a` does not change `a` (in the coarse sense), `a`
   * absorbs `b`: `b` is Unknown, `a` is Conflicted, or both are the same Value.
   */
  lemma AbsorbsIff(a: AllocationState, b: AllocationState)
    ensures Equals(a, Meet(a, b)) <==> b.Unknown? || a.Conflicted? || (a.ValueState? && a == b)
  {
  }

  /**
   * Absorption survives any further meet into the absorbing state: once `a`
   * absorbs `b`, so does `Meet(a, c)` for every `c`.
   */
  lemma AbsorbsStable(a: AllocationState, b: AllocationState, c: AllocationState)
    requires Equals(a, Meet(a, b))
    ensures Equals(Meet(a, c), Meet(Meet(a, c), b))
  {
    AbsorbsIff(a, b);
    AbsorbsIff(Meet(a, c), b);
  }

  /** Meeting the same argument a second time changes nothing, in the coarse sense. */
  lemma MeetSettles(a: AllocationState, b: AllocationState)
    ensures Equals(Meet(a, b), Meet(Meet(a, b), b))
  {
    AbsorbsIff(Meet(a, b), b);
  }
}
