/**
 * The per-location state map (HashAllocationStateMap): a dictionary from a
 * location to its allocation state, read with Unknown as the default, merged
 * point-wise with the lattice's meet, and searched backwards for a variable.
 * The verifier state owns two of these and reassigns them; they are values here.
 */
module StateMaps {
  import opened Values
  import opened AllocationStates

  type StateMap = map<Value, AllocationState>

  /** `get`: never null, an absent key reads as Unknown. */
  function Get(m: StateMap, key: Value): (r: AllocationState)
    ensures key in m ==> r == m[key]
    ensures key !in m ==> r == Unknown
  {
    if key in m then m[key] else Unknown
  }

  /**
   * `putClone`: stores the state under the key (a clone of it, which as a value
   * is the state itself), also when the state is Unknown, and changes no other key.
   */
  function PutClone(m: StateMap, key: Value, s: AllocationState): (r: StateMap)
    ensures r.Keys == m.Keys + {key}
    ensures r[key] == s && Get(r, key) == s
    ensures forall k :: k in m && k != key ==> r[k] == m[k]
  {
    m[key := s]
  }

  /**
   * The map `mergeWith` leaves behind: every key of the source now holds the
   * meet of the old state (Unknown when absent) with the source's state; every
   * other key is untouched.
   */
  function MergedMap(target: StateMap, source: StateMap): (r: StateMap)
    ensures r.Keys == target.Keys + source.Keys
    ensures forall k :: k in source ==> r[k] == Meet(Get(target, k), source[k])
    ensures forall k :: k in target && k !in source ==> r[k] == target[k]
  {
    map k | k in target.Keys + source.Keys ::
      if k in source then Meet(Get(target, k), source[k]) else target[k]
  }

  /**
   * The flag `mergeWith` returns: some key of the source was absent from the
   * target, or its met state is not `equals` to the old one.
   */
  predicate MergeChanged(target: StateMap, source: StateMap) {
    exists k :: k in source && (k !in target || !Equals(target[k], Meet(target[k], source[k])))
  }

  /** `mergeWith`, as the loop over the source's entries that the Java code runs. */
  method MergeWith(target: StateMap, source: StateMap) returns (merged: StateMap, changed: bool)
    ensures merged == MergedMap(target, source)
    ensures changed == MergeChanged(target, source)
  {
    merged, changed := target, false;
    var todo := source.Keys;
    while todo != {}
      invariant todo <= source.Keys
      invariant merged.Keys == target.Keys + (source.Keys - todo)
      invariant forall k :: k in merged ==>
        merged[k] == if k in source && k !in todo then Meet(Get(target, k), source[k]) else target[k]
      invariant changed <==> (exists k :: k in source && k !in todo &&
                                (k !in target || !Equals(target[k], Meet(target[k], source[k]))))
      decreases todo
    {
      var k :| k in todo;
      if k !in merged {
        changed := true;
        merged := merged[k := Unknown];
      }
      var current := Get(merged, k);
      var result := Meet(current, source[k]);
      if !Equals(current, result) {
        changed := true;
      }
      merged := merged[k := result];
      todo := todo - {k};
    }
    assert merged == MergedMap(target, source);
  }

  /** The locations whose state is exactly the Value of the given variable. */
  function LocationsOf(m: StateMap, variable: nat): set<Value> {
    set k | k in m && m[k] == ValueState(Variable(variable))
  }

  /** `getVariableLocations`: the reverse lookup, scanning every entry of the map. */
  method VariableLocations(m: StateMap, variable: nat) returns (locations: set<Value>)
    ensures forall k :: k in locations <==> k in m && m[k] == ValueState(Variable(variable))
    ensures locations == LocationsOf(m, variable)
  {
    locations := {};
    var todo := m.Keys;
    while todo != {}
      invariant todo <= m.Keys
      invariant forall k :: k in locations <==>
        k in m && k !in todo && m[k] == ValueState(Variable(variable))
      decreases todo
    {
      var k :| k in todo;
      if m[k].ValueState? && m[k].value == Variable(variable) {
        locations := locations + {k};
      }
      todo := todo - {k};
    }
  }

  /** A merge reports no change exactly when the target already absorbs every source entry. */
  lemma UnchangedIff(target: StateMap, source: StateMap)
    ensures !MergeChanged(target, source) <==>
      (forall k :: k in source ==>
         (k in target && (source[k].Unknown? || target[k].Conflicted? || (target[k].ValueState? && target[k] == source[k]))))
  {
    forall k | k in source && k in target {
      AbsorbsIff(target[k], source[k]);
    }
  }

  /** Merging the same source a second time reports no change. */
  lemma MergeSettles(target: StateMap, source: StateMap)
    ensures !MergeChanged(MergedMap(target, source), source)
  {
    var m := MergedMap(target, source);
    forall k | k in source
      ensures Equals(m[k], Meet(m[k], source[k]))
    {
      MeetSettles(Get(target, k), source[k]);
    }
  }

  /** Once a target absorbs a source, it still does after any further merge. */
  lemma MergeKeepsSettled(target: StateMap, source: StateMap, other: StateMap)
    requires !MergeChanged(target, source)
    ensures !MergeChanged(MergedMap(target, other), source)
  {
    var m := MergedMap(target, other);
    forall k | k in source
      ensures k in m && Equals(m[k], Meet(m[k], source[k]))
    {
      assert k in target && Equals(target[k], Meet(target[k], source[k]));
      if k in other {
        AbsorbsStable(target[k], source[k], other[k]);
      }
    }
  }

  /** A merge that reports no change adds no key; from an empty target, only an empty source. */
  lemma UnchangedKeepsKeys(target: StateMap, source: StateMap)
    requires !MergeChanged(target, source)
    ensures MergedMap(target, source).Keys == target.Keys
    ensures target == map[] ==> source == map[]
  {
  }

  /**
   * Merging never moves a location down the lattice: a Value can become
   * Conflicted, a Conflicted location stays Conflicted.
   */
  lemma MergeMonotone(target: StateMap, source: StateMap, k: Value)
    requires k in target
    ensures Rank(MergedMap(target, source)[k]) >= Rank(target[k])
    ensures target[k].Conflicted? ==> MergedMap(target, source)[k].Conflicted?
  {
    if k in source {
      MeetMonotone(target[k], source[k]);
    }
  }
}
