/**
 * The string-set registry of 2_strset: a global map from ids to sets of strings, ids handed
 * out by a counter, and the "42 set", created on first use by strset42() and holding exactly
 * "42" from then on.
 *
 * The registry's globals (stored_sets, next_id, was_it_created, id42) are the fields of
 * `Registry`; each strset_* entry point is a method (or, when it only reads, a function) of it.
 * What every call does to the globals is stated by a function on `State` values, and the
 * properties the C API documents are proved about those functions.
 */
module Strset {
  import opened Wrappers
  import opened SetOrder

  /** A snapshot of the registry's globals. */
  datatype State = State(sets: map<nat, set<string>>, nextId: nat, created42: bool, id42: nat)

  /** A C string argument: None is the null pointer. */
  type Value = Option<string>

  const Initial := State(map[], 0, false, 0)

  /** Every stored id was handed out by the counter, and once created the 42 set is there. */
  predicate Wellformed(st: State) {
    (forall id :: id in st.sets ==> id < st.nextId) &&
    (st.created42 ==> st.id42 in st.sets)
  }

  /** Between calls the 42 set, once created, is exactly {"42"}. */
  predicate Valid(st: State) {
    Wellformed(st) && (st.created42 ==> st.sets[st.id42] == {"42"})
  }

  /** The set stored under id, a missing set read as the empty set (strset_comp). */
  function SetOrEmpty(st: State, id: nat): set<string> {
    if id in st.sets then st.sets[id] else {}
  }

  // ---------------------------------------------------------------------------------------
  // What each entry point does to the globals

  /** strset_new: the id is the counter's value, the counter moves on, the id maps to {}. */
  function NewSpec(st: State): (r: (State, nat))
    requires Wellformed(st)
    ensures r.1 == st.nextId && r.1 !in st.sets
    ensures r.0.nextId == st.nextId + 1
    ensures r.0.sets.Keys == st.sets.Keys + {r.1} && r.0.sets[r.1] == {}
    ensures forall k :: k in st.sets ==> r.0.sets[k] == st.sets[k]
    ensures r.0.created42 == st.created42 && r.0.id42 == st.id42
    ensures Wellformed(r.0) && (Valid(st) ==> Valid(r.0))
  {
    (st.(sets := st.sets[st.nextId := {}], nextId := st.nextId + 1), st.nextId)
  }

  /**
   * strset42(): on the first call a new set is made with strset_new, recorded as the 42 set and
   * given the element "42"; later calls change nothing.
   */
  function With42(st: State): (r: State)
    requires Wellformed(st)
    ensures r.created42 && r.id42 in r.sets && (Valid(st) ==> r.sets[r.id42] == {"42"})
    ensures st.created42 ==> r == st
    ensures !st.created42 ==>
      r.id42 == st.nextId && r.nextId == st.nextId + 1 && r.sets == st.sets[st.nextId := {"42"}]
    ensures Wellformed(r) && (Valid(st) ==> Valid(r))
  {
    if st.created42 then st
    else st.(sets := st.sets[st.nextId := {"42"}], nextId := st.nextId + 1, created42 := true, id42 := st.nextId)
  }

  /**
   * The 42 set made the way strset42() makes it: a new set, the flag raised, then "42"
   * inserted through strset_insert.
   */
  lemma FortyTwoBuilt(st: State)
    requires Wellformed(st) && !st.created42
    ensures var made := NewSpec(st).0.(created42 := true, id42 := st.nextId);
            Wellformed(made) && InsertSpec(made, st.nextId, Some("42")) == With42(st)
  {
    var made := NewSpec(st).0.(created42 := true, id42 := st.nextId);
    assert made.sets[st.nextId] + {"42"} == {"42"};
    assert made.sets[st.nextId := {"42"}] == st.sets[st.nextId := {"42"}];
  }

  /**
   * strset_delete: a missing id changes nothing; otherwise strset42() runs, and the set is
   * erased unless it is the 42 set.
   */
  function DeleteSpec(st: State, id: nat): (r: State)
    requires Wellformed(st)
    ensures Wellformed(r) && (Valid(st) ==> Valid(r))
    ensures id !in st.sets ==> r == st
    ensures id in st.sets ==> (id !in r.sets <==> !(st.created42 && id == st.id42))
    ensures forall k :: k in st.sets && k != id ==> k in r.sets && r.sets[k] == st.sets[k]
  {
    if id !in st.sets then st
    else
      var st' := With42(st);
      if id == st'.id42 then st' else st'.(sets := st'.sets - {id})
  }

  /**
   * strset_insert: nothing for a null value or a missing set; otherwise strset42() runs, the
   * 42 set takes an element only while it is empty, and any other set gains the value.
   */
  function InsertSpec(st: State, id: nat, value: Value): (r: State)
    requires Wellformed(st)
    ensures Wellformed(r) && (Valid(st) ==> Valid(r))
    ensures value.None? || id !in st.sets ==> r == st
    ensures value.Some? && id in st.sets && !(st.created42 && id == st.id42) ==>
      id in r.sets && r.sets[id] == st.sets[id] + {value.value}
    ensures forall k :: k in st.sets && k != id ==> k in r.sets && r.sets[k] == st.sets[k]
  {
    if value.None? || id !in st.sets then st
    else
      var st' := With42(st);
      if id == st'.id42 && st'.sets[id] != {} then st'
      else if value.value in st'.sets[id] then st'
      else st'.(sets := st'.sets[id := st'.sets[id] + {value.value}])
  }

  /**
   * strset_remove: nothing for a null value, a missing set or the 42 set (strset42() runs
   * after the existence check); otherwise the value is erased if present.
   */
  function RemoveSpec(st: State, id: nat, value: Value): (r: State)
    requires Wellformed(st)
    ensures Wellformed(r) && (Valid(st) ==> Valid(r))
    ensures value.None? || id !in st.sets ==> r == st
    ensures value.Some? && id in st.sets && !(st.created42 && id == st.id42) ==>
      id in r.sets && r.sets[id] == st.sets[id] - {value.value}
    ensures forall k :: k in st.sets && k != id ==> k in r.sets && r.sets[k] == st.sets[k]
  {
    if value.None? || id !in st.sets then st
    else
      var st' := With42(st);
      if id == st'.id42 then st'
      else if value.value !in st'.sets[id] then st'
      else st'.(sets := st'.sets[id := st'.sets[id] - {value.value}])
  }

  /** strset_clear: a missing set or the 42 set is left alone; any other set is emptied. */
  function ClearSpec(st: State, id: nat): (r: State)
    requires Wellformed(st)
    ensures Wellformed(r) && (Valid(st) ==> Valid(r))
    ensures id !in st.sets ==> r == st
    ensures id in st.sets && !(st.created42 && id == st.id42) ==> id in r.sets && r.sets[id] == {}
    ensures forall k :: k in st.sets && k != id ==> k in r.sets && r.sets[k] == st.sets[k]
  {
    if id !in st.sets then st
    else
      var st' := With42(st);
      if id == st'.id42 then st' else st'.(sets := st'.sets[id := {}])
  }

  // ---------------------------------------------------------------------------------------
  // The registry

  class Registry {
    var sets: map<nat, set<string>>   // stored_sets()
    var nextId: nat                   // next_id
    var created42: bool               // was_it_created
    var id42: nat                     // id42

    function Snapshot(): State
      reads this
    {
      State(sets, nextId, created42, id42)
    }

    /** The globals before the first call: no sets, counter 0, no 42 set. */
    constructor ()
      ensures Snapshot() == Initial && Valid(Snapshot())
    {
      sets := map[];
      nextId := 0;
      created42 := false;
      id42 := 0;
    }

    /** strset_new */
    method New() returns (id: nat)
      requires Wellformed(Snapshot())
      modifies this
      ensures (Snapshot(), id) == NewSpec(old(Snapshot()))
    {
      id := nextId;
      nextId := nextId + 1;
      sets := sets[id := {}];
    }

    /**
     * strset42(). was_it_created is set before "42" is inserted, so the strset42() call made
     * inside that strset_insert returns id42 instead of creating a second set.
     */
    method Strset42() returns (id: nat)
      requires Wellformed(Snapshot())
      modifies this
      ensures Snapshot() == With42(old(Snapshot()))
      ensures id == id42 && id in sets && created42
      decreases if created42 then 0 else 2
    {
      if !created42 {
        FortyTwoBuilt(Snapshot());
        id42 := New();
        created42 := true;
        Insert(id42, Some("42"));
      }
      id := id42;
    }

    /** strset_delete */
    method Delete(id: nat)
      requires Wellformed(Snapshot())
      modifies this
      ensures Snapshot() == DeleteSpec(old(Snapshot()), id)
    {
      if id !in sets {
        return;
      }
      var fortyTwo := Strset42();
      if id == fortyTwo {
        return;
      }
      sets := sets - {id};
    }

    /** strset_size: the number of elements, 0 for a missing set. */
    function Size(id: nat): (n: nat)
      reads this
      ensures n == |SetOrEmpty(Snapshot(), id)|
    {
      if id !in sets then 0 else |sets[id]|
    }

    /** strset_insert */
    method Insert(id: nat, value: Value)
      requires Wellformed(Snapshot())
      modifies this
      ensures Snapshot() == InsertSpec(old(Snapshot()), id, value)
      decreases if created42 then 1 else 3
    {
      if value.None? {
        return;
      }
      if id !in sets {
        return;
      }
      var fortyTwo := Strset42();
      if id == fortyTwo && sets[id] != {} {
        return;
      }
      if value.value !in sets[id] {
        sets := sets[id := sets[id] + {value.value}];
      }
    }

    /** strset_remove */
    method Remove(id: nat, value: Value)
      requires Wellformed(Snapshot())
      modifies this
      ensures Snapshot() == RemoveSpec(old(Snapshot()), id, value)
    {
      if value.None? {
        return;
      }
      if id !in sets {
        return;
      }
      var fortyTwo := Strset42();
      if id == fortyTwo {
        return;
      }
      if value.value in sets[id] {
        sets := sets[id := sets[id] - {value.value}];
      }
    }

    /** strset_test: 1 when the value is non-null, the set exists and holds it; otherwise 0. */
    function Test(id: nat, value: Value): (r: int)
      reads this
      ensures r == 1 <==> value.Some? && value.value in SetOrEmpty(Snapshot(), id)
      ensures r == 0 || r == 1
    {
      if value.None? then 0
      else if id !in sets then 0
      else if value.value in sets[id] then 1
      else 0
    }

    /** strset_clear */
    method Clear(id: nat)
      requires Wellformed(Snapshot())
      modifies this
      ensures Snapshot() == ClearSpec(old(Snapshot()), id)
    {
      if id !in sets {
        return;
      }
      var fortyTwo := Strset42();
      if id == fortyTwo {
        return;
      }
      sets := sets[id := {}];
    }

    /** strset_comp: the -1/0/1 comparison of the ascending sets, a missing set read as empty. */
    function Comp(id1: nat, id2: nat): (r: int)
      reads this
      ensures r in {-1, 0, 1}
      ensures r == 0 <==> SetOrEmpty(Snapshot(), id1) == SetOrEmpty(Snapshot(), id2)
      ensures r == -1 <==> LexLess(Sorted(SetOrEmpty(Snapshot(), id1)), Sorted(SetOrEmpty(Snapshot(), id2)))
    {
      var first := if id1 in sets then sets[id1] else {};
      var second := if id2 in sets then sets[id2] else {};
      CompareSetsAntisymmetric(first, second);
      CompareSeqsIsLexicographic(Sorted(first), Sorted(second));
      CompareSets(first, second)
    }
  }

  // ---------------------------------------------------------------------------------------
  // Properties across calls

  /** Inserting the same value twice is the same as inserting it once. */
  lemma InsertIdempotent(st: State, id: nat, value: Value)
    requires Valid(st)
    ensures InsertSpec(InsertSpec(st, id, value), id, value) == InsertSpec(st, id, value)
  {
    if value.Some? && id in st.sets {
      var st1 := InsertSpec(st, id, value);
      assert st1.created42 && With42(st1) == st1;
      if st1.id42 == id {
        assert st1.sets[id] == {"42"};
      }
    }
  }

  /** Removing what was just inserted into an ordinary set restores it when the value was new. */
  lemma InsertThenRemove(st: State, id: nat, v: string)
    requires Valid(st) && id in st.sets && !(st.created42 && id == st.id42) && v !in st.sets[id]
    ensures RemoveSpec(InsertSpec(st, id, Some(v)), id, Some(v)).sets[id] == st.sets[id]
  {
  }

  /** After an insert into an ordinary existing set, strset_test reports the value. */
  lemma InsertThenTest(st: State, id: nat, v: string)
    requires Valid(st) && id in st.sets && !(st.created42 && id == st.id42)
    ensures v in SetOrEmpty(InsertSpec(st, id, Some(v)), id)
    ensures |SetOrEmpty(InsertSpec(st, id, Some(v)), id)| == |st.sets[id]| + (if v in st.sets[id] then 0 else 1)
  {
  }

  /** Nothing an entry point does can change or remove the 42 set once it exists. */
  lemma FortyTwoSetIsFixed(st: State, id: nat, value: Value)
    requires Valid(st) && st.created42
    ensures DeleteSpec(st, id).id42 == st.id42 && DeleteSpec(st, id).sets[st.id42] == {"42"}
    ensures InsertSpec(st, id, value).sets[st.id42] == {"42"}
    ensures RemoveSpec(st, id, value).sets[st.id42] == {"42"}
    ensures ClearSpec(st, id).sets[st.id42] == {"42"}
    ensures With42(st) == st
  {
  }

  /** The first strset42() call, from the initial state, makes set 0 the 42 set and uses one id. */
  lemma FirstFortyTwo()
    ensures With42(Initial) == State(map[0 := {"42"}], 1, true, 0)
    ensures With42(With42(Initial)) == With42(Initial)
  {
  }

  /**
   * A delete, insert, remove or clear on an existing set can create the 42 set and use up an id;
   * so strset_new after strset_delete on the first set returns 2, not 1.
   */
  lemma EntryPointsCanAllocate()
    ensures var (st1, first) := NewSpec(Initial);
      var st2 := DeleteSpec(st1, first);
      first == 0 && st2.created42 && st2.id42 == 1 && NewSpec(st2).1 == 2
  {
  }
}
