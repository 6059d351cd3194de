/** Value semantics of OrderedSet.swift: programs over variables that share storage compute
    what they would compute with plain sequences. */
module OrderedSetSharing {
  import opened OrderedSetSpec
  import opened OrderedSetModel

  datatype Operation<!T> =
    | Append(object': T)
    | Remove(object': T)
    | Swap(first: T, second: T)
    | Move(object': T, index: nat)
    | Insert(object': T, index: nat)
    | InsertSequence(objects: seq<T>, index: nat)
    | RemoveAll(shouldBeRemoved: T -> bool)

  /** An index out of bounds is a fatal error in the source. */
  predicate InBounds<T(!new)>(op: Operation<T>, s: seq<T>) {
    match op
    case Move(_, i) => i < |s|
    case Insert(_, i) => i <= |s|
    case InsertSequence(_, i) => i <= |s|
    case _ => true
  }

  ghost function After<T(!new)>(op: Operation<T>, s: seq<T>): seq<T>
    requires InBounds(op, s)
  {
    match op
    case Append(x) => Appended(s, x)
    case Remove(x) => Without(s, x)
    case Swap(x, y) => Swapped(s, x, y)
    case Move(x, i) => Moved(s, x, i)
    case Insert(x, i) => Inserted(s, x, i)
    case InsertSequence(objects, i) => InsertedAll(s, objects, i)
    case RemoveAll(p) => Filtered(s, Not(p))
  }

  method Apply<T(==,!new)>(a: OrderedSet<T>, op: Operation<T>)
    requires a.Valid() && InBounds(op, a.View())
    modifies a, a.sequencedContents, a.OwnCells()
    ensures a.Valid() && a.View() == After(op, old(a.View())) && a.KeepsShares(old(a.sequencedContents))
  {
    match op
    case Append(x) => a.Append(x);
    case Remove(x) => var _ := a.Remove(x);
    case Swap(x, y) => a.SwapObject(x, y);
    case Move(x, i) => a.MoveObject(x, i);
    case Insert(x, i) => a.Insert(x, i);
    case InsertSequence(objects, i) => a.InsertAll(objects, i);
    case RemoveAll(p) => var _ := a.RemoveAllWhere(p);
  }

  /** Two sets have one storage, or no cell in common. */
  ghost predicate Compatible<T>(a: OrderedSet<T>, b: OrderedSet<T>)
    reads a, b, a.sequencedContents, b.sequencedContents
  {
    || a.sequencedContents == b.sequencedContents
    || forall i, j | 0 <= i < |a.sequencedContents.pointers| && 0 <= j < |b.sequencedContents.pointers| ::
         a.sequencedContents.pointers[i] != b.sequencedContents.pointers[j]
  }

  ghost predicate Variables<T>(sets: seq<OrderedSet<T>>)
    reads sets, set i | 0 <= i < |sets| :: sets[i].sequencedContents
    reads set i, k | 0 <= i < |sets| && 0 <= k < |sets[i].sequencedContents.pointers| :: sets[i].sequencedContents.pointers[k]
  {
    && (forall i | 0 <= i < |sets| :: sets[i].Valid())
    && (forall i, j | 0 <= i < j < |sets| :: sets[i] != sets[j])
    && (forall i, j | 0 <= i < |sets| && 0 <= j < |sets| :: Compatible(sets[i], sets[j]))
  }

  /** The variables with all storage and cells they reach. */
  ghost function Footprint<T>(sets: seq<OrderedSet<T>>): set<object>
    reads sets, set i | 0 <= i < |sets| :: sets[i].sequencedContents
  {
    (set i | 0 <= i < |sets| :: sets[i] as object) +
    (set i | 0 <= i < |sets| :: sets[i].sequencedContents as object) +
    (set i, k | 0 <= i < |sets| && 0 <= k < |sets[i].sequencedContents.pointers| ::
       sets[i].sequencedContents.pointers[k] as object)
  }

  /** An operation on one variable is not seen through any other. */
  method ApplyTo<T(==,!new)>(sets: seq<OrderedSet<T>>, i: nat, op: Operation<T>)
    requires Variables(sets) && i < |sets| && InBounds(op, sets[i].View())
    modifies sets[i], sets[i].sequencedContents, sets[i].OwnCells()
    ensures sets[i].KeepsShares(old(sets[i].sequencedContents))
    ensures Variables(sets) && sets[i].View() == After(op, old(sets[i].View()))
    ensures forall j | 0 <= j < |sets| && j != i :: sets[j].View() == old(sets[j].View())
  {
    hide Mirrors, After;
    Apply(sets[i], op);
    forall j | 0 <= j < |sets| && j != i
      ensures sets[j].Valid() && sets[j].View() == old(sets[j].View())
      ensures Compatible(sets[i], sets[j]) && Compatible(sets[j], sets[i])
    {
      assert sets[j].sequencedContents == old(sets[j].sequencedContents);
      assert old(Compatible(sets[i], sets[j]));
      var storage := sets[j].sequencedContents;
      assert storage.pointers == old(storage.pointers);
      assert forall k | 0 <= k < |storage.pointers| :: storage.pointers[k] !in old(sets[i].OwnCells());
      assert forall k | 0 <= k < |storage.pointers| :: storage.pointers[k].pointee == old(storage.pointers[k].pointee);
      assert old(sets[j].Valid()) && sets[j].StorageOk();
      assert sets[j].View() == old(sets[j].View());
      assert sets[j].contents == old(sets[j].contents);
    }
    forall j, k | 0 <= j < |sets| && 0 <= k < |sets| && j != i && k != i
      ensures Compatible(sets[j], sets[k])
    {
      assert old(Compatible(sets[j], sets[k]));
    }
  }

  // ---------- Programs ----------

  datatype Statement<!T> =
    | Declare(objects: seq<T>)
    | Assign(source: nat)
    | Change(variable: nat, op: Operation<T>)

  /** The statement names declared variables and its index is in bounds. */
  predicate Meaningful<T(!new)>(statement: Statement<T>, values: seq<seq<T>>) {
    match statement
    case Declare(_) => true
    case Assign(v) => v < |values|
    case Change(v, op) => v < |values| && InBounds(op, values[v])
  }

  /** What a statement does when variables hold sequences, which share nothing. */
  ghost function Result<T(!new)>(statement: Statement<T>, values: seq<seq<T>>): seq<seq<T>>
    requires Meaningful(statement, values)
  {
    match statement
    case Declare(objects) => values + [Added([], objects)]
    case Assign(v) => values + [values[v]]
    case Change(v, op) => values[v := After(op, values[v])]
  }

  ghost predicate Runs<T(!new)>(program: seq<Statement<T>>)
    decreases |program|, 0
  {
    program == [] ||
    var n := |program| - 1;
    Runs(program[..n]) && Meaningful(program[n], Results(program[..n]))
  }

  ghost function Results<T(!new)>(program: seq<Statement<T>>): seq<seq<T>>
    requires Runs(program)
    decreases |program|, 1
  {
    if program == [] then [] else
    var n := |program| - 1;
    Result(program[n], Results(program[..n]))
  }

  ghost predicate Holds<T>(sets: seq<OrderedSet<T>>, values: seq<seq<T>>)
    reads sets, set i | 0 <= i < |sets| :: sets[i].sequencedContents
    reads set i, k | 0 <= i < |sets| && 0 <= k < |sets[i].sequencedContents.pointers| :: sets[i].sequencedContents.pointers[k]
  {
    Variables(sets) && |sets| == |values| && forall i | 0 <= i < |sets| :: sets[i].View() == values[i]
  }

  lemma {:induction false} RunsBefore<T(!new)>(program: seq<Statement<T>>, k: nat)
    requires Runs(program) && k <= |program|
    ensures Runs(program[..k])
  {
    if k == |program| {
      assert program[..k] == program;
    } else {
      var n := |program| - 1;
      RunsBefore(program[..n], k);
      assert program[..n][..k] == program[..k];
    }
  }

  lemma NothingRuns<T(!new)>()
    ensures Runs<T>([]) && Results<T>([]) == []
  {
  }

  lemma NothingHolds<T>()
    ensures Holds<T>([], []) && Footprint<T>([]) == {}
  {
  }

  lemma ResultsNext<T(!new)>(program: seq<Statement<T>>, k: nat)
    requires Runs(program) && k < |program|
    ensures Runs(program[..k]) && Runs(program[..k + 1])
    ensures Meaningful(program[k], Results(program[..k]))
    ensures Results(program[..k + 1]) == Result(program[k], Results(program[..k]))
  {
    RunsBefore(program, k);
    RunsBefore(program, k + 1);
    assert program[..k + 1][..k] == program[..k];
  }

  /** A new variable, from a sequence or by assignment, beside the ones there are. */
  method DeclareVariable<T(==,!new)>(sets: seq<OrderedSet<T>>, objects: seq<T>) returns (sets': seq<OrderedSet<T>>)
    requires Variables(sets)
    ensures Variables(sets') && |sets'| == |sets| + 1 && sets'[..|sets|] == sets
    ensures forall i | 0 <= i < |sets| :: sets'[i].View() == old(sets[i].View())
    ensures sets'[|sets|].View() == Added([], objects)
    ensures fresh(Footprint(sets') - old(Footprint(sets)))
  {
    hide Mirrors, Added, Variables;
    sets' := DeclareSet(sets, objects);
    assert forall i | 0 <= i < |sets| :: sets'[i] == sets[i];
  }

  method DeclareSet<T(==,!new)>(sets: seq<OrderedSet<T>>, objects: seq<T>) returns (sets': seq<OrderedSet<T>>)
    requires Variables(sets)
    ensures Variables(sets') && |sets'| == |sets| + 1 && sets'[..|sets|] == sets
    ensures forall i | 0 <= i < |sets| :: sets'[i].View() == old(sets[i].View())
    ensures sets'[|sets|].View() == Added([], objects) && fresh(sets'[|sets|])
    ensures fresh(sets'[|sets|].sequencedContents) && fresh(sets'[|sets|].sequencedContents.pointers)
  {
    hide Mirrors, Added;
    var new' := new OrderedSet.From(objects);
    sets' := sets + [new'];
    forall i, j | 0 <= i < |sets'| && 0 <= j < |sets'| ensures Compatible(sets'[i], sets'[j]) {
    }
  }

  method AssignTo<T(==,!new)>(sets: seq<OrderedSet<T>>, v: nat) returns (sets': seq<OrderedSet<T>>)
    requires Variables(sets) && v < |sets|
    modifies sets[v].sequencedContents`owners
    ensures Variables(sets') && |sets'| == |sets| + 1 && sets'[..|sets|] == sets
    ensures forall i | 0 <= i < |sets| :: sets'[i].View() == old(sets[i].View())
    ensures sets'[|sets|].View() == old(sets[v].View())
    ensures fresh(sets'[|sets|]) && sets'[|sets|].sequencedContents == old(sets[v].sequencedContents)
  {
    hide Mirrors;
    var new' := new OrderedSet.Shared(sets[v]);
    sets' := sets + [new'];
  }

  method AssignVariable<T(==,!new)>(sets: seq<OrderedSet<T>>, v: nat) returns (sets': seq<OrderedSet<T>>)
    requires Variables(sets) && v < |sets|
    modifies Footprint(sets)
    ensures fresh(Footprint(sets') - old(Footprint(sets)))
    ensures Variables(sets') && |sets'| == |sets| + 1 && sets'[..|sets|] == sets
    ensures forall i | 0 <= i < |sets| :: sets'[i].View() == old(sets[i].View())
    ensures sets'[|sets|].View() == old(sets[v].View())
  {
    hide Mirrors, Variables;
    sets' := AssignTo(sets, v);
    assert forall i | 0 <= i < |sets| :: sets'[i] == sets[i];
  }

  method ChangeVariable<T(==,!new)>(sets: seq<OrderedSet<T>>, v: nat, op: Operation<T>)
    requires Variables(sets) && v < |sets| && InBounds(op, sets[v].View())
    modifies Footprint(sets)
    ensures fresh(Footprint(sets) - old(Footprint(sets)))
    ensures Variables(sets) && sets[v].View() == After(op, old(sets[v].View()))
    ensures forall j | 0 <= j < |sets| && j != v :: sets[j].View() == old(sets[j].View())
  {
    hide Mirrors, After, Variables;
    ApplyTo(sets, v, op);
  }

  method ExecuteStatement<T(==,!new)>(sets: seq<OrderedSet<T>>, statement: Statement<T>, ghost values: seq<seq<T>>)
    returns (sets': seq<OrderedSet<T>>)
    requires Holds(sets, values) && Meaningful(statement, values)
    modifies Footprint(sets)
    ensures Holds(sets', Result(statement, values)) && fresh(Footprint(sets') - old(Footprint(sets)))
  {
    hide Mirrors, After, Added, Variables, Footprint;
    match statement
    case Declare(objects) => sets' := DeclareVariable(sets, objects);
    case Assign(v) => sets' := AssignVariable(sets, v);
    case Change(v, op) =>
      ChangeVariable(sets, v, op);
      sets' := sets;
  }

  /** Any program over variables that share storage computes what it computes on plain sequences. */
  method Execute<T(==,!new)>(program: seq<Statement<T>>) returns (sets: seq<OrderedSet<T>>)
    requires Runs(program)
    ensures Holds(sets, Results(program)) && fresh(Footprint(sets))
  {
    hide Runs, Results, Meaningful, Result, Holds, Footprint;
    sets := [];
    NothingRuns<T>();
    NothingHolds<T>();
    assert program[..0] == [];
    for k := 0 to |program|
      invariant Runs(program[..k]) && Holds(sets, Results(program[..k])) && fresh(Footprint(sets))
    {
      ResultsNext(program, k);
      ghost var footprint := Footprint(sets);
      sets := ExecuteStatement(sets, program[k], Results(program[..k]));
      forall o | o in Footprint(sets) ensures fresh(o) {
        assert o in footprint || o in Footprint(sets) - footprint;
      }
    }
    assert program[..|program|] == program;
  }
}
