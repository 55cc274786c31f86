// What the program does with the stack when a menu item is activated:
// `addEmployee` (reprompt for an id, then for a name, then push), the
// display, and the delete (pop). Typed-in values are given as the finite
// sequence of entries the user would type, in order; when the entries run out
// before one is accepted the operation reports that instead of waiting.

module Session {
  import opened Employees
  import opened EmployeeStack
  import Menu

  datatype AddOutcome =
    | Added(employee: Employee)
    | Full
    | NoAcceptableId
    | NoValidName
    | PushRefused(employee: Employee)

  datatype ActionOutcome =
    | AddDone(add: AddOutcome)
    | Shown(listing: Listing)
    | Deleted(popped: Result<Employee, StackError>)

  /** `id` is the first entry of `ids` that is non-negative and unused. */
  ghost predicate FirstAcceptableId(stored: seq<Employee>, ids: seq<int>, id: int) {
    exists k :: 0 <= k < |ids| && ids[k] == id && AcceptableId(stored, id) &&
      forall j :: 0 <= j < k ==> !AcceptableId(stored, ids[j])
  }

  /** `name` is the first entry of `names` made of letters and spaces only. */
  ghost predicate FirstValidName(names: seq<string>, name: string) {
    exists k :: 0 <= k < |names| && names[k] == name && ValidName(name) &&
      forall j :: 0 <= j < k ==> !ValidName(names[j])
  }

  /** The id prompt: rejects a negative entry, then an entry already in use,
      and stops at the first one that passes both. `k == |ids|` when none
      does. */
  method ReadId(stack: Stack, ids: seq<int>) returns (k: nat)
    requires stack.Valid()
    ensures k <= |ids|
    ensures k < |ids| ==> AcceptableId(stack.Contents(), ids[k])
    ensures forall j :: 0 <= j < k ==> !AcceptableId(stack.Contents(), ids[j])
  {
    k := 0;
    while k < |ids|
      invariant k <= |ids|
      invariant forall j :: 0 <= j < k ==> !AcceptableId(stack.Contents(), ids[j])
    {
      var id := ids[k];
      if id < 0 {
        k := k + 1;
        continue;
      }
      var unique := stack.IsIdUnique(id);
      if unique {
        return;
      }
      k := k + 1;
    }
  }

  /** The name prompt: stops at the first entry made of letters and spaces
      only. `k == |names|` when none is. */
  method ReadName(names: seq<string>) returns (k: nat)
    ensures k <= |names|
    ensures k < |names| ==> ValidName(names[k])
    ensures forall j :: 0 <= j < k ==> !ValidName(names[j])
  {
    k := 0;
    while k < |names|
      invariant k <= |names|
      invariant forall j :: 0 <= j < k ==> !ValidName(names[j])
    {
      var valid := IsValidEmployeeName(names[k]);
      if valid {
        return;
      }
      k := k + 1;
    }
  }

  /** What `addEmployee` does to a stack holding `before` (bottom first) of
      capacity `capacity`, leaving `after`: it refuses exactly when `before`
      already has `stackSize` records; it asks for a name only once an id has
      been accepted; it pushes the record made of the first acceptable id and
      the first valid name; every other outcome leaves the records as they
      were; and the ids stay distinct and non-negative. */
  ghost predicate AddsEmployee(before: seq<Employee>, after: seq<Employee>, stackSize: int, capacity: int,
                               ids: seq<int>, names: seq<string>, outcome: AddOutcome)
  {
    && (outcome == Full <==> |before| == stackSize)
    && (outcome.Added? ==> after == before + [outcome.employee])
    && (!outcome.Added? ==> after == before)
    && (outcome.Added? || outcome.PushRefused? ==>
          && FirstAcceptableId(before, ids, outcome.employee.id)
          && FirstValidName(names, outcome.employee.name))
    && (outcome == NoAcceptableId ==> forall j :: 0 <= j < |ids| ==> !AcceptableId(before, ids[j]))
    && (outcome == NoValidName ==>
          && (exists j :: 0 <= j < |ids| && AcceptableId(before, ids[j]))
          && (forall j :: 0 <= j < |names| ==> !ValidName(names[j])))
    && (outcome.PushRefused? ==> |before| == capacity)
    && (stackSize == capacity ==> !outcome.PushRefused?)
    && (WellKeyed(before) ==> WellKeyed(after))
  }

  /** `addEmployee`: refuses when the stack already holds `stackSize`
      records; otherwise reads an acceptable id and a valid name and pushes
      the record. */
  method AddEmployee(stack: Stack, stackSize: int, ids: seq<int>, names: seq<string>)
    returns (outcome: AddOutcome)
    requires stack.Valid()
    modifies stack, stack.items
    ensures stack.Valid()
    ensures AddsEmployee(old(stack.Contents()), stack.Contents(), stackSize, stack.size, ids, names, outcome)
  {
    if stack.GetSize() == stackSize {
      return Full;
    }
    var i := ReadId(stack, ids);
    if i == |ids| {
      return NoAcceptableId;
    }
    var n := ReadName(names);
    if n == |names| {
      assert AcceptableId(stack.Contents(), ids[i]);
      return NoValidName;
    }
    var emp := Employee(ids[i], names[n]);
    ghost var before := stack.Contents();
    var ok := stack.Push(emp);
    if ok {
      if WellKeyed(before) {
        AcceptedIdKeepsWellKeyed(before, emp);
      }
      outcome := Added(emp);
    } else {
      outcome := PushRefused(emp);
    }
  }

  /** Enter on a menu item: New adds an employee, Display lists the stack,
      Delete pops its top record or reports that it is empty. */
  method Activate(stack: Stack, stackSize: int, cursor: Menu.Cursor, ids: seq<int>, names: seq<string>)
    returns (outcome: ActionOutcome)
    requires stack.Valid()
    modifies stack, stack.items
    ensures stack.Valid()
    ensures Menu.ItemAt(cursor) == Menu.New <==> outcome.AddDone?
    ensures Menu.ItemAt(cursor) == Menu.Display <==> outcome.Shown?
    ensures Menu.ItemAt(cursor) == Menu.Delete <==> outcome.Deleted?
    ensures outcome.AddDone? ==>
              AddsEmployee(old(stack.Contents()), stack.Contents(), stackSize, stack.size, ids, names, outcome.add)
    ensures outcome.Shown? ==>
              && stack.Contents() == old(stack.Contents())
              && Lists(outcome.listing, stack.Contents())
    ensures outcome.Deleted? && old(stack.Contents()) == [] ==>
              outcome.popped == Failure(StackEmpty) && stack.Contents() == []
    ensures outcome.Deleted? && old(stack.Contents()) != [] ==>
              && outcome.popped == Success(old(stack.Contents())[|old(stack.Contents())| - 1])
              && stack.Contents() == old(stack.Contents())[..|old(stack.Contents())| - 1]
    ensures WellKeyed(old(stack.Contents())) ==> WellKeyed(stack.Contents())
  {
    match Menu.ItemAt(cursor)
    case New =>
      var added := AddEmployee(stack, stackSize, ids, names);
      outcome := AddDone(added);
    case Display =>
      var listing := stack.Display();
      outcome := Shown(listing);
    case Delete =>
      ghost var before := stack.Contents();
      var popped := stack.Pop();
      if WellKeyed(before) && before != [] {
        PrefixKeepsWellKeyed(before, |before| - 1);
      }
      outcome := Deleted(popped);
  }

  /** Enter on New, taken through its outcomes: a record is added to an empty
      stack, a full stack is refused before any prompt, and a name is never
      asked for when no id was accepted. */
  method NewItemScenario()
  {
    var stack := new Stack(2);
    assert ValidName(["A"][0]) && AcceptableId([], [1][0]);
    var o := Activate(stack, 2, 0, [1], ["A"]);
    assert o.add.Added?;
    assert o == AddDone(Added(Employee(1, "A")));

    var single := new Stack(1);
    var ok := single.Push(Employee(7, "B"));
    o := Activate(single, 1, 0, [1], ["A"]);
    assert o == AddDone(Full);

    var other := new Stack(2);
    assert !ValidName("3") by { assert !IsNameChar("3"[0]); }
    var added := AddEmployee(other, 2, [-1], ["3"]);
    assert added == NoAcceptableId;
  }
}
