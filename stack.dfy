// The bounded last-in-first-out stack of employee records: a fixed-capacity
// array `items` and the index `top` of the most recent record, -1 when the
// stack is empty.

module EmployeeStack {
  import opened Employees

  /** The failure `pop` signals (by throwing) when there is nothing to pop. */
  datatype StackError = StackEmpty

  datatype Result<T, E> = Success(value: T) | Failure(error: E)

  /** What `display` shows: the "empty" notice, or the records listed from
      the top of the stack down to the bottom. */
  datatype Listing = EmptyNotice | Entries(topToBottom: seq<Employee>)

  /** `listing` shows `stored` (bottom first) as `display` does: the notice
      exactly when nothing is stored, otherwise every record, top first. */
  ghost predicate Lists(listing: Listing, stored: seq<Employee>) {
    && (listing.EmptyNotice? <==> stored == [])
    && (listing.Entries? ==>
          && |listing.topToBottom| == |stored|
          && forall k :: 0 <= k < |stored| ==> listing.topToBottom[k] == stored[|stored| - 1 - k])
  }

  class Stack {
    const size: int
    var top: int
    const items: array<Employee>

    ghost predicate Valid()
      reads this
    {
      items.Length == size && -1 <= top < size
    }

    /** The stored records, bottom first: the slots 0..top of `items`. */
    ghost function Contents(): seq<Employee>
      reads this, items
      requires Valid()
    {
      items[..top + 1]
    }

    constructor (size: int)
      requires size > 0
      ensures Valid() && fresh(items)
      ensures this.size == size && Contents() == []
    {
      this.size := size;
      top := -1;
      items := new Employee[size];
    }

    /** Refuses when the stack is full; otherwise stores `data` on top. */
    method Push(data: Employee) returns (ok: bool)
      requires Valid()
      modifies this, items
      ensures Valid()
      ensures ok <==> |old(Contents())| < size
      ensures ok ==> Contents() == old(Contents()) + [data]
      ensures ok ==> items[..] == old(items[..])[old(top) + 1 := data]
      ensures !ok ==> top == old(top) && items[..] == old(items[..])
    {
      if top == size - 1 {
        return false;
      }
      top := top + 1;
      items[top] := data;
      return true;
    }

    /** Fails with StackEmpty when nothing is stored; otherwise removes and
        returns the most recently pushed record. The array is not written. */
    method Pop() returns (r: Result<Employee, StackError>)
      requires Valid()
      modifies this`top
      ensures Valid()
      ensures old(Contents()) == [] ==> r == Failure(StackEmpty) && top == old(top)
      ensures old(Contents()) != [] ==>
                && r == Success(old(Contents())[|old(Contents())| - 1])
                && Contents() == old(Contents())[..|old(Contents())| - 1]
    {
      if top == -1 {
        return Failure(StackEmpty);
      }
      r := Success(items[top]);
      top := top - 1;
    }

    /** Walks the array from `top` down to slot 0. */
    method Display() returns (listing: Listing)
      requires Valid()
      ensures Lists(listing, Contents())
    {
      if top == -1 {
        return EmptyNotice;
      }
      var shown: seq<Employee> := [];
      var i := top;
      while i >= 0
        invariant -1 <= i <= top
        invariant |shown| == top - i
        invariant forall k :: 0 <= k < |shown| ==> shown[k] == items[top - k]
      {
        shown := shown + [items[i]];
        i := i - 1;
      }
      return Entries(shown);
    }

    /** Linear scan of the stored records for `id`. */
    method IsIdUnique(id: int) returns (unique: bool)
      requires Valid()
      ensures unique <==> IdFree(Contents(), id)
    {
      for i := 0 to top + 1
        invariant forall k :: 0 <= k < i ==> items[k].id != id
      {
        if items[i].id == id {
          return false;
        }
      }
      return true;
    }

    /** The number of stored records. */
    function GetSize(): (n: int)
      reads this, items
      requires Valid()
      ensures n == |Contents()|
      ensures 0 <= n <= size
    {
      top + 1
    }
  }

  /** Push followed by pop on a stack that is not full hands back the pushed
      record and leaves the stack as it was. */
  method PushThenPop(stack: Stack, e: Employee) returns (r: Result<Employee, StackError>)
    requires stack.Valid()
    requires stack.GetSize() < stack.size
    modifies stack, stack.items
    ensures stack.Valid()
    ensures r == Success(e)
    ensures stack.Contents() == old(stack.Contents())
  {
    var ok := stack.Push(e);
    r := stack.Pop();
  }

  /** A stack of capacity 2 taken through three pushes, a display and three
      pops: the third push and the third pop fail, and records come back in
      reverse order. */
  method CapacityTwoScenario()
  {
    var stack := new Stack(2);
    var a, b, c := Employee(1, "A"), Employee(2, "B"), Employee(3, "C");
    var ok := stack.Push(a);
    assert ok;
    ok := stack.Push(b);
    assert ok;
    ok := stack.Push(c);
    assert !ok && stack.Contents() == [a, b];
    var listing := stack.Display();
    assert listing.topToBottom == [b, a];
    var r := stack.Pop();
    assert r == Success(b);
    r := stack.Pop();
    assert r == Success(a);
    r := stack.Pop();
    assert r == Failure(StackEmpty) && stack.GetSize() == 0;
  }
}
