// Employee records and the acceptance rules that `addEmployee` applies to
// them before they are pushed: a name is made of letters and spaces only, an
// id is non-negative and not already held by a stored record.

module Employees {

  /** One record of the stack: an integer id and a free-text name. */
  datatype Employee = Employee(id: int, name: string)

  /** The letters `isalpha` accepts in the "C" locale: ASCII A-Z and a-z. */
  predicate IsAsciiLetter(c: char) {
    'A' <= c <= 'Z' || 'a' <= c <= 'z'
  }

  /** A character allowed in an employee name: a letter or a space. */
  predicate IsNameChar(c: char) {
    IsAsciiLetter(c) || c == ' '
  }

  /** Every character of `name` is a letter or a space (so "" qualifies). */
  predicate ValidName(name: string) {
    forall i :: 0 <= i < |name| ==> IsNameChar(name[i])
  }

  /** Scans `name` and stops at the first character that is neither a letter
      nor a space. */
  method IsValidEmployeeName(name: string) returns (valid: bool)
    ensures valid <==> ValidName(name)
  {
    for i := 0 to |name|
      invariant forall j :: 0 <= j < i ==> IsNameChar(name[j])
    {
      if !IsAsciiLetter(name[i]) && name[i] != ' ' {
        return false;
      }
    }
    return true;
  }

  lemma NameExamples()
    ensures ValidName("Ann Lee")
    ensures !ValidName("Ann3")
    ensures ValidName("")
  {
    assert !IsNameChar("Ann3"[3]);
  }

  /** No stored record carries `id`. */
  predicate IdFree(stored: seq<Employee>, id: int) {
    forall k :: 0 <= k < |stored| ==> stored[k].id != id
  }

  /** The id test of `addEmployee`: non-negative and not yet used. */
  predicate AcceptableId(stored: seq<Employee>, id: int) {
    id >= 0 && IdFree(stored, id)
  }

  /** The invariant that `addEmployee` keeps for the records in the stack:
      every id is non-negative and no two records share an id. */
  ghost predicate WellKeyed(stored: seq<Employee>) {
    && (forall k :: 0 <= k < |stored| ==> stored[k].id >= 0)
    && (forall j, k :: 0 <= j < k < |stored| ==> stored[j].id != stored[k].id)
  }

  /** Pushing a record whose id passed the test keeps the ids distinct and
      non-negative. */
  lemma AcceptedIdKeepsWellKeyed(stored: seq<Employee>, e: Employee)
    requires WellKeyed(stored)
    requires AcceptableId(stored, e.id)
    ensures WellKeyed(stored + [e])
  {
  }

  /** Without the id test the invariant can break: a duplicate id is pushed. */
  lemma DuplicateIdBreaksWellKeyed(stored: seq<Employee>, e: Employee)
    requires WellKeyed(stored)
    requires !IdFree(stored, e.id)
    ensures !WellKeyed(stored + [e])
  {
    var k :| 0 <= k < |stored| && stored[k].id == e.id;
    assert (stored + [e])[k].id == (stored + [e])[|stored|].id;
  }

  /** Popping keeps a prefix of the records, which stays well keyed. */
  lemma PrefixKeepsWellKeyed(stored: seq<Employee>, n: nat)
    requires WellKeyed(stored)
    requires n <= |stored|
    ensures WellKeyed(stored[..n])
  {
  }
}
