/**
 * The remote document store, reduced to the three collections the assignment engine
 * touches: supervisors, the `supervisorId` field of each user document, and projects.
 * Also the supervisor counter arithmetic shared by registration and reassignment, and
 * the bookkeeping invariant the engine is meant to keep: a supervisor's
 * `currentStudents` equals the number of students pointing at it.
 */
module Directory {
  import opened Wrappers
  import opened Records

  /** A document of the `supervisors` collection; the numeric fields may be absent. */
  datatype Supervisor = Supervisor(
    id: string,
    name: Option<string>,
    schoolId: string,
    departmentId: string,
    active: bool,
    currentStudents: Option<int>,
    maxStudents: Option<int>)

  const DefaultMaxStudents := 5
  const UnknownSupervisor := "Unknown Supervisor"

  /** `getLong("currentStudents") ?: 0` */
  function CurrentOf(s: Supervisor): int {
    s.currentStudents.GetOr(0)
  }

  /** `getLong("maxStudents") ?: 5` */
  function MaxOf(s: Supervisor): int {
    s.maxStudents.GetOr(DefaultMaxStudents)
  }

  /** The capacity test of every selection tier. */
  predicate HasRoom(s: Supervisor) {
    CurrentOf(s) < MaxOf(s)
  }

  function NameOf(s: Supervisor): string {
    s.name.GetOr(UnknownSupervisor)
  }

  /** Document ids are non-empty and unique within the collection. */
  ghost predicate WellFormed(sups: seq<Supervisor>) {
    (forall i :: 0 <= i < |sups| ==> sups[i].id != "") &&
    (forall i, j :: 0 <= i < j < |sups| ==> sups[i].id != sups[j].id)
  }

  /**
   * The in-memory store. `students` maps a user document id to its `supervisorId`
   * field, "" standing for both an empty and an absent field.
   */
  class Store {
    var supervisors: seq<Supervisor>
    var students: map<string, string>
    var projects: seq<Project>

    ghost predicate Valid()
      reads this
    {
      WellFormed(supervisors)
    }

    constructor (supervisors: seq<Supervisor>, students: map<string, string>, projects: seq<Project>)
      ensures this.supervisors == supervisors && this.students == students
      ensures this.projects == projects
    {
      this.supervisors := supervisors;
      this.students := students;
      this.projects := projects;
    }
  }

  /** `supervisors.document(id).get()`: the position of the document, if it exists. */
  function Lookup(sups: seq<Supervisor>, id: string): (r: Option<nat>)
    ensures r.Some? ==> r.value < |sups| && sups[r.value].id == id
    ensures r.None? ==> forall i :: 0 <= i < |sups| ==> sups[i].id != id
  {
    if sups == [] then None
    else if sups[0].id == id then Some(0)
    else match Lookup(sups[1..], id)
      case Some(i) => Some(i + 1)
      case None => None
  }

  /** Every document with the given id gets its counter set to `f(count)`. */
  function SetCounts(sups: seq<Supervisor>, id: string, change: int, floor: bool): (r: seq<Supervisor>)
    ensures |r| == |sups|
  {
    seq(|sups|, i requires 0 <= i < |sups| =>
      if sups[i].id == id then sups[i].(currentStudents := Some(Adjusted(CurrentOf(sups[i]), change, floor)))
      else sups[i])
  }

  function Adjusted(count: int, change: int, floor: bool): int {
    if floor && count + change < 0 then 0 else count + change
  }

  /**
   * The registration transaction on document `id`: read the count (absent = 0) and write
   * count + 1. A missing document makes the transaction fail, so nothing changes.
   */
  function Incremented(sups: seq<Supervisor>, id: string): (r: seq<Supervisor>)
    ensures |r| == |sups|
    ensures forall i :: 0 <= i < |sups| && sups[i].id == id ==>
      CurrentOf(r[i]) == CurrentOf(sups[i]) + 1 && r[i].(currentStudents := sups[i].currentStudents) == sups[i]
    ensures forall i :: 0 <= i < |sups| && sups[i].id != id ==> r[i] == sups[i]
  {
    SetCounts(sups, id, 1, false)
  }

  /**
   * The reassignment counter update on document `id`: write `max(0, count + change)`;
   * a missing document is left alone.
   */
  function Shifted(sups: seq<Supervisor>, id: string, change: int): (r: seq<Supervisor>)
    ensures |r| == |sups|
    ensures forall i :: 0 <= i < |sups| && sups[i].id == id ==>
      CurrentOf(r[i]) >= 0 &&
      (CurrentOf(sups[i]) + change >= 0 ==> CurrentOf(r[i]) == CurrentOf(sups[i]) + change) &&
      r[i].(currentStudents := sups[i].currentStudents) == sups[i]
    ensures forall i :: 0 <= i < |sups| && sups[i].id != id ==> r[i] == sups[i]
  {
    SetCounts(sups, id, change, true)
  }

  /** With unique ids, the increment touches exactly the looked-up document. */
  lemma IncrementedAt(sups: seq<Supervisor>, id: string, i: nat)
    requires WellFormed(sups) && i < |sups| && sups[i].id == id
    ensures Incremented(sups, id) == sups[i := sups[i].(currentStudents := Some(CurrentOf(sups[i]) + 1))]
  {
  }

  lemma ShiftedAt(sups: seq<Supervisor>, id: string, change: int, i: nat)
    requires WellFormed(sups) && i < |sups| && sups[i].id == id
    ensures Shifted(sups, id, change) == sups[i := sups[i].(currentStudents := Some(Adjusted(CurrentOf(sups[i]), change, true)))]
  {
  }

  /** Counter updates never change ids, so well-formedness is kept. */
  lemma SetCountsWellFormed(sups: seq<Supervisor>, id: string, change: int, floor: bool)
    requires WellFormed(sups)
    ensures WellFormed(SetCounts(sups, id, change, floor))
  {
    var r := SetCounts(sups, id, change, floor);
    assert forall i :: 0 <= i < |sups| ==> r[i].id == sups[i].id;
  }

  /** One counter operation, as issued by registration or by the administrator. */
  datatype CounterOp = Increment(id: string) | Shift(id: string, change: int)

  function ApplyOp(sups: seq<Supervisor>, op: CounterOp): seq<Supervisor> {
    match op
    case Increment(id) => Incremented(sups, id)
    case Shift(id, change) => Shifted(sups, id, change)
  }

  function ApplyOps(sups: seq<Supervisor>, ops: seq<CounterOp>): seq<Supervisor>
    decreases |ops|
  {
    if ops == [] then sups else ApplyOps(ApplyOp(sups, ops[0]), ops[1..])
  }

  ghost predicate CountsNonNegative(sups: seq<Supervisor>) {
    forall i :: 0 <= i < |sups| ==> CurrentOf(sups[i]) >= 0
  }

  /** No sequence of increments and floored shifts drives a counter below zero. */
  lemma {:induction false} CountsStayNonNegative(sups: seq<Supervisor>, ops: seq<CounterOp>)
    requires CountsNonNegative(sups)
    ensures CountsNonNegative(ApplyOps(sups, ops))
    decreases |ops|
  {
    if ops != [] {
      var next := ApplyOp(sups, ops[0]);
      assert CountsNonNegative(next);
      CountsStayNonNegative(next, ops[1..]);
    }
  }

  /** The number of user documents whose `supervisorId` is `id`. */
  ghost function StudentsOf(students: map<string, string>, id: string): nat {
    |PointingAt(students, id)|
  }

  /** The bookkeeping invariant: every counter equals the number of students assigned. */
  ghost predicate LoadConsistent(sups: seq<Supervisor>, students: map<string, string>) {
    forall i :: 0 <= i < |sups| ==> CurrentOf(sups[i]) == StudentsOf(students, sups[i].id)
  }

  /** The students pointing at `x`, the set whose size `StudentsOf` counts. */
  ghost function PointingAt(students: map<string, string>, x: string): set<string> {
    set v | v in students && students[v] == x
  }

  /** Pointing one user document at `b` moves exactly that user between the counts. */
  lemma StudentsOfAfterPoint(students: map<string, string>, u: string, b: string, x: string)
    ensures StudentsOf(students[u := b], x) ==
      StudentsOf(students, x) - (if u in students && students[u] == x then 1 else 0) + (if b == x then 1 else 0)
  {
    var before := PointingAt(students, x);
    var after := PointingAt(students[u := b], x);
    PointingAfterUpdate(students, u, b, x);
    SizeWithout(after, u);
    SizeWithout(before, u);
  }

  lemma PointingAfterUpdate(students: map<string, string>, u: string, b: string, x: string)
    ensures PointingAt(students[u := b], x) - {u} == PointingAt(students, x) - {u}
    ensures u in PointingAt(students[u := b], x) <==> b == x
    ensures u in PointingAt(students, x) <==> u in students && students[u] == x
  {
    var m := students[u := b];
    forall v | v != u
      ensures v in PointingAt(m, x) <==> v in PointingAt(students, x)
    {
      assert v in m <==> v in students;
    }
  }

  lemma SizeWithout(s: set<string>, u: string)
    ensures |s| == |s - {u}| + (if u in s then 1 else 0)
  {
    if u in s {
      assert s == (s - {u}) + {u};
    } else {
      assert s == s - {u};
    }
  }

  /** Students assigned to a supervisor make its count positive under the invariant. */
  lemma AssignedCountPositive(sups: seq<Supervisor>, students: map<string, string>, u: string, i: nat)
    requires LoadConsistent(sups, students) && i < |sups|
    requires u in students && students[u] == sups[i].id
    ensures CurrentOf(sups[i]) >= 1
  {
    assert u in PointingAt(students, sups[i].id);
  }
}
