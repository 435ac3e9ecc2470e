/**
 * Student registration (RegisterActivity): the department filter of the sign-up form,
 * the three-tier supervisor selection, the counter transaction, and the registration
 * step that writes the user document and then bumps the chosen supervisor's counter.
 */
module Registration {
  import opened Wrappers
  import opened Text
  import opened Seqs
  import opened Directory

  // ---------------------------------------------------------------- departments

  datatype DepartmentItem = DepartmentItem(id: string, name: string, schoolId: string)

  function OfSchool(schoolId: string): DepartmentItem -> bool {
    (d: DepartmentItem) => d.schoolId == schoolId
  }

  /** The departments offered once a school is chosen. */
  function DepartmentsOfSchool(departments: seq<DepartmentItem>, schoolId: string): (r: seq<DepartmentItem>)
    ensures forall d :: d in r <==> d in departments && d.schoolId == schoolId
    ensures forall k :: 0 <= k < |r| ==> r[k].schoolId == schoolId
  {
    Filter(departments, OfSchool(schoolId))
  }

  /** The filter keeps the departments' original order. */
  lemma DepartmentsOfSchoolKeepOrder(a: seq<DepartmentItem>, b: seq<DepartmentItem>, schoolId: string)
    ensures DepartmentsOfSchool(a + b, schoolId) == DepartmentsOfSchool(a, schoolId) + DepartmentsOfSchool(b, schoolId)
  {
    FilterConcat(a, b, OfSchool(schoolId));
  }

  /** The sign-up form's department lists. */
  class RegisterForm {
    var departments: seq<DepartmentItem>
    var filteredDepartments: seq<DepartmentItem>

    constructor (departments: seq<DepartmentItem>)
      ensures this.departments == departments && filteredDepartments == []
    {
      this.departments := departments;
      filteredDepartments := [];
    }

    /** Clears the filtered list and refills it with the chosen school's departments. */
    method UpdateDepartments(schoolId: string)
      modifies this`filteredDepartments
      ensures filteredDepartments == DepartmentsOfSchool(departments, schoolId)
    {
      filteredDepartments := [];
      filteredDepartments := filteredDepartments + DepartmentsOfSchool(departments, schoolId);
    }
  }

  // ---------------------------------------------------------------- queries

  /** `orderBy("currentStudents")` */
  function ByLoad(a: Supervisor, b: Supervisor): bool {
    CurrentOf(a) <= CurrentOf(b)
  }

  /** `orderBy("departmentId").orderBy("currentStudents")` */
  function ByDepartmentThenLoad(a: Supervisor, b: Supervisor): bool {
    if a.departmentId == b.departmentId then CurrentOf(a) <= CurrentOf(b)
    else LexLe(a.departmentId, b.departmentId)
  }

  lemma ByLoadIsTotalPreorder()
    ensures TotalPreorder(ByLoad)
  {
  }

  lemma ByDepartmentThenLoadIsTotalPreorder()
    ensures TotalPreorder(ByDepartmentThenLoad)
  {
    forall a, b
      ensures ByDepartmentThenLoad(a, b) || ByDepartmentThenLoad(b, a)
    {
      LexLeTotal(a.departmentId, b.departmentId);
    }
    forall a, b, c | ByDepartmentThenLoad(a, b) && ByDepartmentThenLoad(b, c)
      ensures ByDepartmentThenLoad(a, c)
    {
      if a.departmentId != b.departmentId && b.departmentId != c.departmentId {
        LexLeTransitive(a.departmentId, b.departmentId, c.departmentId);
        if a.departmentId == c.departmentId {
          LexLeAntisymmetric(a.departmentId, b.departmentId);
        }
      }
    }
  }

  function InDepartment(departmentId: string): Supervisor -> bool {
    (s: Supervisor) => s.departmentId == departmentId && s.active
  }

  function InSchoolElsewhere(schoolId: string, departmentId: string): Supervisor -> bool {
    (s: Supervisor) => s.schoolId == schoolId && s.departmentId != departmentId && s.active
  }

  function IsActive(s: Supervisor): bool {
    s.active
  }

  /** Tier 1 query: active supervisors of the department, least loaded first. */
  function DepartmentQuery(sups: seq<Supervisor>, departmentId: string): (q: seq<Supervisor>)
    ensures forall s :: s in q <==> s in sups && s.active && s.departmentId == departmentId
    ensures Sorted(q, ByLoad)
  {
    var f := Filter(sups, InDepartment(departmentId));
    ByLoadIsTotalPreorder();
    SortWithSorted(f, ByLoad);
    SortWithKeepsMembers(f, ByLoad);
    SortWith(f, ByLoad)
  }

  /** Tier 2 query: active supervisors of the school outside the department. */
  function SchoolQuery(sups: seq<Supervisor>, schoolId: string, departmentId: string): (q: seq<Supervisor>)
    ensures forall s :: s in q <==>
      s in sups && s.active && s.schoolId == schoolId && s.departmentId != departmentId
    ensures Sorted(q, ByDepartmentThenLoad)
  {
    var f := Filter(sups, InSchoolElsewhere(schoolId, departmentId));
    ByDepartmentThenLoadIsTotalPreorder();
    SortWithSorted(f, ByDepartmentThenLoad);
    SortWithKeepsMembers(f, ByDepartmentThenLoad);
    SortWith(f, ByDepartmentThenLoad)
  }

  /** Tier 3 query: every active supervisor, least loaded first. */
  function ActiveQuery(sups: seq<Supervisor>): (q: seq<Supervisor>)
    ensures forall s :: s in q <==> s in sups && s.active
    ensures Sorted(q, ByLoad)
  {
    var f := Filter(sups, IsActive);
    ByLoadIsTotalPreorder();
    SortWithSorted(f, ByLoad);
    SortWithKeepsMembers(f, ByLoad);
    SortWith(f, ByLoad)
  }

  lemma SortWithKeepsMembers(s: seq<Supervisor>, le: (Supervisor, Supervisor) -> bool)
    ensures forall x :: x in SortWith(s, le) <==> x in s
  {
    forall x
      ensures x in SortWith(s, le) <==> x in s
    {
      SortWithSameElements(s, le, x);
    }
  }

  // ---------------------------------------------------------------- selection

  /** The position the `for` loop of a tier stops at: the first candidate with room. */
  function FirstWithRoom(candidates: seq<Supervisor>): (i: nat)
    ensures i <= |candidates|
    ensures i < |candidates| ==> HasRoom(candidates[i])
    ensures forall k :: 0 <= k < i ==> !HasRoom(candidates[k])
  {
    if candidates == [] then 0
    else if HasRoom(candidates[0]) then 0
    else 1 + FirstWithRoom(candidates[1..])
  }

  /** In a sorted candidate list the first one with room comes no later than any other one with room. */
  lemma FirstWithRoomIsLeast(q: seq<Supervisor>, le: (Supervisor, Supervisor) -> bool)
    requires TotalPreorder(le) && Sorted(q, le)
    ensures forall s :: s in q && HasRoom(s) ==> FirstWithRoom(q) < |q| && le(q[FirstWithRoom(q)], s)
  {
    var i := FirstWithRoom(q);
    forall s | s in q && HasRoom(s)
      ensures i < |q| && le(q[i], s)
    {
      var j :| 0 <= j < |q| && q[j] == s;
      if j == i {
        assert le(s, s) || le(s, s);
      } else {
        assert i < j;
      }
    }
  }

  /** Which query of the chain failed at the data layer. */
  datatype TierFaults = TierFaults(tier1: bool, tier2: bool, tier3: bool)

  const NoFaults := TierFaults(false, false, false)

  /** The `(supervisorId, supervisorName)` pair handed to the registration callback. */
  datatype Assignment = Assignment(supervisorId: string, supervisorName: string)

  /** The "assign later" sentinel. */
  const NoAssignment := Assignment("", "")

  function AssignmentOf(s: Supervisor): Assignment {
    Assignment(s.id, NameOf(s))
  }

  /** Tier 1: the least loaded active supervisor of the department with room. */
  function Tier1(sups: seq<Supervisor>, departmentId: string, failed: bool): (r: Option<Supervisor>)
    ensures r.Some? ==> r.value in sups && r.value.active && r.value.departmentId == departmentId && HasRoom(r.value)
    ensures r.Some? ==> forall s :: s in sups && s.active && s.departmentId == departmentId && HasRoom(s) ==>
      CurrentOf(r.value) <= CurrentOf(s)
    ensures r.None? <==> failed || forall s :: s in sups && s.active && s.departmentId == departmentId ==> !HasRoom(s)
  {
    if failed then None
    else
      var q := DepartmentQuery(sups, departmentId);
      var i := FirstWithRoom(q);
      ByLoadIsTotalPreorder();
      FirstWithRoomIsLeast(q, ByLoad);
      if i < |q| then Some(q[i]) else None
  }

  /** Tier 2: the first supervisor with room in (department id, load) order, elsewhere in the school. */
  function Tier2(sups: seq<Supervisor>, schoolId: string, departmentId: string, failed: bool): (r: Option<Supervisor>)
    ensures r.Some? ==> (r.value in sups && r.value.active && r.value.schoolId == schoolId &&
                         r.value.departmentId != departmentId && HasRoom(r.value))
    ensures r.Some? ==> forall s :: (s in sups && s.active && s.schoolId == schoolId &&
                                     s.departmentId != departmentId && HasRoom(s)) ==> ByDepartmentThenLoad(r.value, s)
    ensures r.None? <==> failed || forall s :: (s in sups && s.active && s.schoolId == schoolId &&
                                                s.departmentId != departmentId) ==> !HasRoom(s)
  {
    if failed then None
    else
      var q := SchoolQuery(sups, schoolId, departmentId);
      var i := FirstWithRoom(q);
      ByDepartmentThenLoadIsTotalPreorder();
      FirstWithRoomIsLeast(q, ByDepartmentThenLoad);
      if i < |q| then Some(q[i]) else None
  }

  /** `limit(1)` on the active query: the least loaded active supervisor, if any. */
  function LeastLoadedActive(sups: seq<Supervisor>): (r: Option<Supervisor>)
    ensures r.Some? ==> (r.value in sups && r.value.active &&
                         forall s :: s in sups && s.active ==> CurrentOf(r.value) <= CurrentOf(s))
    ensures r.None? <==> forall s :: s in sups ==> !s.active
  {
    var q := ActiveQuery(sups);
    if q == [] then None
    else
      assert forall s :: s in q ==> s == q[0] || ByLoad(q[0], s);
      Some(q[0])
  }

  /** Tier 3: the least loaded active supervisor, taken only if it has room. */
  function Tier3(sups: seq<Supervisor>, failed: bool): (r: Option<Supervisor>)
    ensures r.Some? ==> (r.value in sups && r.value.active && HasRoom(r.value) &&
                         forall s :: s in sups && s.active ==> CurrentOf(r.value) <= CurrentOf(s))
    ensures r.None? <==> failed || LeastLoadedActive(sups).None? || !HasRoom(LeastLoadedActive(sups).value)
  {
    if failed then None
    else match LeastLoadedActive(sups)
      case None => None
      case Some(s) => if HasRoom(s) then Some(s) else None
  }

  /** The whole fallback chain: department, then school, then anyone, then the sentinel. */
  function FindAssignment(sups: seq<Supervisor>, schoolId: string, departmentId: string, faults: TierFaults): (a: Assignment)
    ensures a == NoAssignment || exists s :: s in sups && s.active && HasRoom(s) && a == AssignmentOf(s)
    ensures (forall s :: s in sups && s.active ==> !HasRoom(s)) ==> a == NoAssignment
  {
    match Tier1(sups, departmentId, faults.tier1)
    case Some(s) => AssignmentOf(s)
    case None =>
      match Tier2(sups, schoolId, departmentId, faults.tier2)
      case Some(s) => AssignmentOf(s)
      case None =>
        match Tier3(sups, faults.tier3)
        case Some(s) => AssignmentOf(s)
        case None => NoAssignment
  }

  /**
   * Department first: when the department query succeeds and some active supervisor of
   * the department has room, the student gets a department supervisor with room, and one
   * at least as lightly loaded as any other such supervisor.
   */
  lemma DepartmentComesFirst(sups: seq<Supervisor>, schoolId: string, departmentId: string, faults: TierFaults, s: Supervisor)
    requires !faults.tier1
    requires s in sups && s.active && s.departmentId == departmentId && HasRoom(s)
    ensures exists t :: (t in sups && t.active && t.departmentId == departmentId && HasRoom(t) &&
                         CurrentOf(t) <= CurrentOf(s) && FindAssignment(sups, schoolId, departmentId, faults) == AssignmentOf(t))
  {
    var t := Tier1(sups, departmentId, false).value;
    assert CurrentOf(t) <= CurrentOf(s);
  }

  /**
   * The school tier is used exactly when the department tier found nobody (failed query or
   * nobody with room); it then gives a supervisor of another department of the same school,
   * the first with room in (department id, load) order.
   */
  lemma SchoolComesSecond(sups: seq<Supervisor>, schoolId: string, departmentId: string, faults: TierFaults, s: Supervisor)
    requires faults.tier1 || forall t :: t in sups && t.active && t.departmentId == departmentId ==> !HasRoom(t)
    requires !faults.tier2
    requires s in sups && s.active && s.schoolId == schoolId && s.departmentId != departmentId && HasRoom(s)
    ensures exists t :: (t in sups && t.active && t.schoolId == schoolId && t.departmentId != departmentId &&
                         HasRoom(t) && ByDepartmentThenLoad(t, s) &&
                         FindAssignment(sups, schoolId, departmentId, faults) == AssignmentOf(t))
  {
    assert Tier1(sups, departmentId, faults.tier1).None?;
    var t := Tier2(sups, schoolId, departmentId, false).value;
    assert ByDepartmentThenLoad(t, s);
  }

  /**
   * When neither the department nor the school tier yields anyone, the result depends on
   * the least loaded active supervisor alone: it is chosen if it has room, and otherwise
   * (or when the last query fails, or nobody is active) the result is the sentinel.
   */
  lemma LastTierLooksAtLeastLoadedOnly(sups: seq<Supervisor>, schoolId: string, departmentId: string, faults: TierFaults)
    requires Tier1(sups, departmentId, faults.tier1).None? && Tier2(sups, schoolId, departmentId, faults.tier2).None?
    ensures var a := FindAssignment(sups, schoolId, departmentId, faults);
      var m := LeastLoadedActive(sups);
      if !faults.tier3 && m.Some? && HasRoom(m.value) then a == AssignmentOf(m.value) else a == NoAssignment
  {
  }

  /**
   * The last tier can leave a student unassigned while an active supervisor still has room:
   * a full supervisor with a smaller load hides one with spare capacity.
   */
  lemma LastTierCanMissRoom()
    ensures var full := Supervisor("a", Some("A"), "s1", "d1", true, Some(0), Some(0));
      var open := Supervisor("b", Some("B"), "s1", "d1", true, Some(1), Some(5));
      HasRoom(open) && FindAssignment([full, open], "s2", "d2", NoFaults) == NoAssignment
  {
    var full := Supervisor("a", Some("A"), "s1", "d1", true, Some(0), Some(0));
    var open := Supervisor("b", Some("B"), "s1", "d1", true, Some(1), Some(5));
    var sups := [full, open];
    assert forall s :: s in sups ==> s == full || s == open;
    assert Tier1(sups, "d2", false).None?;
    assert Tier2(sups, "s2", "d2", false).None?;
    var m := LeastLoadedActive(sups);
    assert m.Some? && CurrentOf(m.value) <= CurrentOf(open);
    assert m.value == full;
  }

  /** Nobody active with room anywhere, or every query failing, gives the sentinel. */
  lemma ExhaustionGivesSentinel(sups: seq<Supervisor>, schoolId: string, departmentId: string, faults: TierFaults)
    requires (forall s :: s in sups && s.active ==> !HasRoom(s)) || (faults.tier1 && faults.tier2 && faults.tier3)
    ensures FindAssignment(sups, schoolId, departmentId, faults) == NoAssignment
  {
  }

  /** Two department supervisors: the lighter one with room wins. */
  lemma DepartmentExample()
    ensures var a := Supervisor("A", Some("A"), "S", "D", true, Some(2), Some(5));
      var b := Supervisor("B", Some("B"), "S", "D", true, Some(5), Some(5));
      FindAssignment([b, a], "S", "D", NoFaults) == AssignmentOf(a)
  {
    var a := Supervisor("A", Some("A"), "S", "D", true, Some(2), Some(5));
    var b := Supervisor("B", Some("B"), "S", "D", true, Some(5), Some(5));
    var sups := [b, a];
    assert forall s :: s in sups ==> s == a || s == b;
    var t := Tier1(sups, "D", false);
    assert t.Some? && t.value in sups && HasRoom(t.value);
    assert t.value == a;
  }

  /** A full department falls back to a supervisor of another department of the same school. */
  lemma SchoolExample()
    ensures var c := Supervisor("C", Some("C"), "S", "D", true, Some(3), Some(3));
      var e := Supervisor("E", Some("E"), "S", "D2", true, Some(1), Some(4));
      FindAssignment([c, e], "S", "D", NoFaults) == AssignmentOf(e)
  {
    var c := Supervisor("C", Some("C"), "S", "D", true, Some(3), Some(3));
    var e := Supervisor("E", Some("E"), "S", "D2", true, Some(1), Some(4));
    var sups := [c, e];
    assert forall s :: s in sups ==> s == c || s == e;
    assert e.departmentId != "D" by {
      assert |e.departmentId| == 2;
    }
    assert Tier1(sups, "D", false).None?;
    SoleSchoolCandidate(sups, "S", "D", e);
  }

  /** A school tier with a single qualifying candidate that has room picks that candidate. */
  lemma SoleSchoolCandidate(sups: seq<Supervisor>, schoolId: string, departmentId: string, e: Supervisor)
    requires e in sups && e.active && e.schoolId == schoolId && e.departmentId != departmentId && HasRoom(e)
    requires forall s :: s in sups && s.active && s.schoolId == schoolId && s.departmentId != departmentId ==> s == e
    ensures Tier2(sups, schoolId, departmentId, false) == Some(e)
  {
  }

  // ---------------------------------------------------------------- imperative steps

  /** The `for` loop of tiers 1 and 2: scan the query result in order, stop at the first with room. */
  method ScanForRoom(candidates: seq<Supervisor>) returns (i: nat)
    ensures i == FirstWithRoom(candidates)
  {
    i := 0;
    while i < |candidates|
      invariant i <= |candidates|
      invariant FirstWithRoom(candidates) == i + FirstWithRoom(candidates[i..])
    {
      if HasRoom(candidates[i]) {
        return;
      }
      assert candidates[i..][1..] == candidates[i + 1..];
      i := i + 1;
    }
  }

  /** The department query and its scan (`assignSupervisor`'s success listener). */
  method DepartmentTier(db: Store, departmentId: string, failed: bool) returns (r: Option<Supervisor>)
    ensures r == Tier1(db.supervisors, departmentId, failed)
  {
    if failed {
      return None;
    }
    var docs := DepartmentQuery(db.supervisors, departmentId);
    var i := ScanForRoom(docs);
    r := if i < |docs| then Some(docs[i]) else None;
  }

  /** `findSupervisorInSchool`: the school query and its scan. */
  method SchoolTier(db: Store, schoolId: string, departmentId: string, failed: bool) returns (r: Option<Supervisor>)
    ensures r == Tier2(db.supervisors, schoolId, departmentId, failed)
  {
    if failed {
      return None;
    }
    var docs := SchoolQuery(db.supervisors, schoolId, departmentId);
    var i := ScanForRoom(docs);
    r := if i < |docs| then Some(docs[i]) else None;
  }

  /** `findAnySupervisor`: the first document of the `limit(1)` query, if it has room. */
  method AnyTier(db: Store, failed: bool) returns (r: Option<Supervisor>)
    ensures r == Tier3(db.supervisors, failed)
  {
    if failed {
      return None;
    }
    var docs := ActiveQuery(db.supervisors);
    r := if docs != [] && HasRoom(docs[0]) then Some(docs[0]) else None;
  }

  /** `assignSupervisor` with its two fallbacks, run against the store. */
  method AssignSupervisor(db: Store, schoolId: string, departmentId: string, faults: TierFaults) returns (a: Assignment)
    ensures a == FindAssignment(db.supervisors, schoolId, departmentId, faults)
  {
    var found := DepartmentTier(db, departmentId, faults.tier1);
    if found.Some? {
      return AssignmentOf(found.value);
    }
    found := SchoolTier(db, schoolId, departmentId, faults.tier2);
    if found.Some? {
      return AssignmentOf(found.value);
    }
    found := AnyTier(db, faults.tier3);
    if found.Some? {
      return AssignmentOf(found.value);
    }
    return NoAssignment;
  }

  /**
   * `updateSupervisorStudentCount`: a transaction that reads the counter (absent = 0) and
   * writes it plus one. An empty id returns at once; a failed transaction changes nothing.
   */
  method UpdateSupervisorStudentCount(db: Store, supervisorId: string, transactionFails: bool)
    requires db.Valid()
    modifies db`supervisors
    ensures db.Valid()
    ensures db.supervisors ==
      if supervisorId == "" || transactionFails then old(db.supervisors)
      else Incremented(old(db.supervisors), supervisorId)
  {
    if supervisorId == "" || transactionFails {
      return;
    }
    SetCountsWellFormed(db.supervisors, supervisorId, 1, false);
    match Lookup(db.supervisors, supervisorId)
    case None =>
      // updating a missing document aborts the transaction
      assert Incremented(db.supervisors, supervisorId) == db.supervisors;
    case Some(i) =>
      var current := CurrentOf(db.supervisors[i]);
      IncrementedAt(db.supervisors, supervisorId, i);
      db.supervisors := db.supervisors[i := db.supervisors[i].(currentStudents := Some(current + 1))];
  }

  /**
   * The registration step after the account is created: choose a supervisor, write the
   * user document with that `supervisorId` ("" when none), and only once that write
   * succeeds with a non-empty id, run the counter transaction.
   */
  method RegisterStudent(db: Store, uid: string, schoolId: string, departmentId: string,
                         faults: TierFaults, userWriteFails: bool, transactionFails: bool)
    returns (a: Assignment)
    requires db.Valid()
    modifies db
    ensures db.Valid()
    ensures a == FindAssignment(old(db.supervisors), schoolId, departmentId, faults)
    ensures db.students == if userWriteFails then old(db.students) else old(db.students)[uid := a.supervisorId]
    ensures db.supervisors ==
      if userWriteFails || a.supervisorId == "" || transactionFails then old(db.supervisors)
      else Incremented(old(db.supervisors), a.supervisorId)
    ensures db.projects == old(db.projects)
  {
    a := AssignSupervisor(db, schoolId, departmentId, faults);
    if userWriteFails {
      return;
    }
    db.students := db.students[uid := a.supervisorId];
    if a.supervisorId != "" {
      UpdateSupervisorStudentCount(db, a.supervisorId, transactionFails);
    }
  }

  // ---------------------------------------------------------------- invariants

  ghost predicate WithinCapacity(sups: seq<Supervisor>) {
    forall i :: 0 <= i < |sups| ==> CurrentOf(sups[i]) <= MaxOf(sups[i])
  }

  /**
   * A completed registration of a new student keeps every counter equal to the number of
   * students pointing at that supervisor.
   */
  lemma RegistrationKeepsLoadConsistent(sups: seq<Supervisor>, students: map<string, string>, uid: string,
                                        schoolId: string, departmentId: string, faults: TierFaults)
    requires WellFormed(sups) && LoadConsistent(sups, students) && uid !in students
    ensures var a := FindAssignment(sups, schoolId, departmentId, faults);
      LoadConsistent(if a.supervisorId == "" then sups else Incremented(sups, a.supervisorId),
                     students[uid := a.supervisorId])
  {
    var a := FindAssignment(sups, schoolId, departmentId, faults);
    var after := if a.supervisorId == "" then sups else Incremented(sups, a.supervisorId);
    forall i | 0 <= i < |sups|
      ensures CurrentOf(after[i]) == StudentsOf(students[uid := a.supervisorId], sups[i].id)
    {
      StudentsOfAfterPoint(students, uid, a.supervisorId, sups[i].id);
    }
  }

  /**
   * With one registration at a time, a completed registration never pushes a supervisor
   * past its capacity.
   */
  lemma RegistrationKeepsCapacity(sups: seq<Supervisor>, schoolId: string, departmentId: string, faults: TierFaults)
    requires WellFormed(sups) && WithinCapacity(sups)
    ensures WithinCapacity(Incremented(sups, FindAssignment(sups, schoolId, departmentId, faults).supervisorId))
  {
    var a := FindAssignment(sups, schoolId, departmentId, faults);
    var after := Incremented(sups, a.supervisorId);
    forall i | 0 <= i < |sups| && sups[i].id == a.supervisorId
      ensures CurrentOf(after[i]) <= MaxOf(after[i])
    {
      var s :| s in sups && s.active && HasRoom(s) && a == AssignmentOf(s);
      var j :| 0 <= j < |sups| && sups[j] == s;
      assert i == j;
    }
  }
}
