/**
 * The administrator's assignment screen (AdminAssignSupervisorActivity): pick a student and a
 * supervisor, check the supervisor's cached capacity, write the student's `supervisorId`,
 * move the counters by +1/-1 floored at zero, and re-point the student's projects.
 */
module AdminAssign {
  import opened Wrappers
  import opened Records
  import opened Directory
  import opened ProjectUpdater

  datatype StudentInfo = StudentInfo(id: string, name: string, email: string)

  /** A supervisor as listed in the spinner; the counts are a snapshot taken when the list loaded. */
  datatype SupervisorInfo = SupervisorInfo(id: string, name: string, currentStudents: int, maxStudents: int)

  /** One row of `loadSupervisors`, with the 0 and 5 defaults for missing counts. */
  function InfoOf(s: Supervisor): (info: SupervisorInfo)
    ensures info.id == s.id
    ensures info.currentStudents < info.maxStudents <==> HasRoom(s)
    ensures s.currentStudents.None? ==> info.currentStudents == 0
    ensures s.maxStudents.None? ==> info.maxStudents == DefaultMaxStudents
  {
    SupervisorInfo(s.id, NameOf(s), CurrentOf(s), MaxOf(s))
  }

  function Infos(sups: seq<Supervisor>): (r: seq<SupervisorInfo>)
    ensures |r| == |sups| && forall i :: 0 <= i < |sups| ==> r[i] == InfoOf(sups[i])
  {
    seq(|sups|, i requires 0 <= i < |sups| => InfoOf(sups[i]))
  }

  /**
   * `loadCurrentSupervisor`: the stored `supervisorId`, where a missing document, a missing or
   * empty field and a failed read all mean "no current supervisor".
   */
  function LoadedSupervisorId(students: map<string, string>, studentId: string, readFails: bool): (r: Option<string>)
    ensures r.Some? <==> !readFails && studentId in students && students[studentId] != ""
    ensures r.Some? ==> r.value == students[studentId]
  {
    if readFails || studentId !in students || students[studentId] == "" then None
    else Some(students[studentId])
  }

  /** Whether each of the two counter updates fails (its read or its write). */
  datatype CounterFaults = CounterFaults(incrementFails: bool, decrementFails: bool)

  /**
   * The counters after a successful student write: nothing when the supervisor is unchanged,
   * otherwise +1 on the new supervisor and, only if there was a current one, -1 on it.
   */
  function ReassignedCounts(sups: seq<Supervisor>, newId: string, current: Option<string>, faults: CounterFaults): seq<Supervisor>
  {
    if current == Some(newId) then sups
    else
      var raised := if faults.incrementFails then sups else Shifted(sups, newId, 1);
      if current.Some? && !faults.decrementFails then Shifted(raised, current.value, -1) else raised
  }

  /**
   * The deltas of a reassignment, counter by counter: +1 on the new supervisor, max(0, n - 1)
   * on the previous one, every other supervisor and every other field untouched.
   */
  lemma ReassignDeltas(sups: seq<Supervisor>, newId: string, current: Option<string>)
    requires CountsNonNegative(sups)
    requires current != Some(newId)
    ensures var after := ReassignedCounts(sups, newId, current, CounterFaults(false, false));
      |after| == |sups| &&
      forall i :: 0 <= i < |sups| ==>
        after[i].(currentStudents := sups[i].currentStudents) == sups[i] &&
        CurrentOf(after[i]) ==
          if sups[i].id == newId then CurrentOf(sups[i]) + 1
          else if current.Some? && sups[i].id == current.value then Adjusted(CurrentOf(sups[i]), -1, true)
          else CurrentOf(sups[i])
  {
    var raised := Shifted(sups, newId, 1);
    forall i | 0 <= i < |sups| && current.Some? && sups[i].id == current.value
      ensures raised[i] == sups[i]
    {
    }
  }

  /** Floored deltas keep every counter non-negative, whichever updates fail. */
  lemma ReassignKeepsCountsNonNegative(sups: seq<Supervisor>, newId: string, current: Option<string>, faults: CounterFaults)
    requires CountsNonNegative(sups)
    ensures CountsNonNegative(ReassignedCounts(sups, newId, current, faults))
  {
    if current != Some(newId) {
      var raised := if faults.incrementFails then sups else Shifted(sups, newId, 1);
      assert CountsNonNegative(raised);
    }
  }

  /** An update aimed at a supervisor document that does not exist changes nothing. */
  lemma ShiftMissingIsNoOp(sups: seq<Supervisor>, id: string, change: int)
    requires forall i :: 0 <= i < |sups| ==> sups[i].id != id
    ensures Shifted(sups, id, change) == sups
  {
  }

  /**
   * Without failures, re-pointing a student and applying the deltas keeps every counter equal
   * to the number of students pointing at that supervisor.
   */
  lemma ReassignKeepsLoadConsistent(sups: seq<Supervisor>, students: map<string, string>, studentId: string, newId: string)
    requires WellFormed(sups) && LoadConsistent(sups, students) && studentId in students
    requires newId != ""
    ensures var current := LoadedSupervisorId(students, studentId, false);
      LoadConsistent(ReassignedCounts(sups, newId, current, CounterFaults(false, false)), students[studentId := newId])
  {
    var current := LoadedSupervisorId(students, studentId, false);
    var after := ReassignedCounts(sups, newId, current, CounterFaults(false, false));
    var students' := students[studentId := newId];
    assert CountsNonNegative(sups);
    if current == Some(newId) {
      assert students' == students;
    } else {
      ReassignDeltas(sups, newId, current);
      forall i | 0 <= i < |sups|
        ensures CurrentOf(after[i]) == StudentsOf(students', sups[i].id)
      {
        StudentsOfAfterPoint(students, studentId, newId, sups[i].id);
        if current.Some? && sups[i].id == current.value {
          AssignedCountPositive(sups, students, studentId, i);
        }
      }
    }
  }

  /** `updateSupervisorStudentCount`: write `max(0, count + change)` if the document exists. */
  method UpdateSupervisorStudentCount(db: Store, supervisorId: string, change: int, fails: bool)
    requires db.Valid()
    modifies db`supervisors
    ensures db.Valid()
    ensures db.supervisors == if fails then old(db.supervisors) else Shifted(old(db.supervisors), supervisorId, change)
  {
    if fails {
      return;
    }
    SetCountsWellFormed(db.supervisors, supervisorId, change, true);
    match Lookup(db.supervisors, supervisorId)
    case None =>
      ShiftMissingIsNoOp(db.supervisors, supervisorId, change);
    case Some(i) =>
      var currentCount := CurrentOf(db.supervisors[i]);
      var newCount := if currentCount + change < 0 then 0 else currentCount + change;
      ShiftedAt(db.supervisors, supervisorId, change, i);
      db.supervisors := db.supervisors[i := db.supervisors[i].(currentStudents := Some(newCount))];
  }

  /** What pressing "assign" ended in. */
  datatype AssignOutcome =
    | NoStudentSelected
    | NoSupervisorSelected
    | SupervisorFull
    | WriteFailed
    /** Assigned, with the project updater's result, which the screen only logs. */
    | Assigned(projectsUpdated: bool, projectsMessage: string)

  /** The remote steps of one assignment and whether each succeeds. */
  datatype AdminFaults = AdminFaults(
    writeFails: bool,
    counters: CounterFaults,
    projects: UpdateFaults,
    reloadFails: bool)

  class AdminAssignScreen {
    const db: Store
    var students: seq<StudentInfo>
    var supervisors: seq<SupervisorInfo>
    var selectedStudent: Option<StudentInfo>
    var selectedSupervisor: Option<SupervisorInfo>
    var currentSupervisorId: Option<string>

    constructor (db: Store, students: seq<StudentInfo>)
      ensures this.db == db && this.students == students && supervisors == []
      ensures selectedStudent.None? && selectedSupervisor.None? && currentSupervisorId.None?
    {
      this.db := db;
      this.students := students;
      supervisors := [];
      selectedStudent := None;
      selectedSupervisor := None;
      currentSupervisorId := None;
    }

    /** `loadSupervisors`: one row per supervisor document. */
    method LoadSupervisors(readFails: bool)
      modifies this`supervisors
      ensures supervisors == if readFails then old(supervisors) else Infos(db.supervisors)
    {
      if !readFails {
        supervisors := [];
        supervisors := supervisors + Infos(db.supervisors);
      }
    }

    /** `loadCurrentSupervisor` */
    method LoadCurrentSupervisor(studentId: string, readFails: bool)
      modifies this`currentSupervisorId
      ensures currentSupervisorId == LoadedSupervisorId(db.students, studentId, readFails)
    {
      if readFails || studentId !in db.students {
        currentSupervisorId := None;
      } else {
        currentSupervisorId := Some(db.students[studentId]);
        if currentSupervisorId.value == "" {
          currentSupervisorId := None;
        }
      }
    }

    /** The student spinner's listener: a valid position selects and loads the current supervisor. */
    method OnStudentSelected(position: int, readFails: bool)
      modifies this`selectedStudent, this`currentSupervisorId
      ensures 0 <= position < |students| ==>
        selectedStudent == Some(students[position]) &&
        currentSupervisorId == LoadedSupervisorId(db.students, students[position].id, readFails)
      ensures !(0 <= position < |students|) ==>
        selectedStudent == old(selectedStudent) && currentSupervisorId == old(currentSupervisorId)
    {
      if 0 <= position < |students| {
        selectedStudent := Some(students[position]);
        LoadCurrentSupervisor(students[position].id, readFails);
      }
    }

    method OnNothingSelectedStudent()
      modifies this`selectedStudent
      ensures selectedStudent.None?
    {
      selectedStudent := None;
    }

    /** The supervisor spinner's listener: an out-of-range position clears the selection. */
    method OnSupervisorSelected(position: int)
      modifies this`selectedSupervisor
      ensures selectedSupervisor == if 0 <= position < |supervisors| then Some(supervisors[position]) else None
    {
      selectedSupervisor := if 0 <= position < |supervisors| then Some(supervisors[position]) else None;
    }

    method OnNothingSelectedSupervisor()
      modifies this`selectedSupervisor
      ensures selectedSupervisor.None?
    {
      selectedSupervisor := None;
    }

    /**
     * `assignSupervisor`. The guards run in order (student, supervisor, cached capacity) and
     * write nothing; the student write comes next, and only once it succeeds are the counter
     * deltas applied (skipped for an unchanged supervisor), the projects re-pointed and the
     * current supervisor and the list reloaded.
     */
    method AssignSupervisor(faults: AdminFaults) returns (outcome: AssignOutcome)
      requires db.Valid()
      modifies this`currentSupervisorId, this`supervisors, db
      ensures db.Valid()
      ensures old(selectedStudent).None? ==> outcome == NoStudentSelected
      ensures old(selectedStudent).Some? && old(selectedSupervisor).None? ==> outcome == NoSupervisorSelected
      ensures old(selectedStudent).Some? && old(selectedSupervisor).Some? &&
              old(selectedSupervisor).value.currentStudents >= old(selectedSupervisor).value.maxStudents ==>
        outcome == SupervisorFull
      ensures old(selectedStudent).Some? && old(selectedSupervisor).Some? &&
              old(selectedSupervisor).value.currentStudents < old(selectedSupervisor).value.maxStudents &&
              (faults.writeFails || old(selectedStudent).value.id !in old(db.students)) ==>
        outcome == WriteFailed
      ensures outcome.Assigned? <==>
        old(selectedStudent).Some? && old(selectedSupervisor).Some? &&
        old(selectedSupervisor).value.currentStudents < old(selectedSupervisor).value.maxStudents &&
        !faults.writeFails && old(selectedStudent).value.id in old(db.students)
      ensures outcome.Assigned? ==>
        (outcome.projectsUpdated <==>
          faults.projects.queryError.None? &&
          (!Owns(old(db.projects), old(selectedStudent).value.id) || faults.projects.commitError.None?))
      ensures !outcome.Assigned? ==>
        db.students == old(db.students) && db.supervisors == old(db.supervisors) && db.projects == old(db.projects) &&
        currentSupervisorId == old(currentSupervisorId) && supervisors == old(supervisors)
      ensures outcome.Assigned? ==>
        var student := old(selectedStudent).value;
        var supervisor := old(selectedSupervisor).value;
        supervisor.currentStudents < supervisor.maxStudents && !faults.writeFails && student.id in old(db.students) &&
        db.students == old(db.students)[student.id := supervisor.id] &&
        db.supervisors == ReassignedCounts(old(db.supervisors), supervisor.id, old(currentSupervisorId), faults.counters) &&
        db.projects == (if faults.projects.queryError.None? && faults.projects.commitError.None?
                        then Repointed(old(db.projects), student.id, supervisor.id) else old(db.projects)) &&
        currentSupervisorId == LoadedSupervisorId(db.students, student.id, faults.reloadFails) &&
        supervisors == Infos(db.supervisors)
    {
      var student := selectedStudent;
      var supervisor := selectedSupervisor;
      if student.None? {
        return NoStudentSelected;
      }
      if supervisor.None? {
        return NoSupervisorSelected;
      }
      if supervisor.value.currentStudents >= supervisor.value.maxStudents {
        return SupervisorFull;
      }
      if faults.writeFails || student.value.id !in db.students {
        return WriteFailed;
      }
      outcome := CompleteAssignment(student.value.id, supervisor.value.id, faults);
    }

    /** The counter block: skipped for an unchanged supervisor, +1 on the new one, -1 on a previous one. */
    method ApplyCounterDeltas(newId: string, faults: CounterFaults)
      requires db.Valid()
      modifies db`supervisors
      ensures db.Valid()
      ensures db.supervisors == ReassignedCounts(old(db.supervisors), newId, currentSupervisorId, faults)
    {
      if currentSupervisorId != Some(newId) {
        UpdateSupervisorStudentCount(db, newId, 1, faults.incrementFails);
        if currentSupervisorId.Some? {
          UpdateSupervisorStudentCount(db, currentSupervisorId.value, -1, faults.decrementFails);
        }
      }
    }

    /** The success listener of the student write, followed by the reloads. */
    method CompleteAssignment(studentId: string, supervisorId: string, faults: AdminFaults) returns (outcome: AssignOutcome)
      requires db.Valid()
      modifies this`currentSupervisorId, this`supervisors, db
      ensures db.Valid() && outcome.Assigned?
      ensures faults.projects.queryError.Some? ==>
        outcome == Assigned(false, QueryErrorPrefix + faults.projects.queryError.value)
      ensures faults.projects.queryError.None? && !Owns(old(db.projects), studentId) ==>
        outcome == Assigned(true, NoProjectsMessage)
      ensures faults.projects.queryError.None? && Owns(old(db.projects), studentId) &&
              faults.projects.commitError.Some? ==>
        outcome == Assigned(false, CommitErrorPrefix + faults.projects.commitError.value)
      ensures faults.projects.queryError.None? && Owns(old(db.projects), studentId) &&
              faults.projects.commitError.None? ==>
        outcome == Assigned(true, UpdatedMessage)
      ensures db.students == old(db.students)[studentId := supervisorId]
      ensures db.supervisors == ReassignedCounts(old(db.supervisors), supervisorId, old(currentSupervisorId), faults.counters)
      ensures db.projects == (if faults.projects.queryError.None? && faults.projects.commitError.None?
                              then Repointed(old(db.projects), studentId, supervisorId) else old(db.projects))
      ensures currentSupervisorId == LoadedSupervisorId(db.students, studentId, faults.reloadFails)
      ensures supervisors == Infos(db.supervisors)
    {
      db.students := db.students[studentId := supervisorId];
      ApplyCounterDeltas(supervisorId, faults.counters);
      if !Owns(db.projects, studentId) {
        RepointedWithoutProjects(db.projects, studentId, supervisorId);
      }
      var ok, message := UpdateProjectsWithSupervisor(db, studentId, supervisorId, faults.projects);
      outcome := Assigned(ok, message);
      LoadCurrentSupervisor(studentId, faults.reloadFails);
      LoadSupervisors(false);
    }
  }
}
