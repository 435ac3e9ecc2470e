/**
 * ProjectSupervisorUpdater: point every project of a student at a new supervisor, staged
 * one document at a time into a batch that is then committed as a unit.
 */
module ProjectUpdater {
  import opened Wrappers
  import opened Records
  import opened Directory

  const NoProjectsMessage := "No projects found for this student"
  const UpdatedMessage := "Updated all projects with supervisor ID"
  const CommitErrorPrefix := "Error updating projects: "
  const QueryErrorPrefix := "Error querying projects: "

  /** The store's answer to the two remote steps: the query and the batch commit. */
  datatype UpdateFaults = UpdateFaults(queryError: Option<string>, commitError: Option<string>)

  predicate Owns(projects: seq<Project>, studentId: string) {
    exists i :: 0 <= i < |projects| && projects[i].studentId == studentId
  }

  /** The state after a committed batch: owned projects carry the new supervisor, nothing else moves. */
  function Repointed(projects: seq<Project>, studentId: string, supervisorId: string): (r: seq<Project>)
    ensures |r| == |projects|
    ensures forall i :: 0 <= i < |projects| && projects[i].studentId == studentId ==>
      r[i].supervisorId == supervisorId && r[i].(supervisorId := projects[i].supervisorId) == projects[i]
    ensures forall i :: 0 <= i < |projects| && projects[i].studentId != studentId ==> r[i] == projects[i]
  {
    seq(|projects|, i requires 0 <= i < |projects| =>
      if projects[i].studentId == studentId then projects[i].(supervisorId := supervisorId) else projects[i])
  }

  /** `whereEqualTo("studentId", studentId)`: the positions of the student's projects, from `from` on. */
  function MatchingFrom(projects: seq<Project>, studentId: string, from: nat): (docs: seq<nat>)
    requires from <= |projects|
    ensures forall k :: 0 <= k < |docs| ==> from <= docs[k] < |projects| && projects[docs[k]].studentId == studentId
    ensures forall i :: from <= i < |projects| && projects[i].studentId == studentId ==> i in docs
    decreases |projects| - from
  {
    if from == |projects| then []
    else (if projects[from].studentId == studentId then [from] else []) + MatchingFrom(projects, studentId, from + 1)
  }

  /** Repointing twice is repointing once. */
  lemma RepointedIdempotent(projects: seq<Project>, studentId: string, supervisorId: string)
    ensures Repointed(Repointed(projects, studentId, supervisorId), studentId, supervisorId) ==
            Repointed(projects, studentId, supervisorId)
  {
  }

  /** A student without projects leaves the collection as it is. */
  lemma RepointedWithoutProjects(projects: seq<Project>, studentId: string, supervisorId: string)
    requires !Owns(projects, studentId)
    ensures Repointed(projects, studentId, supervisorId) == projects
  {
  }

  /** After the batch every project of the student carries the new supervisor. */
  lemma RepointedReachesAll(projects: seq<Project>, studentId: string, supervisorId: string)
    ensures forall p :: p in Repointed(projects, studentId, supervisorId) && p.studentId == studentId ==>
      p.supervisorId == supervisorId
  {
  }

  /** The loop that adds one `supervisorId` update per matched document to the batch. */
  method StageBatch(projects: seq<Project>, docs: seq<nat>, studentId: string, supervisorId: string)
    returns (staged: seq<Project>)
    requires forall k :: 0 <= k < |docs| ==> docs[k] < |projects| && projects[docs[k]].studentId == studentId
    requires forall i :: 0 <= i < |projects| && projects[i].studentId == studentId ==> i in docs
    ensures staged == Repointed(projects, studentId, supervisorId)
  {
    staged := projects;
    ghost var done: set<nat> := {};
    var k := 0;
    while k < |docs|
      invariant 0 <= k <= |docs|
      invariant |staged| == |projects|
      invariant forall j :: 0 <= j < k ==> docs[j] in done
      invariant forall i :: i in done ==> i < |projects| && projects[i].studentId == studentId
      invariant forall i :: 0 <= i < |staged| ==>
        staged[i] == if i in done then projects[i].(supervisorId := supervisorId) else projects[i]
    {
      var d := docs[k];
      staged := staged[d := staged[d].(supervisorId := supervisorId)];
      done := done + {d};
      k := k + 1;
    }
    forall i | 0 <= i < |projects| && projects[i].studentId == studentId
      ensures i in done
    {
      var j :| 0 <= j < |docs| && docs[j] == i;
    }
  }

  /**
   * `updateProjectsWithSupervisor`: a failed query reports an error and writes nothing; no
   * matches reports success without a write; otherwise every match is staged and the batch
   * commits all updates or none.
   */
  method UpdateProjectsWithSupervisor(db: Store, studentId: string, supervisorId: string, faults: UpdateFaults)
    returns (success: bool, message: string)
    modifies db`projects
    ensures faults.queryError.Some? ==>
      !success && message == QueryErrorPrefix + faults.queryError.value && db.projects == old(db.projects)
    ensures faults.queryError.None? && !Owns(old(db.projects), studentId) ==>
      success && message == NoProjectsMessage && db.projects == old(db.projects)
    ensures faults.queryError.None? && Owns(old(db.projects), studentId) && faults.commitError.Some? ==>
      !success && message == CommitErrorPrefix + faults.commitError.value && db.projects == old(db.projects)
    ensures faults.queryError.None? && Owns(old(db.projects), studentId) && faults.commitError.None? ==>
      success && message == UpdatedMessage && db.projects == Repointed(old(db.projects), studentId, supervisorId)
  {
    if faults.queryError.Some? {
      return false, QueryErrorPrefix + faults.queryError.value;
    }
    var docs := MatchingFrom(db.projects, studentId, 0);
    if docs == [] {
      assert !Owns(db.projects, studentId);
      return true, NoProjectsMessage;
    }
    assert Owns(db.projects, studentId) by {
      assert db.projects[docs[0]].studentId == studentId;
    }
    var staged := StageBatch(db.projects, docs, studentId, supervisorId);
    if faults.commitError.Some? {
      return false, CommitErrorPrefix + faults.commitError.value;
    }
    db.projects := staged;
    return true, UpdatedMessage;
  }
}
