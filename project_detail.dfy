/**
 * The student's project screen (ProjectDetailActivity): the milestone list and its order,
 * the completion-date rule, the milestone dialog and the project edit dialog.
 */
module ProjectDetail {
  import opened Wrappers
  import opened Text
  import opened Seqs
  import opened Records

  // ---------------------------------------------------------------- milestone order

  /**
   * `compareBy { isCompleted }.thenBy { dueDate == null }.thenBy { dueDate }`: open before
   * completed, dated before undated, earlier due date first.
   */
  function MilestoneLe(a: Milestone, b: Milestone): bool {
    if a.isCompleted != b.isCompleted then !a.isCompleted
    else if a.dueDate.None? != b.dueDate.None? then a.dueDate.Some?
    else a.dueDate.None? || a.dueDate.value <= b.dueDate.value
  }

  lemma MilestoneLeIsTotalPreorder()
    ensures TotalPreorder(MilestoneLe)
  {
  }

  /** `milestones.sortWith(...)`: a stable sort by `MilestoneLe`. */
  function SortMilestones(ms: seq<Milestone>): (r: seq<Milestone>)
    ensures multiset(r) == multiset(ms)
    ensures Sorted(r, MilestoneLe)
  {
    MilestoneLeIsTotalPreorder();
    SortWithSorted(ms, MilestoneLe);
    SortWith(ms, MilestoneLe)
  }

  /**
   * The sorted list, stated field by field: every open milestone precedes every completed one;
   * within one completion state dated ones precede undated ones, and due dates ascend.
   */
  lemma SortedMilestoneOrder(ms: seq<Milestone>)
    ensures var r := SortMilestones(ms);
      forall i, j :: 0 <= i < j < |r| ==>
        (r[i].isCompleted ==> r[j].isCompleted) &&
        (r[i].isCompleted == r[j].isCompleted && r[i].dueDate.None? ==> r[j].dueDate.None?) &&
        (r[i].isCompleted == r[j].isCompleted && r[i].dueDate.Some? && r[j].dueDate.Some? ==>
           r[i].dueDate.value <= r[j].dueDate.value)
  {
    var r := SortMilestones(ms);
    forall i, j | 0 <= i < j < |r|
      ensures MilestoneLe(r[i], r[j])
    {
    }
  }

  // ---------------------------------------------------------------- completion dates

  /** A completed milestone carries a completion date. */
  predicate CompletionDated(m: Milestone) {
    m.isCompleted ==> m.completedDate.Some?
  }

  /** The completion-date rule shared by the edit dialog and the checkbox. */
  function CompletedDateAfter(m: Milestone, isCompleted: bool, now: int): (d: Option<int>)
    ensures d != m.completedDate ==> !m.isCompleted && isCompleted && d == Some(now)
    ensures !m.isCompleted && isCompleted ==> d == Some(now)
  {
    if isCompleted && !m.isCompleted then Some(now) else m.completedDate
  }

  /** `updateMilestoneCompletionStatus`: only the two completion fields change. */
  function WithCompletion(m: Milestone, isCompleted: bool, now: int): (r: Milestone)
    ensures r.isCompleted == isCompleted
    ensures r.(isCompleted := m.isCompleted, completedDate := m.completedDate) == m
    ensures CompletionDated(m) ==> CompletionDated(r)
  {
    m.(isCompleted := isCompleted, completedDate := CompletedDateAfter(m, isCompleted, now))
  }

  /** Un-completing keeps the earlier completion date; re-completing stamps a fresh one. */
  lemma UncompleteKeepsDate(m: Milestone, now: int, later: int)
    requires m.isCompleted
    ensures WithCompletion(m, false, now).completedDate == m.completedDate
    ensures WithCompletion(WithCompletion(m, false, now), true, later).completedDate == Some(later)
  {
  }

  datatype DialogError = EmptyTitle

  /** The milestone dialog's inputs. */
  datatype MilestoneForm = MilestoneForm(title: string, description: string, dueDate: Option<int>, checked: bool)

  /** The dialog's save button on an existing milestone. */
  function EditMilestone(m: Milestone, form: MilestoneForm, now: int): (r: Result<Milestone, DialogError>)
    ensures r.Err? <==> Trim(form.title) == []
    ensures r.Ok? ==>
      r.value.title == Trim(form.title) && r.value.description == Trim(form.description) &&
      r.value.dueDate == form.dueDate && r.value.isCompleted == form.checked &&
      r.value.completedDate == CompletedDateAfter(m, form.checked, now) &&
      r.value.id == m.id && r.value.projectId == m.projectId && r.value.createdAt == m.createdAt
  {
    var title := Trim(form.title);
    if title == [] then Err(EmptyTitle)
    else Ok(m.(title := title, description := Trim(form.description), dueDate := form.dueDate,
               isCompleted := form.checked, completedDate := CompletedDateAfter(m, form.checked, now)))
  }

  /** The dialog's save button for a new milestone; `id` is a fresh identifier. */
  function NewMilestone(id: string, projectId: string, form: MilestoneForm, now: int): (r: Result<Milestone, DialogError>)
    ensures r.Err? <==> Trim(form.title) == []
    ensures r.Ok? ==> (r.value.completedDate.Some? <==> form.checked)
    ensures r.Ok? && r.value.completedDate.Some? ==> r.value.completedDate.value == now
    ensures r.Ok? ==> (r.value.id == id && r.value.projectId == projectId && r.value.createdAt == now &&
                       r.value.title == Trim(form.title) && r.value.description == Trim(form.description) &&
                       r.value.dueDate == form.dueDate && r.value.isCompleted == form.checked)
  {
    var title := Trim(form.title);
    if title == [] then Err(EmptyTitle)
    else Ok(Milestone(id, projectId, title, Trim(form.description), form.dueDate,
                      if form.checked then Some(now) else None, form.checked, now))
  }

  /** Every milestone the dialogs produce satisfies the completion-date invariant. */
  lemma DialogsKeepCompletionDated(m: Milestone, id: string, projectId: string, form: MilestoneForm, now: int)
    requires CompletionDated(m)
    ensures EditMilestone(m, form, now).Ok? ==> CompletionDated(EditMilestone(m, form, now).value)
    ensures NewMilestone(id, projectId, form, now).Ok? ==> CompletionDated(NewMilestone(id, projectId, form, now).value)
  {
  }

  // ---------------------------------------------------------------- project edit

  function NonEmpty(s: string): bool {
    s != []
  }

  /** `objectivesText.trim().split("\n").filter { it.isNotEmpty() }` */
  function ParseObjectives(text: string): (objectives: seq<string>)
    ensures forall k :: 0 <= k < |objectives| ==> objectives[k] != [] && '\n' !in objectives[k]
  {
    Filter(Split(Trim(text), '\n'), NonEmpty)
  }

  /**
   * Objectives written one per line come back unchanged, provided each is non-empty, holds no
   * line break, and the text as a whole neither starts nor ends with whitespace.
   */
  lemma {:induction false} ParseJoinedObjectives(objectives: seq<string>)
    requires forall k :: 0 <= k < |objectives| ==> objectives[k] != [] && '\n' !in objectives[k]
    requires |objectives| >= 1 ==> !IsWhitespace(objectives[0][0])
    requires |objectives| >= 1 ==> !IsWhitespace(objectives[|objectives| - 1][|objectives[|objectives| - 1]| - 1])
    ensures ParseObjectives(Join(objectives, '\n')) == objectives
  {
    var text := Join(objectives, '\n');
    if objectives == [] {
      assert text == [];
      TrimUntouched(text);
      assert Split([], '\n') == [[]];
    } else {
      JoinEnds(objectives, '\n');
      TrimUntouched(text);
      SplitJoin(objectives, '\n');
      FilterKeepsAll(objectives, NonEmpty);
    }
  }

  /** The edit dialog's inputs. */
  datatype ProjectForm = ProjectForm(title: string, description: string, objectives: string)

  /** The edit dialog's save button: an empty trimmed title is refused; otherwise four fields change. */
  function EditProject(p: Project, form: ProjectForm, now: int): (r: Result<Project, DialogError>)
    ensures r.Err? <==> Trim(form.title) == []
    ensures r.Ok? ==>
      r.value.title == Trim(form.title) && r.value.title != [] &&
      r.value.description == Trim(form.description) &&
      r.value.objectives == ParseObjectives(form.objectives) && r.value.updatedAt == now &&
      r.value.(title := p.title, description := p.description, objectives := p.objectives, updatedAt := p.updatedAt) == p
  {
    var title := Trim(form.title);
    if title == [] then Err(EmptyTitle)
    else Ok(p.(title := title, description := Trim(form.description),
               objectives := ParseObjectives(form.objectives), updatedAt := now))
  }

  // ---------------------------------------------------------------- the screen

  class ProjectDetailScreen {
    var project: Project
    var milestones: seq<Milestone>
    var noMilestonesShown: bool

    constructor (project: Project)
      ensures this.project == project && milestones == [] && !noMilestonesShown
    {
      this.project := project;
      milestones := [];
      noMilestonesShown := false;
    }

    /**
     * `loadProjectMilestones`: on success the list is cleared, refilled with the documents
     * and sorted; an empty result shows the "no milestones" text. A failed query only toasts.
     */
    method LoadProjectMilestones(docs: seq<Milestone>, queryFails: bool)
      modifies this`milestones, this`noMilestonesShown
      ensures queryFails ==> milestones == old(milestones) && noMilestonesShown == old(noMilestonesShown)
      ensures !queryFails ==> milestones == SortMilestones(docs) && noMilestonesShown == (docs == [])
    {
      if queryFails {
        return;
      }
      milestones := [];
      if docs == [] {
        noMilestonesShown := true;
        assert SortMilestones(docs) == [];
        return;
      }
      noMilestonesShown := false;
      var k := 0;
      while k < |docs|
        invariant 0 <= k <= |docs|
        invariant milestones == docs[..k]
        invariant !noMilestonesShown
      {
        milestones := milestones + [docs[k]];
        k := k + 1;
      }
      assert milestones == docs;
      milestones := SortWith(milestones, MilestoneLe);
      assert milestones == SortMilestones(docs);
    }

    /** `saveProjectChanges` after a valid edit: the screen's project becomes the saved one on success. */
    method SaveProjectChanges(form: ProjectForm, now: int, writeFails: bool) returns (r: Result<Project, DialogError>)
      modifies this`project
      ensures r == EditProject(old(project), form, now)
      ensures project == if r.Ok? && !writeFails then r.value else old(project)
    {
      r := EditProject(project, form, now);
      if r.Ok? && !writeFails {
        project := r.value;
      }
    }
  }
}
