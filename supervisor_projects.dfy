/**
 * The supervisor's project list (SupervisorProjectsActivity): every fetched project gets its
 * id and student name filled in and is added once, the list re-sorted by status rank and
 * then newest first after each insertion.
 */
module SupervisorProjects {
  import opened Wrappers
  import opened Text
  import opened Seqs
  import opened Records

  /** The `no_projects_found` string resource; the resource file is not part of this model, so its text is assumed. */
  const NoProjectsFound := "No projects found"
  const UnknownStudent := "Unknown Student"

  // ---------------------------------------------------------------- order

  /** proposed 0, approved 1, rejected 2, anything else 3, ignoring case. */
  function StatusRank(status: string): (rank: nat)
    ensures rank <= 3
  {
    var s := Lower(status);
    if s == "proposed" then 0
    else if s == "approved" then 1
    else if s == "rejected" then 2
    else 3
  }

  /** The rank depends on the status only up to letter case. */
  lemma StatusRankIgnoresCase(status: string)
    ensures StatusRank(Lower(status)) == StatusRank(status)
  {
    LowerIdempotent(status);
  }

  /**
   * Proposed projects come before every other status, approved ones before rejected and
   * unknown ones, and rejected ones before unknown ones, whatever the letter case.
   */
  lemma StatusRankOrder(a: string, b: string)
    ensures Lower(a) == "proposed" && Lower(b) != "proposed" ==> StatusRank(a) < StatusRank(b)
    ensures (Lower(a) == "approved" && Lower(b) != "proposed" && Lower(b) != "approved") ==>
      StatusRank(a) < StatusRank(b)
    ensures (Lower(a) == "rejected" && Lower(b) != "proposed" && Lower(b) != "approved" &&
             Lower(b) != "rejected") ==>
      StatusRank(a) < StatusRank(b)
    ensures Lower(a) == Lower(b) ==> StatusRank(a) == StatusRank(b)
  {
  }

  /** `compareBy { rank }.thenByDescending { createdAt }` */
  function ProjectLe(a: Project, b: Project): bool {
    StatusRank(a.status) < StatusRank(b.status) ||
    (StatusRank(a.status) == StatusRank(b.status) && a.createdAt >= b.createdAt)
  }

  lemma ProjectLeIsTotalPreorder()
    ensures TotalPreorder(ProjectLe)
  {
  }

  function SortProjects(ps: seq<Project>): (r: seq<Project>)
    ensures multiset(r) == multiset(ps) && |r| == |ps|
    ensures Sorted(r, ProjectLe)
  {
    ProjectLeIsTotalPreorder();
    SortWithSorted(ps, ProjectLe);
    assert |SortWith(ps, ProjectLe)| == |multiset(SortWith(ps, ProjectLe))|;
    SortWith(ps, ProjectLe)
  }

  /** In the sorted list ranks never decrease, and equal ranks run from newest to oldest. */
  lemma SortedProjectOrder(ps: seq<Project>)
    ensures var r := SortProjects(ps);
      forall i, j :: 0 <= i < j < |r| ==>
        StatusRank(r[i].status) <= StatusRank(r[j].status) &&
        (StatusRank(r[i].status) == StatusRank(r[j].status) ==> r[i].createdAt >= r[j].createdAt)
  {
    var r := SortProjects(ps);
    forall i, j | 0 <= i < j < |r|
      ensures ProjectLe(r[i], r[j])
    {
    }
  }

  // ---------------------------------------------------------------- distinctness

  /** No project occurs twice. */
  ghost predicate Distinct(s: seq<Project>) {
    forall i, j :: 0 <= i < j < |s| ==> s[i] != s[j]
  }

  /** A list without repeats holds each project at most once, counted as a multiset. */
  lemma {:induction false} DistinctCounts(s: seq<Project>)
    requires Distinct(s)
    ensures forall x :: multiset(s)[x] <= 1
    decreases |s|
  {
    if s != [] {
      assert Distinct(s[1..]) by {
        forall i, j | 0 <= i < j < |s[1..]|
          ensures s[1..][i] != s[1..][j]
        {
          assert s[1..][i] == s[i + 1] && s[1..][j] == s[j + 1];
        }
      }
      DistinctCounts(s[1..]);
      assert s == [s[0]] + s[1..];
      forall k | 0 <= k < |s[1..]|
        ensures s[1..][k] != s[0]
      {
        assert s[1..][k] == s[k + 1];
      }
    }
  }

  /** Conversely, multiplicities of at most one mean no repeats. */
  lemma CountsDistinct(s: seq<Project>)
    requires forall x :: multiset(s)[x] <= 1
    ensures Distinct(s)
  {
    forall i, j | 0 <= i < j < |s|
      ensures s[i] != s[j]
    {
      if s[i] == s[j] {
        RepeatCountsTwice(s, i, j);
      }
    }
  }

  lemma RepeatCountsTwice(s: seq<Project>, i: nat, j: nat)
    requires i < j < |s| && s[i] == s[j]
    ensures multiset(s)[s[i]] >= 2
  {
    assert s == s[..j] + s[j..];
    assert s[i] in s[..j];
    assert s[j] in s[j..];
  }

  // ---------------------------------------------------------------- one document

  /** A fetched project document; `data` is `None` when it does not convert to a project. */
  datatype ProjectDoc = ProjectDoc(docId: string, data: Option<Project>)

  /** The name fields of a user document; all absent for a missing document. */
  datatype NameFields = NameFields(displayName: Option<string>, name: Option<string>, username: Option<string>)

  function StudentNameOf(f: NameFields): (r: string)
    ensures f.displayName.Some? ==> r == f.displayName.value
    ensures f.displayName.None? && f.name.Some? ==> r == f.name.value
    ensures f.displayName.None? && f.name.None? && f.username.Some? ==> r == f.username.value
    ensures f.displayName.None? && f.name.None? && f.username.None? ==> r == UnknownStudent
  {
    match f.displayName
    case Some(n) => n
    case None =>
      match f.name
      case Some(n) => n
      case None => f.username.GetOr(UnknownStudent)
  }

  /**
   * The project as added to the list: an empty id is replaced by the document id, and the
   * student name comes from the user document when that read succeeds (`names` holds the
   * reads that succeed).
   */
  function Prepared(p: Project, docId: string, names: map<string, NameFields>): (r: Project)
    ensures r.id == if p.id == [] then docId else p.id
    ensures p.studentId != [] && p.studentId in names ==> r.studentName == StudentNameOf(names[p.studentId])
    ensures !(p.studentId != [] && p.studentId in names) ==> r.studentName == p.studentName
    ensures r.(id := p.id, studentName := p.studentName) == p
  {
    var withId := if p.id == [] then p.(id := docId) else p;
    if p.studentId != [] && p.studentId in names then withId.(studentName := StudentNameOf(names[p.studentId]))
    else withId
  }

  /** `addProjectToList` as a function: a project already present changes nothing. */
  function Added(list: seq<Project>, p: Project): (r: seq<Project>)
    ensures p in r
    ensures forall q :: q in r <==> q in list || q == p
    ensures |r| == if p in list then |list| else |list| + 1
  {
    if p in list then list
    else
      SortProjectsKeepsMembers(list + [p]);
      SortProjects(list + [p])
  }

  lemma SortProjectsKeepsMembers(ps: seq<Project>)
    ensures forall q :: q in SortProjects(ps) <==> q in ps
  {
    forall q
      ensures q in SortProjects(ps) <==> q in ps
    {
      SortWithSameElements(ps, ProjectLe, q);
    }
  }

  /** One document of the loop: a convertible one is prepared and added. */
  function Step(list: seq<Project>, d: ProjectDoc, names: map<string, NameFields>): seq<Project> {
    match d.data
    case None => list
    case Some(p) => Added(list, Prepared(p, d.docId, names))
  }

  /** The list after adding each convertible document in turn. */
  function Collected(list: seq<Project>, docs: seq<ProjectDoc>, names: map<string, NameFields>): seq<Project>
    decreases |docs|
  {
    if docs == [] then list
    else Collected(Step(list, docs[0], names), docs[1..], names)
  }

  /** The projects the documents yield, in document order. */
  function PreparedAll(docs: seq<ProjectDoc>, names: map<string, NameFields>): seq<Project>
    decreases |docs|
  {
    if docs == [] then []
    else
      (match docs[0].data
       case None => []
       case Some(p) => [Prepared(p, docs[0].docId, names)]) + PreparedAll(docs[1..], names)
  }

  lemma CollectedStep(list: seq<Project>, docs: seq<ProjectDoc>, k: nat, names: map<string, NameFields>)
    requires k < |docs|
    ensures Collected(list, docs[k..], names) == Collected(Step(list, docs[k], names), docs[k + 1..], names)
  {
    assert docs[k..][0] == docs[k] && docs[k..][1..] == docs[k + 1..];
  }

  /** Adding keeps the list distinct and sorted. */
  lemma AddedKeepsValid(list: seq<Project>, p: Project)
    requires Distinct(list) && Sorted(list, ProjectLe)
    ensures Distinct(Added(list, p)) && Sorted(Added(list, p), ProjectLe)
  {
    if p !in list {
      DistinctCounts(list);
      assert multiset(list)[p] == 0;
      assert multiset(list + [p]) == multiset(list) + multiset{p};
      CountsDistinct(SortProjects(list + [p]));
    }
  }

  /**
   * Processing the documents leaves a distinct, sorted list holding exactly the projects
   * already there and the ones the documents yield.
   */
  lemma {:induction false} CollectedContents(list: seq<Project>, docs: seq<ProjectDoc>, names: map<string, NameFields>)
    requires Distinct(list) && Sorted(list, ProjectLe)
    ensures var r := Collected(list, docs, names);
      Distinct(r) && Sorted(r, ProjectLe) &&
      forall q :: q in r <==> q in list || q in PreparedAll(docs, names)
    decreases |docs|
  {
    if docs != [] {
      var next := Step(list, docs[0], names);
      if docs[0].data.Some? {
        AddedKeepsValid(list, Prepared(docs[0].data.value, docs[0].docId, names));
      }
      CollectedContents(next, docs[1..], names);
    }
  }

  // ---------------------------------------------------------------- the screen

  class SupervisorProjectsScreen {
    var projectsList: seq<Project>
    /** The "no projects" text, when shown. */
    var message: Option<string>

    ghost predicate Valid()
      reads this
    {
      Distinct(projectsList) && Sorted(projectsList, ProjectLe)
    }

    constructor ()
      ensures projectsList == [] && message.None? && Valid()
    {
      projectsList := [];
      message := None;
    }

    /** `finishLoadingProjects` */
    method FinishLoadingProjects()
      modifies this`message
      ensures message == if projectsList == [] then Some(NoProjectsFound) else None
    {
      if projectsList == [] {
        message := Some(NoProjectsFound);
      } else {
        message := None;
      }
    }

    /** `addProjectToList`: insert if absent, then re-sort and refresh. */
    method AddProjectToList(p: Project)
      requires Valid()
      modifies this`projectsList, this`message
      ensures Valid()
      ensures projectsList == Added(old(projectsList), p)
      ensures message == if p in old(projectsList) then old(message) else None
    {
      AddedKeepsValid(projectsList, p);
      if p !in projectsList {
        projectsList := projectsList + [p];
        projectsList := SortWith(projectsList, ProjectLe);
        assert projectsList == Added(old(projectsList), p);
        FinishLoadingProjects();
      }
    }

    /** One pass of the loop of `processProjects`: a convertible document is prepared and added. */
    method AddDocument(d: ProjectDoc, names: map<string, NameFields>)
      requires Valid()
      modifies this`projectsList, this`message
      ensures Valid()
      ensures projectsList == Step(old(projectsList), d, names)
      ensures |projectsList| >= |old(projectsList)|
      ensures message == if |projectsList| == |old(projectsList)| then old(message) else None
    {
      if d.data.Some? {
        AddProjectToList(Prepared(d.data.value, d.docId, names));
      }
    }

    /** The loop of `processProjects`: each convertible document is prepared and added in turn. */
    method AddEach(docs: seq<ProjectDoc>, names: map<string, NameFields>)
      requires Valid()
      modifies this`projectsList, this`message
      ensures Valid()
      ensures projectsList == Collected(old(projectsList), docs, names)
      ensures |projectsList| >= |old(projectsList)|
      ensures message == if |projectsList| == |old(projectsList)| then old(message) else None
    {
      ghost var message0 := message;
      ghost var start := projectsList;
      var k := 0;
      while k < |docs|
        invariant 0 <= k <= |docs|
        invariant Valid()
        invariant Collected(projectsList, docs[k..], names) == Collected(start, docs, names)
        invariant |projectsList| >= |start|
        invariant message == if |projectsList| == |start| then message0 else None
      {
        CollectedStep(projectsList, docs, k, names);
        AddDocument(docs[k], names);
        k := k + 1;
      }
      assert docs[k..] == [];
    }

    /**
     * `processProjects`: clear the list and add every document; with no documents at all the
     * "no projects" text is shown, and when documents came but none converted the text is
     * left as it was.
     */
    method ProcessProjects(docs: seq<ProjectDoc>, names: map<string, NameFields>)
      modifies this`projectsList, this`message
      ensures Valid()
      ensures projectsList == Collected([], docs, names)
      ensures docs == [] ==> message == Some(NoProjectsFound)
      ensures docs != [] ==> message == if projectsList == [] then old(message) else None
    {
      projectsList := [];
      if docs == [] {
        FinishLoadingProjects();
        return;
      }
      AddEach(docs, names);
    }
  }
}
