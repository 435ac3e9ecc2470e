/**
 * The student's feedback screen (FeedbackListActivity): only feedback that came from a
 * supervisor is listed, the notice text reports empty lists and errors, and opening an entry
 * marks the local copy as read.
 */
module FeedbackList {
  import opened Wrappers
  import opened Text
  import opened Seqs
  import opened Records
  import opened FeedbackAdapter

  const NotLoggedInText := "Error: User not logged in"
  const NoFeedbackText := "No supervisor feedback available yet"
  const NoConnectionText := "No internet connection"
  const PermissionText := "Permission denied to access feedback"

  function FromSupervisor(f: Feedback): bool {
    f.supervisorId != []
  }

  /** `filter { it.supervisorId.isNotEmpty() }` */
  function SupervisorFeedback(received: seq<Feedback>): (r: seq<Feedback>)
    ensures forall f :: f in r <==> f in received && f.supervisorId != []
    ensures |r| <= |received|
  {
    Filter(received, FromSupervisor)
  }

  /** The filter keeps the received order: it distributes over concatenation. */
  lemma SupervisorFeedbackKeepsOrder(a: seq<Feedback>, b: seq<Feedback>)
    ensures SupervisorFeedback(a + b) == SupervisorFeedback(a) + SupervisorFeedback(b)
  {
    FilterConcat(a, b, FromSupervisor);
  }

  /** How the repository call ended. */
  datatype LoadFailure = UnknownHost | Failure(message: Option<string>)

  /** What `loadFeedback` runs into. */
  datatype FeedbackOutcome =
    | NotSignedIn
    | Received(items: seq<Feedback>)
    | Failed(failure: LoadFailure)
    | Threw(message: Option<string>)

  /** Kotlin renders a missing message as "null" inside a string template. */
  function MessageText(m: Option<string>): string {
    m.GetOr("null")
  }

  /** The error text of a failed result: network, permission, or the message itself. */
  function FailureText(e: LoadFailure): (t: string)
    ensures e == UnknownHost ==> t == NoConnectionText
    ensures e.Failure? && e.message.Some? && Contains(e.message.value, "permission") ==> t == PermissionText
    ensures e.Failure? && !(e.message.Some? && Contains(e.message.value, "permission")) ==>
      t == "Error loading feedback: " + MessageText(e.message)
  {
    match e
    case UnknownHost => NoConnectionText
    case Failure(m) =>
      if m.Some? && Contains(m.value, "permission") then PermissionText
      else "Error loading feedback: " + MessageText(m)
  }

  /** `indexOfFirst { it.id == id }` */
  function IndexOfFirst(list: seq<Feedback>, id: string): (i: int)
    ensures -1 <= i < |list|
    ensures i >= 0 ==> list[i].id == id && forall k :: 0 <= k < i ==> list[k].id != id
    ensures i == -1 <==> forall k :: 0 <= k < |list| ==> list[k].id != id
  {
    if list == [] then -1
    else if list[0].id == id then 0
    else
      var j := IndexOfFirst(list[1..], id);
      if j == -1 then -1 else j + 1
  }

  /** The local list after opening entry `id`: the first entry with that id becomes read. */
  function MarkedRead(list: seq<Feedback>, id: string): (r: seq<Feedback>)
    ensures |r| == |list|
    ensures forall k :: 0 <= k < |list| && k != IndexOfFirst(list, id) ==> r[k] == list[k]
    ensures IndexOfFirst(list, id) >= 0 ==>
      r[IndexOfFirst(list, id)] == list[IndexOfFirst(list, id)].(isRead := true)
  {
    var i := IndexOfFirst(list, id);
    if i == -1 then list else list[i := list[i].(isRead := true)]
  }

  /** With no entry carrying the id, the list is unchanged. */
  lemma MarkedReadWithoutMatch(list: seq<Feedback>, id: string)
    requires forall k :: 0 <= k < |list| ==> list[k].id != id
    ensures MarkedRead(list, id) == list
  {
  }

  /** A later entry with the same id stays as it was: only the first match is touched. */
  lemma MarkedReadOnlyFirst(list: seq<Feedback>, id: string, k: int)
    requires 0 <= k < |list| && list[k].id == id && IndexOfFirst(list, id) != k
    ensures MarkedRead(list, id)[k] == list[k]
  {
  }

  /** Marking the same entry twice is marking it once. */
  lemma MarkedReadIdempotent(list: seq<Feedback>, id: string)
    ensures MarkedRead(MarkedRead(list, id), id) == MarkedRead(list, id)
  {
    var r := MarkedRead(list, id);
    var i := IndexOfFirst(list, id);
    if i >= 0 {
      assert forall k :: 0 <= k < |r| ==> r[k].id == list[k].id;
      assert IndexOfFirst(r, id) == i;
    }
  }

  /** After opening an entry, its row no longer shows the unread marker. */
  lemma OpenedEntryShowsRead(list: seq<Feedback>, id: string)
    requires IndexOfFirst(list, id) >= 0
    ensures !Bind(MarkedRead(list, id)[IndexOfFirst(list, id)]).unreadShown
  {
  }

  class FeedbackListScreen {
    var feedbackList: seq<Feedback>
    /** The text of the notice view when it is visible. */
    var notice: Option<string>

    constructor ()
      ensures feedbackList == [] && notice.None?
    {
      feedbackList := [];
      notice := None;
    }

    /** `updateFeedbackList`: replace the contents; an empty list shows the "no feedback" notice. */
    method UpdateFeedbackList(items: seq<Feedback>)
      modifies this
      ensures feedbackList == items
      ensures notice == if items == [] then Some(NoFeedbackText) else None
    {
      feedbackList := [];
      feedbackList := feedbackList + items;
      if feedbackList == [] {
        notice := Some(NoFeedbackText);
      } else {
        notice := None;
      }
    }

    /**
     * `loadFeedback`: the notice is hidden first; without a user it reports the login error
     * and fetches nothing; received feedback is filtered to supervisor entries; failures
     * leave the list and report their text.
     */
    method LoadFeedback(outcome: FeedbackOutcome)
      modifies this
      ensures outcome.Received? ==> (feedbackList == SupervisorFeedback(outcome.items) &&
        notice == (if feedbackList == [] then Some(NoFeedbackText) else None))
      ensures !outcome.Received? ==> feedbackList == old(feedbackList)
      ensures outcome == NotSignedIn ==> notice == Some(NotLoggedInText)
      ensures outcome.Failed? ==> notice == Some(FailureText(outcome.failure))
      ensures outcome.Threw? ==> notice == Some("Error: " + outcome.message.GetOr("Unknown error"))
    {
      notice := None;
      match outcome
      case NotSignedIn =>
        notice := Some(NotLoggedInText);
      case Received(items) =>
        UpdateFeedbackList(SupervisorFeedback(items));
      case Failed(e) =>
        notice := Some(FailureText(e));
      case Threw(m) =>
        notice := Some("Error: " + m.GetOr("Unknown error"));
    }

    /** The local half of `showFeedbackDetail`: mark the first entry with the id as read, in place. */
    method MarkRead(id: string)
      modifies this`feedbackList
      ensures feedbackList == MarkedRead(old(feedbackList), id)
    {
      var index := IndexOfFirst(feedbackList, id);
      if index != -1 {
        var updated := feedbackList[index].(isRead := true);
        feedbackList := feedbackList[index := updated];
      }
    }
  }
}
