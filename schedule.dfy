/**
 * The student's meeting screen (ScheduleActivity): the assigned supervisor gating new
 * requests, the duration spinner's parsing, the request dialog's checks, and cancellation.
 */
module Schedule {
  import opened Wrappers
  import opened Text
  import opened Records

  const Pending := "pending"
  const Cancelled := "cancelled"

  // ---------------------------------------------------------------- duration

  /** The spinner caption's first matching key decides the minutes; no match means 30. */
  function ParseDuration(caption: string): (minutes: int)
    ensures minutes in {15, 30, 45, 60, 90, 120}
    ensures Contains(caption, "15") ==> minutes == 15
    ensures (!Contains(caption, "15") && !Contains(caption, "30") && !Contains(caption, "45") &&
             !Contains(caption, "1 hour") && !Contains(caption, "1.5") && !Contains(caption, "2")) ==> minutes == 30
  {
    if Contains(caption, "15") then 15
    else if Contains(caption, "30") then 30
    else if Contains(caption, "45") then 45
    else if Contains(caption, "1 hour") then 60
    else if Contains(caption, "1.5") then 90
    else if Contains(caption, "2") then 120
    else 30
  }

  /** Keys are tried in their own order, not the caption's: "45 or 15" reads as 15 minutes. */
  lemma DurationKeyOrder()
    ensures ParseDuration("45 or 15") == 15
  {
    assert OccursAt("45 or 15", "15", 6);
    ContainsIffOccurs("45 or 15", "15");
  }

  /** A caption holding none of the earlier keys falls through to "2", giving 120. */
  lemma DurationTwoHours()
    ensures ParseDuration("2 h") == 120
  {
    MissingCharNotContained("2 h", "15", '1');
    MissingCharNotContained("2 h", "30", '3');
    MissingCharNotContained("2 h", "45", '4');
    MissingCharNotContained("2 h", "1 hour", '1');
    MissingCharNotContained("2 h", "1.5", '1');
  }

  /** A caption without any key gives the 30-minute default. */
  lemma DurationDefault()
    ensures ParseDuration("x") == 30
  {
    MissingCharNotContained("x", "15", '1');
    MissingCharNotContained("x", "30", '3');
    MissingCharNotContained("x", "45", '4');
    MissingCharNotContained("x", "1 hour", '1');
    MissingCharNotContained("x", "1.5", '1');
    MissingCharNotContained("x", "2", '2');
  }

  // ---------------------------------------------------------------- cancellation

  /** The cancel button shows for a meeting not before `now` whose status is not exactly "cancelled". */
  predicate IsCancellable(m: Meeting, now: int) {
    !(m.meetingDate < now) && m.status != Cancelled
  }

  /** `cancelMeeting`'s copy: status and `updatedAt` change, nothing else. */
  function CancelMeeting(m: Meeting, now: int): (r: Meeting)
    ensures r.status == Cancelled && r.updatedAt == now
    ensures r.(status := m.status, updatedAt := m.updatedAt) == m
    ensures forall later :: !IsCancellable(r, later)
  {
    m.(status := Cancelled, updatedAt := now)
  }

  /** A cancellable meeting stays cancellable until its date, and a past one never is. */
  lemma CancellableUntilItsDate(m: Meeting, now: int, later: int)
    requires IsCancellable(m, later) && now <= later
    ensures IsCancellable(m, now)
    ensures m.meetingDate >= later
  {
  }

  /** The status test is case-sensitive: "Cancelled" with a capital letter still shows the button. */
  lemma CapitalisedStatusStaysCancellable(m: Meeting, now: int)
    requires m.status == "Cancelled" && m.meetingDate >= now
    ensures IsCancellable(m, now)
  {
  }

  // ---------------------------------------------------------------- the screen

  datatype ScheduleError = NoSupervisorAssigned | EmptyTitle | EmptyLocation | NotLoggedIn

  /** The request dialog's inputs; `date` is the picked date and time. */
  datatype MeetingForm = MeetingForm(title: string, description: string, location: string, durationLabel: string, date: int)

  class ScheduleScreen {
    /** The signed-in student's supervisor, "" until loaded or when none is assigned. */
    var supervisorId: string
    var addEnabled: bool

    constructor ()
      ensures supervisorId == "" && addEnabled
    {
      supervisorId := "";
      addEnabled := true;
    }

    /**
     * `loadSupervisorId`: with a signed-in user whose document is read, the field (absent
     * means "") becomes the supervisor and an empty one disables the add button. No user, a
     * failed read or a missing document change nothing.
     */
    method LoadSupervisorId(signedIn: bool, readFails: bool, document: Option<Option<string>>)
      modifies this
      ensures signedIn && !readFails && document.Some? ==>
        supervisorId == document.value.GetOr("") && addEnabled == (old(addEnabled) && supervisorId != "")
      ensures !(signedIn && !readFails && document.Some?) ==>
        supervisorId == old(supervisorId) && addEnabled == old(addEnabled)
    {
      if !signedIn || readFails {
        return;
      }
      if document.Some? {
        supervisorId := document.value.GetOr("");
        if supervisorId == "" {
          addEnabled := false;
        }
      }
    }

    /**
     * The add dialog and its save button: refused without a supervisor, with an empty
     * trimmed title or location (checked in that order), or without a signed-in user;
     * otherwise a pending request to the assigned supervisor, not linked to a project.
     */
    method RequestMeeting(form: MeetingForm, user: Option<string>, id: string, now: int)
      returns (r: Result<Meeting, ScheduleError>)
      ensures r == Err(NoSupervisorAssigned) <==> supervisorId == ""
      ensures r == Err(EmptyTitle) <==> supervisorId != "" && Trim(form.title) == []
      ensures r == Err(EmptyLocation) <==> supervisorId != "" && Trim(form.title) != [] && Trim(form.location) == []
      ensures r == Err(NotLoggedIn) <==>
        supervisorId != "" && Trim(form.title) != [] && Trim(form.location) != [] && user.None?
      ensures r.Ok? ==>
        r.value.status == Pending && r.value.projectId == "" && r.value.notes == "" &&
        r.value.supervisorId == supervisorId && r.value.studentId == user.value && r.value.id == id &&
        r.value.title == Trim(form.title) && r.value.location == Trim(form.location) &&
        r.value.description == Trim(form.description) &&
        r.value.title != [] && r.value.location != [] &&
        r.value.duration == ParseDuration(form.durationLabel) && r.value.meetingDate == form.date &&
        r.value.createdAt == now && r.value.updatedAt == now
    {
      if supervisorId == "" {
        return Err(NoSupervisorAssigned);
      }
      var title := Trim(form.title);
      var description := Trim(form.description);
      var location := Trim(form.location);
      if title == [] {
        return Err(EmptyTitle);
      }
      if location == [] {
        return Err(EmptyLocation);
      }
      var duration := ParseDuration(form.durationLabel);
      if user.None? {
        return Err(NotLoggedIn);
      }
      r := Ok(Meeting(id, "", user.value, supervisorId, title, description, form.date, duration,
                      location, Pending, "", now, now));
    }
  }
}
