/**
 * Signing in (LoginActivity): the input check, the role lookup chain over the `users` and
 * `supervisors` collections, and routing on the role found.
 */
module Login {
  import opened Wrappers
  import opened Text

  /** The screens the app can move to. */
  datatype Destination = StudentDashboard | SupervisorDashboard | LoginScreen

  const DefaultRole := "student"
  const SupervisorRole := "supervisor"

  predicate IsSupervisorRole(role: string) {
    var r := Lower(role);
    r == "supervisor" || r == "lecturer"
  }

  /** `navigateBasedOnRole`: "supervisor" and "lecturer", in any case, open the supervisor dashboard. */
  function RouteForRole(role: string): (d: Destination)
    ensures d != LoginScreen
    ensures d == SupervisorDashboard <==> IsSupervisorRole(role)
  {
    if IsSupervisorRole(role) then SupervisorDashboard else StudentDashboard
  }

  /** Routing only sees the lowercased role. */
  lemma RouteForRoleIgnoresCase(a: string, b: string)
    requires Lower(a) == Lower(b)
    ensures RouteForRole(a) == RouteForRole(b)
  {
  }

  /** Lowercasing keeps the length, so a role of another length than both names is a student's. */
  lemma OtherLengthIsNotSupervisor(role: string)
    requires |role| != |"supervisor"| && |role| != |"lecturer"|
    ensures !IsSupervisorRole(role)
  {
  }

  lemma RouteExamples()
    ensures RouteForRole(SupervisorRole) == SupervisorDashboard
    ensures RouteForRole(DefaultRole) == StudentDashboard
  {
    var r := SupervisorRole;
    assert forall k :: 0 <= k < |r| ==> !('A' <= r[k] <= 'Z');
    LowerKeepsLowercase(r);
    OtherLengthIsNotSupervisor(DefaultRole);
  }

  /** A Firestore query: it fails, or it answers with the matching documents. */
  datatype Query<T> = QueryFailed | Answered(docs: seq<T>)

  predicate HasHit<T>(q: Query<T>) {
    q.Answered? && q.docs != []
  }

  predicate IsEmpty<T>(q: Query<T>) {
    q.Answered? && q.docs == []
  }

  /** A `users` document's role field, defaulting to "student" when absent. */
  function RoleOf(role: Option<string>): (r: string)
    ensures role.None? ==> r == DefaultRole
    ensures role.Some? ==> r == role.value
  {
    role.GetOr(DefaultRole)
  }

  /** How the lookup chain ends: with a role to route on, or with a `users` query error. */
  datatype LookupResult = Found(role: string) | UsersError

  /**
   * The chain of `loginUser` and `checkSupervisorsCollection`: users by uid, users by email,
   * supervisors by uid, supervisors by email. Each `users` document carries its optional role
   * field; a `supervisors` hit stands for the role "supervisor".
   */
  function LookUpRole(usersByUid: Query<Option<string>>, usersByEmail: Query<Option<string>>,
                      supervisorsByUid: Query<string>, supervisorsByEmail: Query<string>): (r: LookupResult)
    ensures r.UsersError? <==> usersByUid.QueryFailed? || (IsEmpty(usersByUid) && usersByEmail.QueryFailed?)
    ensures HasHit(usersByUid) ==> r == Found(RoleOf(usersByUid.docs[0]))
    ensures IsEmpty(usersByUid) && HasHit(usersByEmail) ==> r == Found(RoleOf(usersByEmail.docs[0]))
    ensures IsEmpty(usersByUid) && IsEmpty(usersByEmail) ==>
      r == Found(if HasHit(supervisorsByUid) || (IsEmpty(supervisorsByUid) && HasHit(supervisorsByEmail))
                 then SupervisorRole else DefaultRole)
  {
    match usersByUid
    case QueryFailed => UsersError
    case Answered(uidDocs) =>
      if uidDocs != [] then Found(RoleOf(uidDocs[0]))
      else
        match usersByEmail
        case QueryFailed => UsersError
        case Answered(emailDocs) =>
          if emailDocs != [] then Found(RoleOf(emailDocs[0]))
          else Found(SupervisorsRole(supervisorsByUid, supervisorsByEmail))
  }

  /** `checkSupervisorsCollection`: a hit means "supervisor"; a miss or an error means "student". */
  function SupervisorsRole(byUid: Query<string>, byEmail: Query<string>): (role: string)
    ensures role == SupervisorRole || role == DefaultRole
    ensures role == SupervisorRole <==> HasHit(byUid) || (IsEmpty(byUid) && HasHit(byEmail))
  {
    match byUid
    case QueryFailed => DefaultRole
    case Answered(docs) =>
      if docs != [] then SupervisorRole
      else if HasHit(byEmail) then SupervisorRole
      else DefaultRole
  }

  /** The first collection that answers with a document decides; later queries do not matter. */
  lemma FirstHitDecides(u: Query<Option<string>>, e1: Query<Option<string>>, e2: Query<Option<string>>,
                        s1: Query<string>, s2: Query<string>, t1: Query<string>, t2: Query<string>)
    requires HasHit(u)
    ensures LookUpRole(u, e1, s1, t1) == LookUpRole(u, e2, s2, t2)
  {
  }

  /** Once both `users` queries come back empty, login always routes, and never to login. */
  lemma SupervisorsNeverBlock(u: Query<Option<string>>, e: Query<Option<string>>, s: Query<string>, t: Query<string>)
    requires IsEmpty(u) && IsEmpty(e)
    ensures LookUpRole(u, e, s, t).Found?
    ensures RouteForRole(LookUpRole(u, e, s, t).role) == (if SupervisorsRole(s, t) == SupervisorRole then SupervisorDashboard else StudentDashboard)
  {
    RouteExamples();
  }

  /** A user found nowhere is routed as a student. */
  lemma NotFoundRoutesStudent(u: Query<Option<string>>, e: Query<Option<string>>, s: Query<string>, t: Query<string>)
    requires IsEmpty(u) && IsEmpty(e) && IsEmpty(s) && IsEmpty(t)
    ensures LookUpRole(u, e, s, t) == Found(DefaultRole)
    ensures RouteForRole(LookUpRole(u, e, s, t).role) == StudentDashboard
  {
    RouteExamples();
  }

  class LoginForm {
    var buttonEnabled: bool
    /** Where the screen navigated to, once it has. */
    var navigatedTo: Option<Destination>

    constructor ()
      ensures buttonEnabled && navigatedTo.None?
    {
      buttonEnabled := true;
      navigatedTo := None;
    }

    /**
     * `loginUser`: with both trimmed fields filled in, the button is disabled and sign-in is
     * attempted; a failed sign-in or a `users` query error re-enables the button without
     * navigating; otherwise the role found decides the dashboard.
     */
    method LoginUser(emailText: string, passwordText: string, signInSucceeds: bool,
                     usersByUid: Query<Option<string>>, usersByEmail: Query<Option<string>>,
                     supervisorsByUid: Query<string>, supervisorsByEmail: Query<string>)
      returns (attempted: bool)
      modifies this
      ensures attempted <==> Trim(emailText) != [] && Trim(passwordText) != []
      ensures !attempted ==> buttonEnabled == old(buttonEnabled) && navigatedTo == old(navigatedTo)
      ensures attempted && !signInSucceeds ==> buttonEnabled && navigatedTo == old(navigatedTo)
      ensures attempted && signInSucceeds ==>
        match LookUpRole(usersByUid, usersByEmail, supervisorsByUid, supervisorsByEmail)
        case UsersError => buttonEnabled && navigatedTo == old(navigatedTo)
        case Found(role) => !buttonEnabled && navigatedTo == Some(RouteForRole(role))
    {
      var email := Trim(emailText);
      var password := Trim(passwordText);
      if email == [] || password == [] {
        return false;
      }
      attempted := true;
      buttonEnabled := false;
      if !signInSucceeds {
        buttonEnabled := true;
        return;
      }
      var found := LookUpRole(usersByUid, usersByEmail, supervisorsByUid, supervisorsByEmail);
      match found
      case UsersError =>
        buttonEnabled := true;
      case Found(role) =>
        navigatedTo := Some(RouteForRole(role));
    }
  }
}
