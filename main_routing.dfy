/** The launch screen (MainActivity): where the app goes on start-up. */
module MainRouting {
  import opened Wrappers
  import opened Text
  import opened Login

  /** MainActivity's own `navigateBasedOnRole`, which names "student" explicitly. */
  function StartupRouteForRole(role: string): (d: Destination)
    ensures d != LoginScreen
  {
    match Lower(role)
    case "student" => StudentDashboard
    case "supervisor" => SupervisorDashboard
    case "lecturer" => SupervisorDashboard
    case _ => StudentDashboard
  }

  /** The launch screen routes every role exactly as the login screen does. */
  lemma StartupAgreesWithLogin(role: string)
    ensures StartupRouteForRole(role) == RouteForRole(role)
  {
  }

  /** The read of `users/<uid>`: it fails, finds no document, or finds one with an optional role. */
  datatype UserRead = ReadFailed | NoDocument | Document(role: Option<string>)

  /** `onCreate`: no user or a failed read goes to login; otherwise the role, "student" by default, decides. */
  function StartupRoute(signedIn: bool, read: UserRead): (d: Destination)
    ensures d == LoginScreen <==> !signedIn || read.ReadFailed?
    ensures signedIn && (read.NoDocument? || read == Document(None)) ==> d == StudentDashboard
    ensures signedIn && read.Document? && read.role.Some? ==> d == RouteForRole(read.role.value)
  {
    if !signedIn then LoginScreen
    else
      match read
      case ReadFailed => LoginScreen
      case NoDocument => StartupRouteForRole(DefaultRole)
      case Document(role) => StartupRouteForRole(role.GetOr(DefaultRole))
  }

  /** A missing document, a missing role and the role "student" all land on the student dashboard. */
  lemma MissingRoleIsStudent()
    ensures StartupRoute(true, NoDocument) == StartupRoute(true, Document(None))
    ensures StartupRoute(true, Document(None)) == StartupRoute(true, Document(Some(DefaultRole)))
  {
  }
}
