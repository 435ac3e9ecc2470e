/**
 * The app's data classes (package `project`). Dates are milliseconds since the epoch,
 * held as integers; a nullable date is an `Option<int>`.
 */
module Records {
  import opened Wrappers

  /** A project proposal; `status` is one of proposed, approved, rejected, in_progress, completed. */
  datatype Project = Project(
    id: string,
    title: string,
    description: string,
    studentId: string,
    studentName: string,
    supervisorId: string,
    status: string,
    createdAt: int,
    updatedAt: int,
    objectives: seq<string>)

  datatype Milestone = Milestone(
    id: string,
    projectId: string,
    title: string,
    description: string,
    dueDate: Option<int>,
    completedDate: Option<int>,
    isCompleted: bool,
    createdAt: int)

  /** A meeting request; `status` is one of pending, confirmed, cancelled, completed. */
  datatype Meeting = Meeting(
    id: string,
    projectId: string,
    studentId: string,
    supervisorId: string,
    title: string,
    description: string,
    meetingDate: int,
    duration: int,
    location: string,
    status: string,
    notes: string,
    createdAt: int,
    updatedAt: int)

  datatype Feedback = Feedback(
    id: string,
    studentId: string,
    supervisorId: string,
    supervisorName: string,
    content: string,
    projectId: string,
    isRead: bool,
    createdAt: int)
}
