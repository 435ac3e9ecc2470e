/**
 * One row of the feedback list (FeedbackAdapter.FeedbackViewHolder.bind): the shortened
 * content and the unread marker.
 */
module FeedbackAdapter {
  import opened Records

  const MaxShown := 100
  const KeptOnTruncation := 97
  const Ellipsis := "..."

  /** Content longer than 100 characters becomes its first 97 followed by "...". */
  function DisplayContent(content: string): (r: string)
    ensures |r| <= MaxShown
    ensures |content| <= MaxShown ==> r == content
    ensures |content| > MaxShown ==>
      |r| == MaxShown && r[..KeptOnTruncation] == content[..KeptOnTruncation] && r[KeptOnTruncation..] == Ellipsis
  {
    if |content| > MaxShown then content[..KeptOnTruncation] + Ellipsis else content
  }

  /** Shortening what is already short enough changes nothing. */
  lemma DisplayContentIdempotent(content: string)
    ensures DisplayContent(DisplayContent(content)) == DisplayContent(content)
  {
  }

  /** What a bound row shows. */
  datatype FeedbackRow = FeedbackRow(supervisorName: string, content: string, unreadShown: bool)

  function Bind(f: Feedback): (row: FeedbackRow)
    ensures row.unreadShown <==> !f.isRead
    ensures row.content == DisplayContent(f.content) && row.supervisorName == f.supervisorName
  {
    FeedbackRow(f.supervisorName, DisplayContent(f.content), !f.isRead)
  }
}
