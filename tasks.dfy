/** The `tasks` table's row type and its status vocabulary. */
module Tasks {
  import opened Optional
  import opened Calendar

  /** The four values the application ever writes to `task_status`. */
  datatype Status = Pending | InProgress | Completed | Deleted

  /** The text stored in the `task_status` column. */
  function StatusText(s: Status): string {
    match s
    case Pending => "pending"
    case InProgress => "in_progress"
    case Completed => "completed"
    case Deleted => "deleted"
  }

  /** The status a stored text stands for, if any. */
  function StatusOfText(text: string): (r: Option<Status>)
    ensures r.None? ==> forall s: Status :: StatusText(s) != text
    ensures r.Some? ==> StatusText(r.value) == text
  {
    if text == "pending" then Some(Pending)
    else if text == "in_progress" then Some(InProgress)
    else if text == "completed" then Some(Completed)
    else if text == "deleted" then Some(Deleted)
    else None
  }

  /** Reading a stored status back gives the status written. */
  lemma StatusTextRoundTrip(s: Status)
    ensures StatusOfText(StatusText(s)) == Some(s)
  {
  }

  /**
   * `StatusDisplayName`: the four stored values get their Chinese labels and
   * any other text is shown as it is.
   */
  function StatusDisplayName(status: string): (r: string)
    ensures StatusOfText(status).None? ==> r == status
    ensures StatusOfText(status).Some? ==> r != status && r in {"待处理", "进行中", "已完成", "已删除"}
  {
    match status
    case "pending" => "待处理"
    case "in_progress" => "进行中"
    case "completed" => "已完成"
    case "deleted" => "已删除"
    case _ => status
  }

  /** Distinct statuses are shown with distinct labels. */
  lemma DisplayNamesDistinct(a: Status, b: Status)
    requires StatusDisplayName(StatusText(a)) == StatusDisplayName(StatusText(b))
    ensures a == b
  {
  }

  /** A row of `tasks`. */
  datatype Task = Task(
    id: int,
    name: string,
    status: Status,
    createdAt: Instant,
    updatedAt: Instant,
    completedAt: Option<Instant>)
}
