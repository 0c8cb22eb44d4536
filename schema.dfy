/** The data contract of the five tables (users, reports, report_messages,
    system_logs, memos): record shapes, which columns may be NULL, the
    column defaults, and the insert shapes the storage layer accepts.

    NULL is `None`. Timestamp columns are nullable in the schema but always
    filled by their CURRENT_TIMESTAMP default, so they are plain `nat`s here
    (an abstract clock value). The JSON image-list columns default to the
    empty array and every insert path fills them, so they are plain
    sequences. */
module Schema {

  datatype Option<+T> = None | Some(value: T)

  /** JavaScript truthiness of an optional string: present and non-empty. */
  predicate Truthy(o: Option<string>) {
    o.Some? && o.value != ""
  }

  /** `o || d` for an optional string. */
  function OrElse(o: Option<string>, d: string): (r: string)
    ensures Truthy(o) ==> r == o.value
    ensures !Truthy(o) ==> r == d
  {
    if Truthy(o) then o.value else d
  }

  /** `o || null`: a falsy value is stored as NULL, never as "". */
  function OrNull(o: Option<string>): (r: Option<string>)
    ensures r.Some? <==> Truthy(o)
    ensures r.Some? ==> r == o && r.value != ""
  {
    if Truthy(o) then o else None
  }

  /** `images || []` for an optional JSON array (an array is always truthy). */
  function ImagesOrEmpty(o: Option<seq<string>>): (r: seq<string>)
    ensures o.Some? ==> r == o.value
    ensures o.None? ==> r == []
  {
    if o.Some? then o.value else []
  }

  const DefaultReportStatus := "submitted"
  const DefaultMemoStatus := "pending"

  /** users: username is NOT NULL and UNIQUE. */
  datatype User = User(id: string, username: string, password: string)

  /** reports: additionalInfo and adminFeedback are nullable text. */
  datatype Report = Report(
    id: string,
    category: string,
    description: string,
    priority: string,
    location: string,
    status: string,
    images: seq<string>,
    additionalInfo: Option<string>,
    additionalInfoImages: seq<string>,
    adminFeedback: Option<string>,
    submittedBy: string,
    submittedAt: nat,
    updatedAt: nat)

  /** report_messages: reportId, senderId, senderRole and message are NOT NULL. */
  datatype ReportMessage = ReportMessage(
    id: string,
    reportId: string,
    senderId: string,
    senderRole: string,
    message: string,
    images: seq<string>,
    createdAt: nat)

  /** system_logs: only `action` is NOT NULL. The JSON `metadata` column is
      not part of this model. */
  datatype SystemLog = SystemLog(
    id: string,
    userId: Option<string>,
    userName: Option<string>,
    userRole: Option<string>,
    action: string,
    affectedData: Option<string>,
    moduleName: Option<string>,
    ipAddress: Option<string>,
    userAgent: Option<string>,
    timestamp: nat)

  /** memos: effectiveDate and fileUrl are nullable. The effective date is
      kept as the text the client sent. */
  datatype Memo = Memo(
    id: string,
    title: string,
    description: string,
    category: string,
    status: string,
    effectiveDate: Option<string>,
    fileUrl: Option<string>,
    issuedBy: string,
    createdAt: nat,
    updatedAt: nat)

  /** The insert schemas: the columns each one picks. A column with a
      default is optional (`Option`); the report insert schema has no status. */
  datatype InsertUser = InsertUser(username: string, password: string)

  datatype InsertReport = InsertReport(
    category: string,
    description: string,
    priority: string,
    location: string,
    images: Option<seq<string>>,
    submittedBy: string)

  datatype InsertReportMessage = InsertReportMessage(
    reportId: string,
    senderId: string,
    senderRole: string,
    message: string,
    images: Option<seq<string>>)

  datatype InsertSystemLog = InsertSystemLog(
    userId: Option<string>,
    userName: Option<string>,
    userRole: Option<string>,
    action: string,
    affectedData: Option<string>,
    moduleName: Option<string>,
    ipAddress: Option<string>,
    userAgent: Option<string>)

  datatype InsertMemo = InsertMemo(
    title: string,
    description: string,
    category: string,
    effectiveDate: Option<string>,
    fileUrl: Option<string>,
    issuedBy: string,
    status: Option<string>)

  /** The row the database stores for a report insert: status takes its
      column default, the optional feedback columns are NULL, the image
      lists default to the empty array, both timestamps are `now`. */
  function NewReport(ins: InsertReport, id: string, now: nat): (r: Report)
    ensures r.id == id && r.status == DefaultReportStatus
    ensures r.category == ins.category && r.description == ins.description
    ensures r.priority == ins.priority && r.location == ins.location
    ensures r.submittedBy == ins.submittedBy
    ensures r.images == ImagesOrEmpty(ins.images) && r.additionalInfoImages == []
    ensures r.additionalInfo.None? && r.adminFeedback.None?
    ensures r.submittedAt == now && r.updatedAt == now
  {
    Report(id, ins.category, ins.description, ins.priority, ins.location,
           DefaultReportStatus, ImagesOrEmpty(ins.images), None, [], None,
           ins.submittedBy, now, now)
  }

  /** The row stored for a message insert; images default to []. */
  function NewReportMessage(ins: InsertReportMessage, id: string, now: nat): (m: ReportMessage)
    ensures InsertOfMessage(m) == ins.(images := Some(ImagesOrEmpty(ins.images)))
    ensures m.id == id && m.createdAt == now
  {
    ReportMessage(id, ins.reportId, ins.senderId, ins.senderRole, ins.message,
                  ImagesOrEmpty(ins.images), now)
  }

  /** The row stored for a log insert: every column is copied. */
  function NewSystemLog(ins: InsertSystemLog, id: string, now: nat): (l: SystemLog)
    ensures InsertOfLog(l) == ins
    ensures l.id == id && l.timestamp == now
  {
    SystemLog(id, ins.userId, ins.userName, ins.userRole, ins.action,
              ins.affectedData, ins.moduleName, ins.ipAddress, ins.userAgent, now)
  }

  /** The row stored for a memo insert: status defaults to "pending" but the
      insert schema lets the caller supply it. */
  function NewMemo(ins: InsertMemo, id: string, now: nat): (m: Memo)
    ensures ins.status.Some? ==> m.status == ins.status.value
    ensures ins.status.None? ==> m.status == DefaultMemoStatus
    ensures m.id == id && m.createdAt == now && m.updatedAt == now
    ensures m.title == ins.title && m.description == ins.description
    ensures m.category == ins.category && m.issuedBy == ins.issuedBy
    ensures m.effectiveDate == ins.effectiveDate && m.fileUrl == ins.fileUrl
  {
    Memo(id, ins.title, ins.description, ins.category,
         if ins.status.Some? then ins.status.value else DefaultMemoStatus,
         ins.effectiveDate, ins.fileUrl, ins.issuedBy, now, now)
  }

  /** The columns of a stored message that came from its insert. */
  function InsertOfMessage(m: ReportMessage): InsertReportMessage {
    InsertReportMessage(m.reportId, m.senderId, m.senderRole, m.message, Some(m.images))
  }

  /** The columns of a stored log entry that came from its insert. */
  function InsertOfLog(l: SystemLog): InsertSystemLog {
    InsertSystemLog(l.userId, l.userName, l.userRole, l.action, l.affectedData,
                    l.moduleName, l.ipAddress, l.userAgent)
  }
}
