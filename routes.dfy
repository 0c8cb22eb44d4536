/** The HTTP handlers of the report lifecycle: input validation, the fixed
    status enumerations, the conversation messages a report update appends,
    the audit label chosen by precedence, and the order of the writes
    (messages, then the report or memo, then the audit entry). Each handler
    returns the status code and the JSON body it sends. */
module Routes {
  import opened Schema
  import opened Queries
  import opened Storage
  import opened Logger

  /** The server-side session: the signed-in user's id, if any. */
  class Session {
    var userId: Option<string>

    constructor (userId: Option<string>)
      ensures this.userId == userId
    {
      this.userId := userId;
    }
  }

  datatype Body =
    | ErrorBody(error: string)
    | LoginBody(id: string, username: string)
    | ReportBody(report: Report)
    | ReportViewBody(view: ReportView)
    | MessageListBody(messages: seq<MessageView>)
    | LogListBody(logs: seq<SystemLog>)
    | MemoBody(memo: Memo)
    | MemoViewBody(memoView: MemoView)
    | MemoListBody(memos: seq<MemoView>)

  datatype Response = Response(status: int, body: Body)

  const ReportStatuses: seq<string> := ["submitted", "reviewed", "in_progress", "validation", "resolved"]
  const MemoStatuses: seq<string> := ["pending", "approved", "rejected"]

  /** `if (updates.status && !validStatuses.includes(updates.status))`: a
      falsy status (absent or "") is not checked at all. */
  predicate StatusRejected(status: Option<string>, allowed: seq<string>): (r: bool)
    ensures r <==> status.Some? && status.value != "" && status.value !in allowed
    ensures status.Some? && status.value in allowed ==> !r
  {
    Truthy(status) && status.value !in allowed
  }

  // ----------------------------------------------------------------------
  // POST /api/auth/login
  // ----------------------------------------------------------------------

  datatype Credentials = Credentials(username: Option<string>, password: Option<string>)

  /** The audit options of a login attempt for a given outcome. */
  function LoginAudit(username: string, user: Option<User>, password: string): (r: LogOptions)
    ensures r.moduleName == "Authentication" && r.affectedData == Some("Username: " + username)
    ensures r.action == "User logged in" <==> user.Some? && user.value.password == password
    ensures r.action != "User logged in" ==> r.action == "Failed login attempt"
    ensures r.userId.Some? <==> user.Some?
    ensures r.userRole.None?
  {
    match user
    case None =>
      LogOptions(None, None, None, "Failed login attempt", Some("Username: " + username), "Authentication")
    case Some(u) =>
      LogOptions(Some(u.id), Some(u.username), None,
                 if u.password != password then "Failed login attempt" else "User logged in",
                 Some("Username: " + username), "Authentication")
  }

  /** Both fields are required; an unknown user and a wrong password give
      the same 401; only a match signs the user in. Every attempt past the
      400 is audited. */
  method Login(db: Database, session: Session, req: Request, c: Credentials, fault: AuditFault)
    returns (resp: Response)
    requires db.Valid()
    modifies session, db`logs, db`clock, db`issued
    ensures db.Valid()
    ensures !Truthy(c.username) || !Truthy(c.password) ==>
      resp == Response(400, ErrorBody("Username and password are required"))
      && db.logs == old(db.logs) && session.userId == old(session.userId)
    ensures Truthy(c.username) && Truthy(c.password) ==>
      var user := db.GetUserByUsername(c.username.value);
      && (resp.status == 200 <==> user.Some? && user.value.password == c.password.value)
      && (resp.status == 200 ==>
            resp.body == LoginBody(user.value.id, user.value.username) && session.userId == Some(user.value.id))
      && (resp.status != 200 ==>
            resp == Response(401, ErrorBody("Invalid credentials")) && session.userId == old(session.userId))
      && Audited(old(db.logs), db.logs,
                 AuditRecord(db.users, req, LoginAudit(c.username.value, user, c.password.value), fault))
  {
    if !Truthy(c.username) || !Truthy(c.password) {
      return Response(400, ErrorBody("Username and password are required"));
    }
    var username, password := c.username.value, c.password.value;
    var user := db.GetUserByUsername(username);
    if user.None? {
      LogAction(db, req, LogOptions(None, None, None, "Failed login attempt",
                                    Some("Username: " + username), "Authentication"), fault);
      return Response(401, ErrorBody("Invalid credentials"));
    }
    var u := user.value;
    if u.password != password {
      LogAction(db, req, LogOptions(Some(u.id), Some(u.username), None, "Failed login attempt",
                                    Some("Username: " + username), "Authentication"), fault);
      return Response(401, ErrorBody("Invalid credentials"));
    }
    session.userId := Some(u.id);
    LogAction(db, req, LogOptions(Some(u.id), Some(u.username), None, "User logged in",
                                  Some("Username: " + username), "Authentication"), fault);
    return Response(200, LoginBody(u.id, u.username));
  }

  // ----------------------------------------------------------------------
  // POST /api/reports
  // ----------------------------------------------------------------------

  /** The fields the report form posts. */
  datatype ReportForm = ReportForm(
    category: Option<string>,
    description: Option<string>,
    priority: Option<string>,
    location: Option<string>,
    images: Option<seq<string>>)

  /** Each required field is present and not empty (an empty string is as
      falsy as a missing one); the images are optional. */
  predicate ReportFormComplete(f: ReportForm): (r: bool)
    ensures r <==> f.category.Some? && f.category.value != "" && f.description.Some? && f.description.value != ""
                   && f.priority.Some? && f.priority.value != "" && f.location.Some? && f.location.value != ""
  {
    Truthy(f.category) && Truthy(f.description) && Truthy(f.priority) && Truthy(f.location)
  }

  /** The insert the handler sends: the session user as submitter and the
      posted images or []. */
  function ReportInsert(f: ReportForm, userId: string): (r: InsertReport)
    requires ReportFormComplete(f)
    ensures r.submittedBy == userId && r.images == Some(ImagesOrEmpty(f.images))
    ensures Some(r.category) == f.category && Some(r.description) == f.description
    ensures Some(r.priority) == f.priority && Some(r.location) == f.location
  {
    InsertReport(f.category.value, f.description.value, f.priority.value, f.location.value,
                 Some(ImagesOrEmpty(f.images)), userId)
  }

  /** The audit options of a submission: a resident submitting to the
      reports module, with the new report's id, category and priority. */
  function SubmitAudit(userId: string, userName: Option<string>, report: Report): (r: LogOptions)
    ensures r.action == "Submitted report" && r.moduleName == "Reports" && r.userRole == Some("resident")
    ensures r.userId == Some(userId) && r.userName == userName
    ensures r.affectedData.Some? && "Report ID: " + report.id + ", Category: " + report.category <= r.affectedData.value
    ensures r.affectedData.Some? && EndsWith(r.affectedData.value, ", Priority: " + report.priority)
  {
    var head := "Report ID: " + report.id + ", Category: " + report.category;
    ConcatAffixes(head, ", Priority: " + report.priority);
    LogOptions(Some(userId), userName, Some("resident"), "Submitted report",
               Some(head + (", Priority: " + report.priority)), "Reports")
  }

  /** Validation comes before the session check; a valid submission stores
      one report with status "submitted" under the session user and audits
      it; only the report and log tables change. */
  method SubmitReport(db: Database, session: Session, req: Request, form: ReportForm, fault: AuditFault)
    returns (resp: Response)
    requires db.Valid()
    modifies db`reports, db`logs, db`clock, db`issued
    ensures db.Valid()
    ensures !ReportFormComplete(form) ==>
      resp == Response(400, ErrorBody("Missing required fields"))
      && db.reports == old(db.reports) && db.logs == old(db.logs)
    ensures ReportFormComplete(form) && !Truthy(session.userId) ==>
      resp == Response(401, ErrorBody("Not authenticated"))
      && db.reports == old(db.reports) && db.logs == old(db.logs)
    ensures ReportFormComplete(form) && Truthy(session.userId) ==>
      && resp.status == 201 && resp.body.ReportBody?
      && resp.body.report == NewReport(ReportInsert(form, session.userId.value), IdOf(old(db.clock)), old(db.clock))
      && resp.body.report.status == "submitted"
      && resp.body.report.submittedBy == session.userId.value
      && resp.body.report.images == ImagesOrEmpty(form.images)
      && db.reports == old(db.reports) + [resp.body.report]
      && Audited(old(db.logs), db.logs,
                 AuditRecord(db.users, req, SubmitAudit(session.userId.value, UserNameOf(db.users, session.userId.value),
                                                        resp.body.report), fault))
    ensures ReportFormComplete(form) && Truthy(session.userId) && fault == NoFault ==>
      && |db.logs| == |old(db.logs)| + 1
      && db.logs[|db.logs| - 1].action == "Submitted report"
      && db.logs[|db.logs| - 1].moduleName == Some("Reports")
      && db.logs[|db.logs| - 1].userRole == Some("resident")
      && db.logs[|db.logs| - 1].userId == session.userId
  {
    if !ReportFormComplete(form) {
      return Response(400, ErrorBody("Missing required fields"));
    }
    if !Truthy(session.userId) {
      return Response(401, ErrorBody("Not authenticated"));
    }
    var userId := session.userId.value;
    var report := db.CreateReport(ReportInsert(form, userId));
    var opts := LogOptions(Some(userId), UserNameOf(db.users, userId), Some("resident"), "Submitted report",
                           Some("Report ID: " + report.id + ", Category: " + form.category.value
                                + (", Priority: " + form.priority.value)),
                           "Reports");
    assert opts == SubmitAudit(userId, UserNameOf(db.users, userId), report);
    LogAction(db, req, opts, fault);
    return Response(201, ReportBody(report));
  }

  // ----------------------------------------------------------------------
  // PATCH /api/reports/:id
  // ----------------------------------------------------------------------

  /** A PATCH body: report columns plus the sender's role, which is used
      for the messages and the audit entry but never stored on the report. */
  datatype ReportUpdates = ReportUpdates(patch: ReportPatch, senderRole: Option<string>)

  /** An admin asking the resident for more information. */
  predicate AsksForInfo(u: ReportUpdates) {
    Truthy(u.patch.adminFeedback) && Truthy(u.senderRole)
  }

  /** A resident answering with more information. */
  predicate ProvidesInfo(u: ReportUpdates) {
    Truthy(u.patch.additionalInfo) && Truthy(u.senderRole)
  }

  /** The conversation messages a PATCH appends, in the order it appends
      them: the feedback (without images) before the answer (with its
      images or []), both from the session user under the sender's role. */
  function PatchMessages(reportId: string, userId: string, u: ReportUpdates): (r: seq<InsertReportMessage>)
    ensures |r| == (if AsksForInfo(u) then 1 else 0) + (if ProvidesInfo(u) then 1 else 0)
    ensures forall m :: m in r ==> m.reportId == reportId && m.senderId == userId && Some(m.senderRole) == u.senderRole
    ensures AsksForInfo(u) ==> r[0].message == u.patch.adminFeedback.value && r[0].images == Some([])
    ensures ProvidesInfo(u) ==>
      r[|r| - 1].message == u.patch.additionalInfo.value
      && r[|r| - 1].images == Some(ImagesOrEmpty(u.patch.additionalInfoImages))
  {
    (if AsksForInfo(u)
     then [InsertReportMessage(reportId, userId, u.senderRole.value, u.patch.adminFeedback.value, Some([]))]
     else [])
    + (if ProvidesInfo(u)
       then [InsertReportMessage(reportId, userId, u.senderRole.value, u.patch.additionalInfo.value,
                                 Some(ImagesOrEmpty(u.patch.additionalInfoImages)))]
       else [])
  }

  /** The audit label by precedence: a status change on an existing report,
      then an answer, then a request for information, then a plain update. */
  function ReportAuditAction(u: ReportUpdates, existed: bool): string {
    if Truthy(u.patch.status) && existed then "Updated report status"
    else if ProvidesInfo(u) then "Provided additional information"
    else if AsksForInfo(u) then "Requested additional information"
    else "Updated report"
  }

  /** The audit details for the same precedence. */
  function ReportAuditDetails(reportId: string, u: ReportUpdates, existing: Option<ReportView>): string {
    if Truthy(u.patch.status) && existing.Some? then
      "Report ID: " + reportId + " - Status changed from " + existing.value.report.status
      + " to " + u.patch.status.value
    else if ProvidesInfo(u) then "Report ID: " + reportId + " - Responded to admin inquiry"
    else if AsksForInfo(u) then "Report ID: " + reportId + " - Requested additional info from resident"
    else "Report ID: " + reportId
  }

  /** Each label is chosen exactly when the events that outrank it are
      absent and its own event is present. */
  lemma ReportAuditPrecedence(u: ReportUpdates, existed: bool)
    ensures ReportAuditAction(u, existed) == "Updated report status" <==> Truthy(u.patch.status) && existed
    ensures ReportAuditAction(u, existed) == "Provided additional information" <==>
              !(Truthy(u.patch.status) && existed) && ProvidesInfo(u)
    ensures ReportAuditAction(u, existed) == "Requested additional information" <==>
              !(Truthy(u.patch.status) && existed) && !ProvidesInfo(u) && AsksForInfo(u)
    ensures ReportAuditAction(u, existed) == "Updated report" <==>
              !(Truthy(u.patch.status) && existed) && !ProvidesInfo(u) && !AsksForInfo(u)
  {
  }

  /** The label and the details always describe the same event, and the
      details always start with the report id. */
  lemma ReportAuditConsistent(reportId: string, u: ReportUpdates, existing: Option<ReportView>)
    ensures "Report ID: " + reportId <= ReportAuditDetails(reportId, u, existing)
    ensures ReportAuditAction(u, existing.Some?) == "Updated report status" <==>
            Truthy(u.patch.status) && existing.Some?
    ensures ReportAuditAction(u, existing.Some?) == "Updated report status" ==>
            ReportAuditDetails(reportId, u, existing) ==
              "Report ID: " + reportId + " - Status changed from " + existing.value.report.status
              + " to " + u.patch.status.value
    ensures ReportAuditAction(u, existing.Some?) == "Updated report" <==>
            ReportAuditDetails(reportId, u, existing) == "Report ID: " + reportId
  {
  }

  /** The audit options of a report PATCH: the sender's role, or "admin"
      when the body names none, in the reports module. */
  function ReportAudit(reportId: string, userId: string, userName: Option<string>, u: ReportUpdates,
                       existing: Option<ReportView>): (r: LogOptions)
    ensures Truthy(u.senderRole) ==> r.userRole == u.senderRole
    ensures !Truthy(u.senderRole) ==> r.userRole == Some("admin")
    ensures r.moduleName == "Reports" && r.userId == Some(userId) && r.userName == userName
    ensures r.action == ReportAuditAction(u, existing.Some?)
    ensures r.affectedData == Some(ReportAuditDetails(reportId, u, existing))
  {
    LogOptions(Some(userId), userName, Some(OrElse(u.senderRole, "admin")),
               ReportAuditAction(u, existing.Some?), Some(ReportAuditDetails(reportId, u, existing)), "Reports")
  }

  /** The message table grew by rows carrying exactly `expected`, in order. */
  ghost predicate MessagesAppended(before: seq<ReportMessage>, after: seq<ReportMessage>,
                                   expected: seq<InsertReportMessage>) {
    && |after| == |before| + |expected|
    && after[..|before|] == before
    && forall k :: 0 <= k < |expected| ==> InsertOfMessage(after[|before| + k]) == expected[k]
  }

  /** Stores one more message of the conversation. */
  method AppendMessage(db: Database, ghost before: seq<ReportMessage>, ghost expected: seq<InsertReportMessage>,
                       ins: InsertReportMessage)
    requires db.Valid()
    requires MessagesAppended(before, db.messages, expected)
    requires ins.images.Some?
    modifies db`messages, db`clock, db`issued
    ensures db.Valid()
    ensures MessagesAppended(before, db.messages, expected + [ins])
    ensures db.clock == old(db.clock) + 1
  {
    ghost var mid := db.messages;
    var m := db.CreateReportMessage(ins);
    assert (mid + [m])[..|before|] == mid[..|before|];
  }

  /** The conversation part of a report PATCH: appends the feedback
      message, then the answer message, and reassigns the audit label and
      details as each step (and finally a status change on an existing
      report) applies. */
  method RecordConversation(db: Database, reportId: string, userId: string, u: ReportUpdates,
                            existingReport: Option<ReportView>)
    returns (logActionName: string, logDetails: string)
    requires db.Valid()
    modifies db`messages, db`clock, db`issued
    ensures db.Valid()
    ensures MessagesAppended(old(db.messages), db.messages, PatchMessages(reportId, userId, u))
    ensures db.clock == old(db.clock) + |PatchMessages(reportId, userId, u)|
    ensures db.reports == old(db.reports) && db.logs == old(db.logs)
    ensures logActionName == ReportAuditAction(u, existingReport.Some?)
    ensures logDetails == ReportAuditDetails(reportId, u, existingReport)
  {
    logActionName := "Updated report";
    logDetails := "Report ID: " + reportId;
    ghost var expected: seq<InsertReportMessage> := [];
    assert db.messages[..|old(db.messages)|] == old(db.messages);

    if Truthy(u.patch.adminFeedback) && Truthy(u.senderRole) {
      var ins := InsertReportMessage(reportId, userId, u.senderRole.value, u.patch.adminFeedback.value, Some([]));
      AppendMessage(db, old(db.messages), expected, ins);
      expected := expected + [ins];
      logActionName := "Requested additional information";
      logDetails := "Report ID: " + reportId + " - Requested additional info from resident";
    }

    if Truthy(u.patch.additionalInfo) && Truthy(u.senderRole) {
      var ins := InsertReportMessage(reportId, userId, u.senderRole.value, u.patch.additionalInfo.value,
                                     Some(ImagesOrEmpty(u.patch.additionalInfoImages)));
      AppendMessage(db, old(db.messages), expected, ins);
      expected := expected + [ins];
      logActionName := "Provided additional information";
      logDetails := "Report ID: " + reportId + " - Responded to admin inquiry";
    }

    if Truthy(u.patch.status) && existingReport.Some? {
      logActionName := "Updated report status";
      logDetails := "Report ID: " + reportId + " - Status changed from " + existingReport.value.report.status
                    + " to " + u.patch.status.value;
    }
    assert expected == PatchMessages(reportId, userId, u);
  }

  /** Unauthenticated: 401. A truthy status outside the report statuses:
      400, before any write. Otherwise the PATCH goes ahead for the session
      user. Any listed status is accepted whatever the report's current
      status. */
  method PatchReportRoute(db: Database, session: Session, req: Request, reportId: string, u: ReportUpdates,
                          fault: AuditFault)
    returns (resp: Response)
    requires db.Valid()
    modifies db`messages, db`reports, db`logs, db`clock, db`issued
    ensures db.Valid()
    ensures !Truthy(session.userId) ==>
      resp == Response(401, ErrorBody("Not authenticated"))
      && db.messages == old(db.messages) && db.reports == old(db.reports) && db.logs == old(db.logs)
    ensures Truthy(session.userId) && StatusRejected(u.patch.status, ReportStatuses) ==>
      resp == Response(400, ErrorBody("Invalid status"))
      && db.messages == old(db.messages) && db.reports == old(db.reports) && db.logs == old(db.logs)
    ensures Truthy(session.userId) && !StatusRejected(u.patch.status, ReportStatuses) ==>
      ReportPatched(old(db.messages), old(db.reports), old(db.logs), old(db.clock), old(db.GetReport(reportId)),
                    db.messages, db.reports, db.logs, db.users, db.GetReport(reportId),
                    req, reportId, session.userId.value, u, fault, resp)
  {
    if !Truthy(session.userId) {
      return Response(401, ErrorBody("Not authenticated"));
    }
    if Truthy(u.patch.status) {
      if u.patch.status.value !in ReportStatuses {
        return Response(400, ErrorBody("Invalid status"));
      }
    }
    resp := ApplyReportPatch(db, req, reportId, session.userId.value, u, fault);
  }

  /** What a PATCH that passed validation leaves behind: the conversation
      messages appended, then the report update at the stamp after them. */
  ghost predicate ReportPatched(messages0: seq<ReportMessage>, reports0: seq<Report>, logs0: seq<SystemLog>,
                                clock0: nat, existing: Option<ReportView>,
                                messages: seq<ReportMessage>, reports: seq<Report>, logs: seq<SystemLog>,
                                users: seq<User>, found: Option<ReportView>,
                                req: Request, reportId: string, userId: string, u: ReportUpdates,
                                fault: AuditFault, resp: Response)
  {
    var expected := PatchMessages(reportId, userId, u);
    && MessagesAppended(messages0, messages, expected)
    && ReportUpdated(reports0, logs0, existing, reports, logs, users, found, req, reportId, userId,
                     UserNameOf(users, userId), u, clock0 + |expected|, fault, resp)
  }

  /** The report update of a PATCH: the rows with the id patched at
      `stamp`, every other row unchanged; then either 404 with no audit
      entry, or 200 with the updated report as stored and the audit entry
      for the precedence label. */
  ghost predicate ReportUpdated(reports0: seq<Report>, logs0: seq<SystemLog>, existing: Option<ReportView>,
                                reports: seq<Report>, logs: seq<SystemLog>, users: seq<User>,
                                found: Option<ReportView>, req: Request, reportId: string, userId: string,
                                userName: Option<string>, u: ReportUpdates, stamp: nat, fault: AuditFault,
                                resp: Response)
  {
    && ReportsPatched(reports0, reports, reportId, u.patch, stamp)
    && (existing.None? ==>
          resp == Response(404, ErrorBody("Report not found")) && logs == logs0)
    && (existing.Some? ==>
          && resp.status == 200 && resp.body.ReportViewBody?
          && found == Some(resp.body.view)
          && resp.body.view.report == PatchReport(existing.value.report, u.patch, stamp)
          && Audited(logs0, logs, AuditRecord(users, req, ReportAudit(reportId, userId, userName, u, existing), fault)))
  }

  /** A validated PATCH by `userId`: the messages are appended first, then
      the report is updated (404 and no audit entry when it does not exist,
      the messages staying appended), then the update is audited under the
      precedence label. */
  method ApplyReportPatch(db: Database, req: Request, reportId: string, userId: string, u: ReportUpdates,
                          fault: AuditFault)
    returns (resp: Response)
    requires db.Valid()
    modifies db`messages, db`reports, db`logs, db`clock, db`issued
    ensures db.Valid()
    ensures ReportPatched(old(db.messages), old(db.reports), old(db.logs), old(db.clock), old(db.GetReport(reportId)),
                          db.messages, db.reports, db.logs, db.users, db.GetReport(reportId),
                          req, reportId, userId, u, fault, resp)
  {
    var existingReport := db.GetReport(reportId);
    var logActionName, logDetails := RecordConversation(db, reportId, userId, u, existingReport);
    resp := UpdateAndAudit(db, req, reportId, userId, UserNameOf(db.users, userId), u, existingReport,
                           logActionName, logDetails, fault,
                           old(db.reports), old(db.logs), old(db.clock) + |PatchMessages(reportId, userId, u)|);
  }

  /** The tail of a report PATCH: the update (without the sender's role),
      404 when the report does not exist, otherwise the audit entry under
      the chosen label, and the updated report. */
  method UpdateAndAudit(db: Database, req: Request, reportId: string, userId: string, userName: Option<string>,
                        u: ReportUpdates, existingReport: Option<ReportView>,
                        logActionName: string, logDetails: string, fault: AuditFault,
                        ghost reports0: seq<Report>, ghost logs0: seq<SystemLog>, ghost stamp: nat)
    returns (resp: Response)
    requires db.Valid()
    requires reports0 == db.reports && logs0 == db.logs && stamp == db.clock
    requires existingReport == db.GetReport(reportId)
    requires logActionName == ReportAuditAction(u, existingReport.Some?)
    requires logDetails == ReportAuditDetails(reportId, u, existingReport)
    modifies db`reports, db`logs, db`clock, db`issued
    ensures db.Valid()
    ensures ReportUpdated(reports0, logs0, existingReport, db.reports, db.logs, db.users, db.GetReport(reportId),
                          req, reportId, userId, userName, u, stamp, fault, resp)
    ensures db.messages == old(db.messages)
  {
    var updatedReport := db.UpdateReport(reportId, u.patch);
    if updatedReport.None? {
      return Response(404, ErrorBody("Report not found"));
    }
    var opts := LogOptions(Some(userId), userName, Some(OrElse(u.senderRole, "admin")),
                           logActionName, Some(logDetails), "Reports");
    LogAction(db, req, opts, fault);
    return Response(200, ReportViewBody(updatedReport.value));
  }

  // ----------------------------------------------------------------------
  // GET /api/reports/:id/messages
  // ----------------------------------------------------------------------

  /** The conversation of one report, oldest first; sign-in required. */
  method ListMessages(db: Database, session: Session, reportId: string) returns (resp: Response)
    requires db.Valid()
    ensures !Truthy(session.userId) ==> resp == Response(401, ErrorBody("Not authenticated"))
    ensures Truthy(session.userId) ==>
      resp == Response(200, MessageListBody(JoinMessages(db.users, OldestFirst(db.messages, reportId, BelongsTo))))
  {
    if !Truthy(session.userId) {
      return Response(401, ErrorBody("Not authenticated"));
    }
    var messages := db.GetReportMessages(reportId);
    return Response(200, MessageListBody(messages));
  }

  // ----------------------------------------------------------------------
  // Query strings: parseInt and the filter objects
  // ----------------------------------------------------------------------

  predicate IsDigit(c: char) {
    '0' <= c <= '9'
  }

  predicate IsHexDigit(c: char) {
    IsDigit(c) || 'a' <= c <= 'f' || 'A' <= c <= 'F'
  }

  /** The value of a digit: its place among the digits of either case. */
  function HexDigitValue(c: char): (v: nat)
    requires IsHexDigit(c)
    ensures v < 16
    ensures IsDigit(c) <==> v < 10
    ensures c == "0123456789abcdef"[v] || c == "0123456789ABCDEF"[v]
  {
    if IsDigit(c) then (c as int) - ('0' as int)
    else if 'a' <= c <= 'f' then (c as int) - ('a' as int) + 10
    else (c as int) - ('A' as int) + 10
  }

  /** The longest prefix of `s` whose characters all satisfy `ok`. */
  function LongestPrefix(s: string, ok: char -> bool): (r: string)
    ensures r <= s
    ensures forall i :: 0 <= i < |r| ==> ok(r[i])
    ensures |r| < |s| ==> !ok(s[|r|])
  {
    if s == [] || !ok(s[0]) then [] else [s[0]] + LongestPrefix(s[1..], ok)
  }

  /** The value of a numeral in the given base. */
  function NumeralValue(ds: string, base: nat): nat
    requires forall i :: 0 <= i < |ds| ==> IsHexDigit(ds[i])
  {
    if ds == [] then 0 else NumeralValue(ds[..|ds| - 1], base) * base + HexDigitValue(ds[|ds| - 1])
  }

  /** `parseInt(s)` without a radix: leading white space is skipped, a sign
      is read, "0x"/"0X" switches to base 16, and the longest run of digits
      is read; no digit at all is NaN (None). */
  function ParseInt(s: string): (r: Option<int>)
    ensures TrimStart(s) == [] ==> r.None?
    ensures r.Some? && r.value < 0 ==> TrimStart(s)[0] == '-'
    ensures r.Some? ==> var t := TrimStart(s); IsDigit(t[0]) || t[0] == '-' || t[0] == '+'
  {
    var t := TrimStart(s);
    var sign := if |t| > 0 && t[0] == '-' then -1 else 1;
    var u := if |t| > 0 && (t[0] == '-' || t[0] == '+') then t[1..] else t;
    match ReadDigits(u)
    case Some(n) => Some(sign * n)
    case None => None
  }

  /** The unsigned part of parseInt: "0x"/"0X" and the longest run of hex
      digits after it, or else the longest run of decimal digits. */
  function ReadDigits(u: string): (r: Option<nat>)
    ensures r.Some? ==> u != [] && IsDigit(u[0])
  {
    if |u| >= 2 && u[0] == '0' && (u[1] == 'x' || u[1] == 'X') then
      var h := LongestPrefix(u[2..], IsHexDigit);
      if h == [] then None else Some(NumeralValue(h, 16))
    else
      var d := LongestPrefix(u, IsDigit);
      if d == [] then None else Some(NumeralValue(d, 10))
  }

  lemma {:induction false} DecimalDigits(n: nat)
    ensures forall i :: 0 <= i < |Decimal(n)| ==> IsDigit(Decimal(n)[i])
    ensures NumeralValue(Decimal(n), 10) == n
    decreases n
  {
    if n >= 10 {
      DecimalDigits(n / 10);
      var s := Decimal(n);
      assert s[..|s| - 1] == Decimal(n / 10);
    }
  }

  lemma {:induction false} LongestPrefixStops(s: string, rest: string, ok: char -> bool)
    requires forall i :: 0 <= i < |s| ==> ok(s[i])
    requires rest == [] || !ok(rest[0])
    ensures LongestPrefix(s + rest, ok) == s
    decreases |s|
  {
    if s != [] {
      assert (s + rest)[1..] == s[1..] + rest;
      LongestPrefixStops(s[1..], rest, ok);
    }
  }

  /** parseInt reads back a decimal numeral and ignores whatever follows
      it that is not a digit ("0x" excepted, which starts a hex number). */
  lemma ParseIntReadsDecimal(n: nat, rest: string)
    requires rest == [] || !IsDigit(rest[0])
    requires n == 0 && rest != [] ==> rest[0] != 'x' && rest[0] != 'X'
    ensures ParseInt(Decimal(n) + rest) == Some(n)
  {
    ReadDigitsDecimal(n, rest);
    ParseIntUnsigned(Decimal(n) + rest, n);
  }

  /** A minus sign before a numeral negates it. */
  lemma ParseIntNegative(n: nat, rest: string)
    requires rest == [] || !IsDigit(rest[0])
    requires n == 0 && rest != [] ==> rest[0] != 'x' && rest[0] != 'X'
    ensures ParseInt("-" + (Decimal(n) + rest)) == Some(-(n as int))
  {
    ReadDigitsDecimal(n, rest);
    ParseIntMinus(Decimal(n) + rest, n);
  }

  /** "0x" followed by hex digits is read in base 16, up to the first
      character that is not a hex digit. */
  lemma ParseIntReadsHex(h: string, rest: string)
    requires h != [] && forall i :: 0 <= i < |h| ==> IsHexDigit(h[i])
    requires rest == [] || !IsHexDigit(rest[0])
    ensures ParseInt("0x" + h + rest) == Some(NumeralValue(h, 16))
  {
    HexPrefixed(h, rest);
    ReadDigitsHex("0x" + h + rest, h, rest);
    ParseIntUnsigned("0x" + h + rest, NumeralValue(h, 16));
  }

  /** Text that starts with a digit is read from its first character. */
  lemma ParseIntUnsigned(str: string, v: nat)
    requires str != [] && IsDigit(str[0])
    requires ReadDigits(str) == Some(v)
    ensures ParseInt(str) == Some(v)
  {
    assert TrimStart(str) == str;
  }

  /** A minus sign before unsigned text negates what it reads. */
  lemma ParseIntMinus(u: string, v: nat)
    requires u != [] && IsDigit(u[0])
    requires ReadDigits(u) == Some(v)
    ensures ParseInt("-" + u) == Some(-(v as int))
  {
    var str := "-" + u;
    assert str[0] == '-' && str[1..] == u;
    assert TrimStart(str) == str;
  }

  /** The unsigned reader gives back a decimal numeral followed by text
      that neither continues it nor turns it into "0x". */
  lemma ReadDigitsDecimal(n: nat, rest: string)
    requires rest == [] || !IsDigit(rest[0])
    requires n == 0 && rest != [] ==> rest[0] != 'x' && rest[0] != 'X'
    ensures Decimal(n) + rest != [] && IsDigit((Decimal(n) + rest)[0])
    ensures ReadDigits(Decimal(n) + rest) == Some(n)
  {
    var s := Decimal(n);
    DecimalDigits(n);
    if n >= 10 {
      assert IsDigit(s[1]);
    } else if n == 0 {
      assert s == ['0'];
    } else {
      assert s == [DigitChar(n)];
    }
    assert (s + rest)[0] == s[0];
    NoHexPrefix(s, rest);
    LongestPrefixStops(s, rest, IsDigit);
  }

  /** A numeral followed by a non-digit has no "0x" prefix unless it is
      "0" followed by an x. */
  lemma NoHexPrefix(s: string, rest: string)
    requires s != [] && IsDigit(s[0])
    requires |s| >= 2 ==> IsDigit(s[1])
    requires s[0] == '0' && rest != [] ==> |s| >= 2 || (rest[0] != 'x' && rest[0] != 'X')
    ensures var str := s + rest; !(|str| >= 2 && str[0] == '0' && (str[1] == 'x' || str[1] == 'X'))
  {
    var str := s + rest;
    if |str| >= 2 && str[0] == '0' {
      if |s| >= 2 {
        assert str[1] == s[1];
      } else {
        assert str[1] == rest[0];
      }
    }
  }

  /** The unsigned reader takes the hex digits after "0x" or "0X". */
  lemma ReadDigitsHex(u: string, h: string, rest: string)
    requires h != [] && forall i :: 0 <= i < |h| ==> IsHexDigit(h[i])
    requires rest == [] || !IsHexDigit(rest[0])
    requires |u| >= 2 && u[0] == '0' && (u[1] == 'x' || u[1] == 'X') && u[2..] == h + rest
    ensures ReadDigits(u) == Some(NumeralValue(h, 16))
  {
    LongestPrefixStops(h, rest, IsHexDigit);
  }

  /** How "0x" + h + rest is laid out. */
  lemma HexPrefixed(h: string, rest: string)
    ensures var str := "0x" + h + rest; |str| >= 2 && str[0] == '0' && str[1] == 'x' && str[2..] == h + rest
  {
    var str := "0x" + h + rest;
    assert str[2..] == h + rest;
  }

  /** parseInt("0x10") is 16. */
  lemma ParseIntHexExample()
    ensures ParseInt("0x10") == Some(16)
  {
    ParseIntReadsHex("10", "");
    assert "0x" + "10" + "" == "0x10";
    assert NumeralValue("10", 16) == NumeralValue("1", 16) * 16 by {
      assert "10"[..1] == "1";
    }
    assert NumeralValue("1", 16) == 1 by {
      assert "1"[..0] == "";
    }
  }

  /** A limit that does not start with a digit or a sign (after white
      space) is NaN and does not limit. */
  lemma ParseIntNaN(s: string)
    requires var t := TrimStart(s); t == [] || (!IsDigit(t[0]) && t[0] != '-' && t[0] != '+')
    ensures ParseInt(s) == None
    ensures !LimitApplies(ParseInt(s))
  {
  }

  /** The query string of GET /api/logs. */
  datatype LogParams = LogParams(
    role: Option<string>,
    moduleName: Option<string>,
    userId: Option<string>,
    search: Option<string>,
    limit: Option<string>)

  /** The filter object the handler builds: a key is set only for a truthy
      parameter, and the limit is `parseInt` of its text. */
  function LogFiltersOf(p: LogParams): (f: LogFilters)
    ensures f.role == OrNull(p.role) && f.moduleName == OrNull(p.moduleName)
    ensures f.userId == OrNull(p.userId) && f.search == OrNull(p.search)
    ensures !Truthy(p.limit) ==> f.limit.None?
    ensures Truthy(p.limit) ==> f.limit == ParseInt(p.limit.value)
  {
    LogFilters(OrNull(p.role), OrNull(p.moduleName), OrNull(p.userId), OrNull(p.search),
               if Truthy(p.limit) then ParseInt(p.limit.value) else None)
  }

  /** Dropping falsy parameters in the handler changes nothing: the storage
      layer ignores falsy filters anyway. */
  lemma LogFiltersOfAgrees(p: LogParams, l: SystemLog)
    ensures LogMatches(LogFiltersOf(p), l) <==>
            LogMatches(LogFilters(p.role, p.moduleName, p.userId, p.search, None), l)
  {
  }

  /** GET /api/logs: sign-in required; a negative limit makes the query
      fail with 500. */
  method ListLogs(db: Database, session: Session, p: LogParams) returns (resp: Response)
    requires db.Valid()
    ensures !Truthy(session.userId) ==> resp == Response(401, ErrorBody("Not authenticated"))
    ensures Truthy(session.userId) && LimitRejected(LogFiltersOf(p).limit) ==>
      resp == Response(500, ErrorBody("Failed to fetch logs"))
    ensures Truthy(session.userId) && !LimitRejected(LogFiltersOf(p).limit) ==>
      resp == Response(200, LogListBody(LogQuery(db.logs, LogFiltersOf(p))))
  {
    if !Truthy(session.userId) {
      return Response(401, ErrorBody("Not authenticated"));
    }
    var filters := LogFilters(None, None, None, None, None);
    if Truthy(p.role) {
      filters := filters.(role := p.role);
    }
    if Truthy(p.moduleName) {
      filters := filters.(moduleName := p.moduleName);
    }
    if Truthy(p.userId) {
      filters := filters.(userId := p.userId);
    }
    if Truthy(p.search) {
      filters := filters.(search := p.search);
    }
    if Truthy(p.limit) {
      filters := filters.(limit := ParseInt(p.limit.value));
    }
    var logs := db.GetSystemLogs(filters);
    if logs.Failed? {
      return Response(500, ErrorBody("Failed to fetch logs"));
    }
    return Response(200, LogListBody(logs.value));
  }

  // ----------------------------------------------------------------------
  // GET /api/memos
  // ----------------------------------------------------------------------

  /** The query string of GET /api/memos. */
  datatype MemoParams = MemoParams(showOnlyApproved: Option<string>, status: Option<string>, category: Option<string>)

  /** Only the exact text "true" turns on showOnlyApproved. */
  function MemoFiltersOf(p: MemoParams): (f: MemoFilters)
    ensures f.showOnlyApproved <==> p.showOnlyApproved == Some("true")
    ensures f.status == OrNull(p.status) && f.category == OrNull(p.category)
  {
    MemoFilters(OrNull(p.status), OrNull(p.category), p.showOnlyApproved == Some("true"))
  }

  /** GET /api/memos: sign-in required. */
  method ListMemos(db: Database, session: Session, p: MemoParams) returns (resp: Response)
    requires db.Valid()
    ensures !Truthy(session.userId) ==> resp == Response(401, ErrorBody("Not authenticated"))
    ensures Truthy(session.userId) ==>
      resp == Response(200, MemoListBody(JoinMemos(db.users, MemoQuery(db.memos, MemoFiltersOf(p)))))
  {
    if !Truthy(session.userId) {
      return Response(401, ErrorBody("Not authenticated"));
    }
    var filters := MemoFilters(None, None, false);
    var showOnlyApproved := p.showOnlyApproved == Some("true");
    if showOnlyApproved {
      filters := filters.(showOnlyApproved := true);
    }
    if Truthy(p.status) {
      filters := filters.(status := p.status);
    }
    if Truthy(p.category) {
      filters := filters.(category := p.category);
    }
    var memos := db.GetMemos(filters);
    return Response(200, MemoListBody(memos));
  }

  // ----------------------------------------------------------------------
  // POST /api/memos
  // ----------------------------------------------------------------------

  /** The fields the memo form posts. */
  datatype MemoForm = MemoForm(
    title: Option<string>,
    description: Option<string>,
    category: Option<string>,
    effectiveDate: Option<string>,
    fileUrl: Option<string>,
    status: Option<string>)

  /** Title, description and category are present and not empty; the
      effective date, the file and the status are optional. */
  predicate MemoFormComplete(f: MemoForm): (r: bool)
    ensures r <==> f.title.Some? && f.title.value != "" && f.description.Some? && f.description.value != ""
                   && f.category.Some? && f.category.value != ""
  {
    Truthy(f.title) && Truthy(f.description) && Truthy(f.category)
  }

  /** The insert the handler sends: any truthy status, else "pending";
      falsy optional fields become NULL. */
  function MemoInsert(f: MemoForm, userId: string): (r: InsertMemo)
    requires MemoFormComplete(f)
    ensures r.status == Some(OrElse(f.status, DefaultMemoStatus))
    ensures r.issuedBy == userId && r.effectiveDate == OrNull(f.effectiveDate) && r.fileUrl == OrNull(f.fileUrl)
    ensures Some(r.title) == f.title && Some(r.description) == f.description && Some(r.category) == f.category
  {
    InsertMemo(f.title.value, f.description.value, f.category.value, OrNull(f.effectiveDate),
               OrNull(f.fileUrl), userId, Some(OrElse(f.status, "pending")))
  }

  /** The audit options of a memo creation: publishing when the status is
      "approved", a request otherwise. */
  function CreateMemoAudit(userId: string, userName: Option<string>, memo: Memo): (r: LogOptions)
    ensures r.userRole == Some("admin") <==> memo.status == "approved"
    ensures r.action == "Published memo/ordinance" <==> memo.status == "approved"
    ensures memo.status != "approved" ==>
      r.userRole == Some("official") && r.action == "Created memo/ordinance request"
    ensures r.moduleName == "Memos" && r.userId == Some(userId) && r.userName == userName
  {
    var approved := memo.status == "approved";
    LogOptions(Some(userId), userName, Some(if approved then "admin" else "official"),
               if approved then "Published memo/ordinance" else "Created memo/ordinance request",
               Some("Memo ID: " + memo.id + ", Title: " + memo.title + ", Category: " + memo.category
                    + ", Status: " + memo.status),
               "Memos")
  }

  /** The session check comes first here, then validation; the memo is
      stored with the posted status (any text) or "pending" and audited. */
  method CreateMemo(db: Database, session: Session, req: Request, form: MemoForm, fault: AuditFault)
    returns (resp: Response)
    requires db.Valid()
    modifies db`memos, db`logs, db`clock, db`issued
    ensures db.Valid()
    ensures !Truthy(session.userId) ==>
      resp == Response(401, ErrorBody("Not authenticated")) && db.memos == old(db.memos) && db.logs == old(db.logs)
    ensures Truthy(session.userId) && !MemoFormComplete(form) ==>
      resp == Response(400, ErrorBody("Missing required fields")) && db.memos == old(db.memos) && db.logs == old(db.logs)
    ensures Truthy(session.userId) && MemoFormComplete(form) ==>
      && resp.status == 201 && resp.body.MemoBody?
      && resp.body.memo == NewMemo(MemoInsert(form, session.userId.value), IdOf(old(db.clock)), old(db.clock))
      && resp.body.memo.status == OrElse(form.status, DefaultMemoStatus)
      && db.memos == old(db.memos) + [resp.body.memo]
      && Audited(old(db.logs), db.logs,
                 AuditRecord(db.users, req, CreateMemoAudit(session.userId.value, UserNameOf(db.users, session.userId.value),
                                                            resp.body.memo), fault))
  {
    if !Truthy(session.userId) {
      return Response(401, ErrorBody("Not authenticated"));
    }
    if !MemoFormComplete(form) {
      return Response(400, ErrorBody("Missing required fields"));
    }
    var userId := session.userId.value;
    var status := OrElse(form.status, "pending");
    var memo := db.CreateMemo(MemoInsert(form, userId));
    var opts := LogOptions(Some(userId), UserNameOf(db.users, userId), Some(if status == "approved" then "admin" else "official"),
                           if status == "approved" then "Published memo/ordinance" else "Created memo/ordinance request",
                           Some("Memo ID: " + memo.id + ", Title: " + form.title.value + ", Category: "
                                + form.category.value + ", Status: " + status),
                           "Memos");
    assert opts == CreateMemoAudit(userId, UserNameOf(db.users, userId), memo);
    LogAction(db, req, opts, fault);
    return Response(201, MemoBody(memo));
  }

  // ----------------------------------------------------------------------
  // PATCH /api/memos/:id
  // ----------------------------------------------------------------------

  /** `s.endsWith(suffix)`. */
  predicate EndsWith(s: string, suffix: string) {
    |suffix| <= |s| && s[|s| - |suffix|..] == suffix
  }

  /** A concatenation starts with its first part and ends with its second. */
  lemma ConcatAffixes(a: string, b: string)
    ensures a <= a + b && EndsWith(a + b, b)
  {
    assert (a + b)[|a|..] == b;
  }

  /** The arrow of the status change, as the handler's text has it. */
  const StatusArrow := " \U{E2}\U{2020}\U{2019} "

  /** The audit label: the new status decides, by exact comparison. */
  function MemoAuditAction(status: Option<string>): (r: string)
    ensures r == "Approved and published memo/ordinance" <==> status == Some("approved")
    ensures r == "Rejected memo/ordinance" <==> status == Some("rejected")
    ensures status != Some("approved") && status != Some("rejected") ==> r == "Updated memo/ordinance"
  {
    if status == Some("approved") then "Approved and published memo/ordinance"
    else if status == Some("rejected") then "Rejected memo/ordinance"
    else "Updated memo/ordinance"
  }

  /** The audit options of a memo update: the old status, and the new one
      or the old one again when none was given. */
  function PatchMemoAudit(memoId: string, userId: string, userName: Option<string>, p: MemoPatch, existing: Memo)
    : (r: LogOptions)
    ensures r.action == MemoAuditAction(p.status) && r.userRole == Some("admin") && r.moduleName == "Memos"
    ensures r.userId == Some(userId) && r.userName == userName
    ensures r.affectedData.Some? && "Memo ID: " + memoId + ", Title: " <= r.affectedData.value
    ensures r.affectedData.Some? && EndsWith(r.affectedData.value, existing.status + StatusArrow + OrElse(p.status, existing.status))
  {
    var head := "Memo ID: " + memoId + ", Title: ";
    var change := existing.status + StatusArrow + OrElse(p.status, existing.status);
    ConcatAffixes(head, existing.title + ", Status: ");
    ConcatAffixes(head + existing.title + ", Status: ", change);
    LogOptions(Some(userId), userName, Some("admin"), MemoAuditAction(p.status),
               Some(head + existing.title + ", Status: " + change), "Memos")
  }

  predicate MemoViewIdIs(id: string, v: MemoView) { v.memo.id == id }

  /** Unauthenticated: 401. A truthy status outside the memo statuses: 400.
      Both come before any read or write. Otherwise the PATCH goes ahead for
      the session user. */
  method PatchMemoRoute(db: Database, session: Session, req: Request, memoId: string, p: MemoPatch, fault: AuditFault)
    returns (resp: Response)
    requires db.Valid()
    modifies db`memos, db`logs, db`clock, db`issued
    ensures db.Valid()
    ensures !Truthy(session.userId) ==>
      resp == Response(401, ErrorBody("Not authenticated")) && db.memos == old(db.memos) && db.logs == old(db.logs)
    ensures Truthy(session.userId) && StatusRejected(p.status, MemoStatuses) ==>
      resp == Response(400, ErrorBody("Invalid status")) && db.memos == old(db.memos) && db.logs == old(db.logs)
    ensures Truthy(session.userId) && !StatusRejected(p.status, MemoStatuses) ==>
      MemoPatched(old(db.memos), old(db.logs), old(db.clock), db.memos, db.logs, db.users,
                  req, memoId, session.userId.value, p, fault, resp)
  {
    if !Truthy(session.userId) {
      return Response(401, ErrorBody("Not authenticated"));
    }
    if Truthy(p.status) {
      if p.status.value !in MemoStatuses {
        return Response(400, ErrorBody("Invalid status"));
      }
    }
    resp := ApplyMemoPatch(db, req, memoId, session.userId.value, p, fault);
  }

  /** What a memo PATCH that passed validation leaves behind: 404 with
      nothing written when no memo has the id; otherwise the memo update. */
  ghost predicate MemoPatched(memos0: seq<Memo>, logs0: seq<SystemLog>, clock0: nat,
                              memos: seq<Memo>, logs: seq<SystemLog>, users: seq<User>,
                              req: Request, memoId: string, userId: string, p: MemoPatch, fault: AuditFault,
                              resp: Response)
  {
    var existing := FindFirst(memos0, memoId, MemoIdIs);
    && (existing.None? ==>
          resp == Response(404, ErrorBody("Memo not found")) && memos == memos0 && logs == logs0)
    && (existing.Some? ==>
          MemoUpdated(memos0, logs0, clock0, existing.value, memos, logs, users, req, memoId, userId,
                      UserNameOf(users, userId), p, fault, resp))
  }

  /** The update of an existing memo: the memos with the id patched at
      `clock0`, every other memo unchanged; 200 with the updated memo and
      its issuer's name; the audit entry naming the old and the new status. */
  ghost predicate MemoUpdated(memos0: seq<Memo>, logs0: seq<SystemLog>, clock0: nat, existing: Memo,
                              memos: seq<Memo>, logs: seq<SystemLog>, users: seq<User>,
                              req: Request, memoId: string, userId: string, userName: Option<string>,
                              p: MemoPatch, fault: AuditFault, resp: Response)
  {
    && MemosPatched(memos0, memos, memoId, p, clock0)
    && resp.status == 200 && resp.body.MemoViewBody?
    && resp.body.memoView.memo == PatchMemo(existing, p, clock0)
    && resp.body.memoView.issuerName == UserNameOf(users, existing.issuedBy)
    && Audited(logs0, logs, AuditRecord(users, req, PatchMemoAudit(memoId, userId, userName, p, existing), fault))
  }

  /** A validated memo PATCH by `userId`: looks the memo up among all
      memos, 404 when it is not there, otherwise updates and audits it. */
  method ApplyMemoPatch(db: Database, req: Request, memoId: string, userId: string, p: MemoPatch, fault: AuditFault)
    returns (resp: Response)
    requires db.Valid()
    modifies db`memos, db`logs, db`clock, db`issued
    ensures db.Valid()
    ensures MemoPatched(old(db.memos), old(db.logs), old(db.clock), db.memos, db.logs, db.users,
                        req, memoId, userId, p, fault, resp)
  {
    var allMemos := db.GetMemos(MemoFilters(None, None, false));
    var existingMemo := FindFirst(allMemos, memoId, MemoViewIdIs);
    ExistingMemoFound(db.users, db.memos, memoId);
    if existingMemo.None? {
      return Response(404, ErrorBody("Memo not found"));
    }
    resp := UpdateAndAuditMemo(db, req, memoId, userId, UserNameOf(db.users, userId), p, existingMemo.value.memo, fault,
                               old(db.memos), old(db.logs), old(db.clock));
  }

  /** The tail of a memo PATCH: the update, the label chosen by the new
      status, the audit entry and the updated memo. The memo was found just
      before, so the update finds it as well. */
  method UpdateAndAuditMemo(db: Database, req: Request, memoId: string, userId: string, userName: Option<string>,
                            p: MemoPatch, existing: Memo, fault: AuditFault,
                            ghost memos0: seq<Memo>, ghost logs0: seq<SystemLog>, ghost clock0: nat)
    returns (resp: Response)
    requires db.Valid()
    requires memos0 == db.memos && logs0 == db.logs && clock0 == db.clock
    requires FindFirst(db.memos, memoId, MemoIdIs) == Some(existing)
    modifies db`memos, db`logs, db`clock, db`issued
    ensures db.Valid()
    ensures MemoUpdated(memos0, logs0, clock0, existing, db.memos, db.logs, db.users, req, memoId, userId,
                        userName, p, fault, resp)
  {
    var updatedMemo := db.UpdateMemo(memoId, p);
    if updatedMemo.None? {
      assert false;
    }
    AuditMemoPatch(db, req, memoId, userId, userName, p, existing, fault);
    return Response(200, MemoViewBody(updatedMemo.value));
  }

  /** The audit step of a memo PATCH: the label chosen by the new status
      and the old and new status in the details. */
  method AuditMemoPatch(db: Database, req: Request, memoId: string, userId: string, userName: Option<string>,
                        p: MemoPatch, existing: Memo, fault: AuditFault)
    requires db.Valid()
    modifies db`logs, db`clock, db`issued
    ensures db.Valid()
    ensures Audited(old(db.logs), db.logs, AuditRecord(db.users, req, PatchMemoAudit(memoId, userId, userName, p, existing), fault))
  {
    var logActionName := "Updated memo/ordinance";
    if p.status == Some("approved") {
      logActionName := "Approved and published memo/ordinance";
    } else if p.status == Some("rejected") {
      logActionName := "Rejected memo/ordinance";
    }
    var opts := LogOptions(Some(userId), userName, Some("admin"), logActionName,
                           Some("Memo ID: " + memoId + ", Title: " + existing.title + ", Status: "
                                + (existing.status + StatusArrow + OrElse(p.status, existing.status))),
                           "Memos");
    assert opts == PatchMemoAudit(memoId, userId, userName, p, existing);
    LogAction(db, req, opts, fault);
  }

  /** Finding the id among all memos (newest first, joined) finds the same
      memo as finding it in the table. */
  lemma ExistingMemoFound(users: seq<User>, t: seq<Memo>, id: string)
    requires forall i, j :: 0 <= i < j < |t| ==> t[i].id != t[j].id
    ensures var found := FindFirst(JoinMemos(users, MemoQuery(t, MemoFilters(None, None, false))), id, MemoViewIdIs);
      && (found.None? <==> FindFirst(t, id, MemoIdIs).None?)
      && (found.Some? ==> Some(found.value.memo) == FindFirst(t, id, MemoIdIs))
  {
    var all := MemoQuery(t, MemoFilters(None, None, false));
    var views := JoinMemos(users, all);
    var found := FindFirst(views, id, MemoViewIdIs);
    forall x
      ensures x in all <==> x in t
    {
      NewestFirstMembers(t, MemoFilters(None, None, false), MemoMatches, x);
    }
    if found.Some? {
      var k :| 0 <= k < |views| && views[k] == found.value;
      assert all[k] in t;
      MemoIdUniqueFind(t, all[k]);
    } else {
      forall m | m in t
        ensures m.id != id
      {
        assert m in all;
        var k :| 0 <= k < |all| && all[k] == m;
        assert views[k] in views;
      }
    }
  }

  lemma {:induction false} MemoIdUniqueFind(t: seq<Memo>, x: Memo)
    requires forall i, j :: 0 <= i < j < |t| ==> t[i].id != t[j].id
    requires x in t
    ensures FindFirst(t, x.id, MemoIdIs) == Some(x)
    decreases |t|
  {
    if t[0] != x {
      assert x in t[1..];
      MemoIdUniqueFind(t[1..], x);
    }
  }
}
