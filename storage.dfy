/** The storage layer (DbStorage): the five tables kept in memory, in
    insertion order, by one `Database` object.

    `clock` stands for CURRENT_TIMESTAMP: every write (insert or update)
    takes the current value and advances it, so stamps are strictly
    increasing. Row ids stand for randomUUID() / UUID(): the generator hands
    out `IdOf(clock)`, and the ghost set `issued` records every id handed
    out, so no id is ever given twice. */
module Storage {
  import opened Schema
  import opened Queries

  // ----------------------------------------------------------------------
  // Id generation
  // ----------------------------------------------------------------------

  function DigitChar(d: nat): char
    requires d < 10
  {
    (('0' as int) + d) as char
  }

  /** The decimal numeral of `n`. */
  function Decimal(n: nat): (s: string)
    ensures |s| >= 1
    ensures n >= 10 ==> |s| >= 2
    decreases n
  {
    if n < 10 then [DigitChar(n)] else Decimal(n / 10) + [DigitChar(n % 10)]
  }

  /** Distinct numbers have distinct numerals. */
  lemma {:induction false} DecimalInjective(a: nat, b: nat)
    requires Decimal(a) == Decimal(b)
    ensures a == b
    decreases a
  {
    if a >= 10 && b >= 10 {
      var da, db := Decimal(a), Decimal(b);
      assert DigitChar(a % 10) == da[|da| - 1] == db[|db| - 1] == DigitChar(b % 10);
      assert Decimal(a / 10) == da[..|da| - 1] == db[..|db| - 1] == Decimal(b / 10);
      DecimalInjective(a / 10, b / 10);
    }
  }

  /** The id handed out at clock value `n`. */
  function IdOf(n: nat): string {
    Decimal(n)
  }

  /** Every id issued so far was issued at a clock value below `clock`. */
  ghost predicate IssuedBelow(issued: set<string>, clock: nat) {
    forall k: nat {:trigger IdOf(k)} :: IdOf(k) in issued ==> k < clock
  }

  /** The id issued at the current clock value is new, and issuing it keeps
      the generator's invariant. */
  lemma IssueNext(issued: set<string>, clock: nat)
    requires IssuedBelow(issued, clock)
    ensures IdOf(clock) !in issued
    ensures IssuedBelow(issued + {IdOf(clock)}, clock + 1)
  {
    forall k: nat | IdOf(k) in issued + {IdOf(clock)}
      ensures k < clock + 1
    {
      if IdOf(k) == IdOf(clock) {
        DecimalInjective(k, clock);
      }
    }
  }

  // ----------------------------------------------------------------------
  // Lookups by key
  // ----------------------------------------------------------------------

  /** The first row `keep(f, _)` accepts (`result[0]` of a select). */
  function FindFirst<T, F>(t: seq<T>, f: F, keep: (F, T) -> bool): (r: Option<T>)
    ensures r.Some? ==> r.value in t && keep(f, r.value)
    ensures r.None? ==> forall x :: x in t ==> !keep(f, x)
    decreases |t|
  {
    if t == [] then None
    else if keep(f, t[0]) then Some(t[0])
    else FindFirst(t[1..], f, keep)
  }

  predicate UserIdIs(id: string, u: User) { u.id == id }
  predicate UsernameIs(name: string, u: User) { u.username == name }
  predicate ReportIdIs(id: string, r: Report) { r.id == id }
  predicate MemoIdIs(id: string, m: Memo) { m.id == id }

  /** The name of the user with a given id: `user?.username` after
      getUser, and `users.username` through a left join on a user id. NULL
      when no user has that id. */
  function UserNameOf(users: seq<User>, id: string): (r: Option<string>)
    ensures r.Some? <==> exists u :: u in users && u.id == id
    ensures r.Some? ==> exists u :: u in users && u.id == id && r.value == u.username
  {
    match FindFirst(users, id, UserIdIs)
    case Some(u) => Some(u.username)
    case None => None
  }

  // ----------------------------------------------------------------------
  // Joined rows returned by the reads
  // ----------------------------------------------------------------------

  datatype ReportView = ReportView(report: Report, submitterName: Option<string>)
  datatype MessageView = MessageView(message: ReportMessage, senderName: Option<string>)
  datatype MemoView = MemoView(memo: Memo, issuerName: Option<string>)

  function JoinReports(users: seq<User>, t: seq<Report>): (r: seq<ReportView>)
    ensures |r| == |t|
    ensures forall i :: 0 <= i < |t| ==> r[i] == ReportView(t[i], UserNameOf(users, t[i].submittedBy))
  {
    seq(|t|, i requires 0 <= i < |t| => ReportView(t[i], UserNameOf(users, t[i].submittedBy)))
  }

  function JoinMessages(users: seq<User>, t: seq<ReportMessage>): (r: seq<MessageView>)
    ensures |r| == |t|
    ensures forall i :: 0 <= i < |t| ==> r[i] == MessageView(t[i], UserNameOf(users, t[i].senderId))
  {
    seq(|t|, i requires 0 <= i < |t| => MessageView(t[i], UserNameOf(users, t[i].senderId)))
  }

  function JoinMemos(users: seq<User>, t: seq<Memo>): (r: seq<MemoView>)
    ensures |r| == |t|
    ensures forall i :: 0 <= i < |t| ==> r[i] == MemoView(t[i], UserNameOf(users, t[i].issuedBy))
  {
    seq(|t|, i requires 0 <= i < |t| => MemoView(t[i], UserNameOf(users, t[i].issuedBy)))
  }

  // ----------------------------------------------------------------------
  // Partial updates
  // ----------------------------------------------------------------------

  /** The report columns a PATCH body may supply (`Partial<Report>`);
      `None` is a key the body does not have. */
  datatype ReportPatch = ReportPatch(
    category: Option<string>,
    description: Option<string>,
    priority: Option<string>,
    location: Option<string>,
    status: Option<string>,
    images: Option<seq<string>>,
    additionalInfo: Option<string>,
    additionalInfoImages: Option<seq<string>>,
    adminFeedback: Option<string>)

  /** The memo columns a PATCH body may supply. */
  datatype MemoPatch = MemoPatch(
    title: Option<string>,
    description: Option<string>,
    category: Option<string>,
    status: Option<string>,
    fileUrl: Option<string>)

  function Pick<T>(o: Option<T>, current: T): T {
    if o.Some? then o.value else current
  }

  function PickNullable(o: Option<string>, current: Option<string>): Option<string> {
    if o.Some? then o else current
  }

  /** `SET ...updates, updatedAt = CURRENT_TIMESTAMP` on one report row:
      the row keeps its identity and submission, and is stamped `now`. */
  function PatchReport(r: Report, p: ReportPatch, now: nat): (r': Report)
    ensures r'.id == r.id && r'.submittedBy == r.submittedBy && r'.submittedAt == r.submittedAt
    ensures r'.updatedAt == now
  {
    r.(category := Pick(p.category, r.category),
       description := Pick(p.description, r.description),
       priority := Pick(p.priority, r.priority),
       location := Pick(p.location, r.location),
       status := Pick(p.status, r.status),
       images := Pick(p.images, r.images),
       additionalInfo := PickNullable(p.additionalInfo, r.additionalInfo),
       additionalInfoImages := Pick(p.additionalInfoImages, r.additionalInfoImages),
       adminFeedback := PickNullable(p.adminFeedback, r.adminFeedback),
       updatedAt := now)
  }

  /** `UPDATE reports SET ... WHERE id = ?`: the rows with the id are
      patched in place, every other row is left as it was. */
  function PatchReports(t: seq<Report>, id: string, p: ReportPatch, now: nat): seq<Report> {
    seq(|t|, i requires 0 <= i < |t| => if t[i].id == id then PatchReport(t[i], p, now) else t[i])
  }

  /** `SET ...updates, updatedAt = CURRENT_TIMESTAMP` on one memo row: the
      memo keeps its identity, issuer, creation time and effective date, and
      is stamped `now`. */
  function PatchMemo(m: Memo, p: MemoPatch, now: nat): (m': Memo)
    ensures m'.id == m.id && m'.issuedBy == m.issuedBy && m'.createdAt == m.createdAt
    ensures m'.effectiveDate == m.effectiveDate && m'.updatedAt == now
  {
    m.(title := Pick(p.title, m.title),
       description := Pick(p.description, m.description),
       category := Pick(p.category, m.category),
       status := Pick(p.status, m.status),
       fileUrl := PickNullable(p.fileUrl, m.fileUrl),
       updatedAt := now)
  }

  /** `UPDATE memos SET ... WHERE id = ?`. */
  function PatchMemos(t: seq<Memo>, id: string, p: MemoPatch, now: nat): seq<Memo> {
    seq(|t|, i requires 0 <= i < |t| => if t[i].id == id then PatchMemo(t[i], p, now) else t[i])
  }

  /** The report table after an update of the rows with id `id`: same rows
      in the same places, those rows patched at `now`, every other row
      unchanged. */
  ghost predicate ReportsPatched(before: seq<Report>, after: seq<Report>, id: string, p: ReportPatch, now: nat) {
    && |after| == |before|
    && (forall i :: 0 <= i < |before| && before[i].id != id ==> after[i] == before[i])
    && (forall i :: 0 <= i < |before| && before[i].id == id ==> after[i] == PatchReport(before[i], p, now))
  }

  /** The memo counterpart of ReportsPatched. */
  ghost predicate MemosPatched(before: seq<Memo>, after: seq<Memo>, id: string, p: MemoPatch, now: nat) {
    && |after| == |before|
    && (forall i :: 0 <= i < |before| && before[i].id != id ==> after[i] == before[i])
    && (forall i :: 0 <= i < |before| && before[i].id == id ==> after[i] == PatchMemo(before[i], p, now))
  }

  /** A report update overwrites exactly the supplied columns: each
      supplied column takes the supplied value and each absent one keeps its
      value; an empty update only refreshes updatedAt; applying the same
      update twice at the same time changes nothing more. */
  lemma PatchReportOverwritesSuppliedOnly(r: Report, p: ReportPatch, now: nat)
    ensures var r' := PatchReport(r, p, now);
      && (p.category.Some? ==> r'.category == p.category.value)
      && (p.category.None? ==> r'.category == r.category)
      && (p.description.Some? ==> r'.description == p.description.value)
      && (p.description.None? ==> r'.description == r.description)
      && (p.priority.Some? ==> r'.priority == p.priority.value)
      && (p.priority.None? ==> r'.priority == r.priority)
      && (p.location.Some? ==> r'.location == p.location.value)
      && (p.location.None? ==> r'.location == r.location)
      && (p.status.Some? ==> r'.status == p.status.value)
      && (p.status.None? ==> r'.status == r.status)
      && (p.images.Some? ==> r'.images == p.images.value)
      && (p.images.None? ==> r'.images == r.images)
      && (p.additionalInfo.Some? ==> r'.additionalInfo == p.additionalInfo)
      && (p.additionalInfo.None? ==> r'.additionalInfo == r.additionalInfo)
      && (p.additionalInfoImages.Some? ==> r'.additionalInfoImages == p.additionalInfoImages.value)
      && (p.additionalInfoImages.None? ==> r'.additionalInfoImages == r.additionalInfoImages)
      && (p.adminFeedback.Some? ==> r'.adminFeedback == p.adminFeedback)
      && (p.adminFeedback.None? ==> r'.adminFeedback == r.adminFeedback)
      && ((p.category.None? && p.description.None? && p.priority.None? && p.location.None?
           && p.images.None? && p.additionalInfoImages.None? && p.status.None?
           && p.additionalInfo.None? && p.adminFeedback.None?) ==> r' == r.(updatedAt := now))
      && PatchReport(r', p, now) == r'
  {
  }

  /** An update leaves every other row as it was and rewrites the rows
      with the given id; an id no row has leaves the table as it was. */
  lemma PatchReportsOnlyMatchingRows(t: seq<Report>, id: string, p: ReportPatch, now: nat)
    ensures ReportsPatched(t, PatchReports(t, id, p, now), id, p, now)
    ensures (forall r :: r in t ==> r.id != id) ==> PatchReports(t, id, p, now) == t
  {
  }

  /** The memo counterpart of PatchReportsOnlyMatchingRows. */
  lemma PatchMemosOnlyMatchingRows(t: seq<Memo>, id: string, p: MemoPatch, now: nat)
    ensures MemosPatched(t, PatchMemos(t, id, p, now), id, p, now)
    ensures (forall m :: m in t ==> m.id != id) ==> PatchMemos(t, id, p, now) == t
  {
  }

  /** The memo counterpart of PatchReportOverwritesSuppliedOnly. */
  lemma PatchMemoOverwritesSuppliedOnly(m: Memo, p: MemoPatch, now: nat)
    ensures var m' := PatchMemo(m, p, now);
      && (p.title.Some? ==> m'.title == p.title.value)
      && (p.title.None? ==> m'.title == m.title)
      && (p.description.Some? ==> m'.description == p.description.value)
      && (p.description.None? ==> m'.description == m.description)
      && (p.category.Some? ==> m'.category == p.category.value)
      && (p.category.None? ==> m'.category == m.category)
      && (p.status.Some? ==> m'.status == p.status.value)
      && (p.status.None? ==> m'.status == m.status)
      && (p.fileUrl.Some? ==> m'.fileUrl == p.fileUrl)
      && (p.fileUrl.None? ==> m'.fileUrl == m.fileUrl)
      && ((p.title.None? && p.description.None? && p.category.None? && p.status.None? && p.fileUrl.None?)
          ==> m' == m.(updatedAt := now))
      && PatchMemo(m', p, now) == m'
  {
  }

  // ----------------------------------------------------------------------
  // Table invariants
  // ----------------------------------------------------------------------

  ghost predicate UsersOk(t: seq<User>, issued: set<string>) {
    && (forall i :: 0 <= i < |t| ==> t[i].id in issued)
    && (forall i, j :: 0 <= i < j < |t| ==> t[i].id != t[j].id && t[i].username != t[j].username)
  }

  ghost predicate ReportsOk(t: seq<Report>, issued: set<string>, clock: nat) {
    && (forall i :: 0 <= i < |t| ==> t[i].id in issued && t[i].submittedAt <= t[i].updatedAt < clock)
    && (forall i, j :: 0 <= i < j < |t| ==> t[i].id != t[j].id)
    && Ascending(t, ReportTime)
  }

  ghost predicate MessagesOk(t: seq<ReportMessage>, issued: set<string>, clock: nat) {
    && (forall i :: 0 <= i < |t| ==> t[i].id in issued && t[i].createdAt < clock)
    && (forall i, j :: 0 <= i < j < |t| ==> t[i].id != t[j].id)
    && Ascending(t, MessageTime)
  }

  ghost predicate LogsOk(t: seq<SystemLog>, issued: set<string>, clock: nat) {
    && (forall i :: 0 <= i < |t| ==> t[i].id in issued && t[i].timestamp < clock)
    && (forall i, j :: 0 <= i < j < |t| ==> t[i].id != t[j].id)
    && Ascending(t, LogTime)
  }

  ghost predicate MemosOk(t: seq<Memo>, issued: set<string>, clock: nat) {
    && (forall i :: 0 <= i < |t| ==> t[i].id in issued && t[i].createdAt <= t[i].updatedAt < clock)
    && (forall i, j :: 0 <= i < j < |t| ==> t[i].id != t[j].id)
    && Ascending(t, MemoTime)
  }

  datatype DbError = DuplicateEntry | QueryError

  datatype DbResult<T> = Ok(value: T) | Failed(error: DbError)

  class Database {
    var users: seq<User>
    var reports: seq<Report>
    var messages: seq<ReportMessage>
    var logs: seq<SystemLog>
    var memos: seq<Memo>
    var clock: nat
    ghost var issued: set<string>

    ghost predicate Valid()
      reads this
    {
      && IssuedBelow(issued, clock)
      && UsersOk(users, issued)
      && ReportsOk(reports, issued, clock)
      && MessagesOk(messages, issued, clock)
      && LogsOk(logs, issued, clock)
      && MemosOk(memos, issued, clock)
    }

    constructor ()
      ensures Valid()
      ensures users == [] && reports == [] && messages == [] && logs == [] && memos == []
    {
      users, reports, messages, logs, memos := [], [], [], [], [];
      clock := 0;
      issued := {};
    }

    /** Hands out a fresh id and the current time, and advances the clock. */
    method NextId() returns (id: string, now: nat)
      requires IssuedBelow(issued, clock)
      modifies this`clock, this`issued
      ensures now == old(clock) && clock == now + 1 && id == IdOf(now)
      ensures id !in old(issued) && issued == old(issued) + {id}
      ensures IssuedBelow(issued, clock)
    {
      IssueNext(issued, clock);
      id, now := IdOf(clock), clock;
      issued := issued + {id};
      clock := clock + 1;
    }

    // -------------------------------- users --------------------------------

    function GetUser(id: string): (r: Option<User>)
      reads this`users
      ensures r.Some? ==> r.value in users && r.value.id == id
      ensures r.None? ==> forall u :: u in users ==> u.id != id
    {
      FindFirst(users, id, UserIdIs)
    }

    function GetUserByUsername(name: string): (r: Option<User>)
      reads this`users
      ensures r.Some? ==> r.value in users && r.value.username == name
      ensures r.None? ==> forall u :: u in users ==> u.username != name
    {
      FindFirst(users, name, UsernameIs)
    }

    /** Inserts a user; the UNIQUE username column refuses a second user
        with the same name. */
    method CreateUser(ins: InsertUser) returns (r: DbResult<User>)
      requires Valid()
      modifies this`users, this`clock, this`issued
      ensures Valid()
      ensures r.Failed? <==> old(GetUserByUsername(ins.username)).Some?
      ensures r.Failed? ==> r.error == DuplicateEntry && users == old(users)
      ensures r.Ok? ==> users == old(users) + [r.value]
      ensures r.Ok? ==> r.value.username == ins.username && r.value.password == ins.password
      ensures r.Ok? ==> forall u :: u in old(users) ==> u.id != r.value.id
      ensures r.Ok? ==> GetUserByUsername(ins.username) == Some(r.value) && GetUser(r.value.id) == Some(r.value)
    {
      if GetUserByUsername(ins.username).Some? {
        return Failed(DuplicateEntry);
      }
      var id, now := NextId();
      var u := User(id, ins.username, ins.password);
      users := users + [u];
      assert forall i :: 0 <= i < |old(users)| ==> users[i] == old(users)[i];
      FindFirstAfterAppend(old(users), u, ins.username, UsernameIs);
      FindFirstAfterAppend(old(users), u, id, UserIdIs);
      r := Ok(u);
    }

    // ------------------------------- reports -------------------------------

    function GetReport(id: string): (r: Option<ReportView>)
      reads this`reports, this`users
      ensures r.Some? ==> r.value.report in reports && r.value.report.id == id
      ensures r.Some? ==> r.value.submitterName == UserNameOf(users, r.value.report.submittedBy)
      ensures r.None? <==> forall x :: x in reports ==> x.id != id
    {
      match FindFirst(reports, id, ReportIdIs)
      case Some(x) => Some(ReportView(x, UserNameOf(users, x.submittedBy)))
      case None => None
    }

    /** Every report, newest submission first, with the submitter's name. */
    function GetReports(): (r: seq<ReportView>)
      reads this`reports, this`users
      requires Ascending(reports, ReportTime)
      ensures r == JoinReports(users, NewestFirst(reports, None, SubmittedBy))
      ensures forall x :: x in NewestFirst(reports, None, SubmittedBy) <==> x in reports
      ensures Descending(NewestFirst(reports, None, SubmittedBy), ReportTime)
    {
      ReportsNewestFirstHold(reports, None);
      JoinReports(users, NewestFirst(reports, None, SubmittedBy))
    }

    /** The reports one user submitted, newest first. */
    function GetReportsBySubmitter(userId: string): (r: seq<ReportView>)
      reads this`reports, this`users
      requires Ascending(reports, ReportTime)
      ensures r == JoinReports(users, NewestFirst(reports, Some(userId), SubmittedBy))
      ensures forall x :: x in NewestFirst(reports, Some(userId), SubmittedBy) <==>
                          x in reports && x.submittedBy == userId
      ensures Descending(NewestFirst(reports, Some(userId), SubmittedBy), ReportTime)
    {
      ReportsNewestFirstHold(reports, Some(userId));
      JoinReports(users, NewestFirst(reports, Some(userId), SubmittedBy))
    }

    /** Inserts a report under a fresh id; the row read back is exactly the
        one stored. */
    method CreateReport(ins: InsertReport) returns (r: Report)
      requires Valid()
      modifies this`reports, this`clock, this`issued
      ensures Valid()
      ensures clock == old(clock) + 1
      ensures r == NewReport(ins, IdOf(old(clock)), old(clock))
      ensures reports == old(reports) + [r]
      ensures forall x :: x in old(reports) ==> x.id != r.id
      ensures FindFirst(reports, r.id, ReportIdIs) == Some(r)
    {
      var id, now := NextId();
      r := NewReport(ins, id, now);
      reports := reports + [r];
      FindFirstAfterAppend(old(reports), r, id, ReportIdIs);
    }

    /** Overwrites the supplied columns and updatedAt on the row with the
        given id and reads it back; None when no row has that id. */
    method UpdateReport(id: string, p: ReportPatch) returns (r: Option<ReportView>)
      requires Valid()
      modifies this`reports, this`clock
      ensures Valid()
      ensures clock == old(clock) + 1
      ensures ReportsPatched(old(reports), reports, id, p, old(clock))
      ensures r == GetReport(id)
      ensures r.None? <==> old(GetReport(id)).None?
      ensures r.Some? ==> r.value.report == PatchReport(old(GetReport(id)).value.report, p, old(clock))
    {
      var now := clock;
      clock := clock + 1;
      var before := reports;
      reports := PatchReports(reports, id, p, now);
      PatchKeepsReportsOk(before, id, p, now, issued, clock);
      PatchReportsOnlyMatchingRows(before, id, p, now);
      PatchedReportFound(before, id, p, now);
      r := GetReport(id);
    }

    // ------------------------------- messages ------------------------------

    /** Inserts a message under a fresh id. */
    method CreateReportMessage(ins: InsertReportMessage) returns (m: ReportMessage)
      requires Valid()
      modifies this`messages, this`clock, this`issued
      ensures Valid()
      ensures clock == old(clock) + 1
      ensures m == NewReportMessage(ins, IdOf(old(clock)), old(clock))
      ensures messages == old(messages) + [m]
      ensures forall x :: x in old(messages) ==> x.id != m.id
    {
      var id, now := NextId();
      m := NewReportMessage(ins, id, now);
      messages := messages + [m];
    }

    /** The messages of one report, oldest first, with each sender's name. */
    function GetReportMessages(reportId: string): (r: seq<MessageView>)
      reads this`messages, this`users
      requires Ascending(messages, MessageTime)
      ensures r == JoinMessages(users, OldestFirst(messages, reportId, BelongsTo))
      ensures forall x :: x in OldestFirst(messages, reportId, BelongsTo) <==>
                          x in messages && x.reportId == reportId
      ensures Ascending(OldestFirst(messages, reportId, BelongsTo), MessageTime)
    {
      MessagesOldestFirstHold(messages, reportId);
      JoinMessages(users, OldestFirst(messages, reportId, BelongsTo))
    }

    // ---------------------------------- logs -------------------------------

    /** Inserts a log entry under a fresh id. */
    method CreateSystemLog(ins: InsertSystemLog) returns (l: SystemLog)
      requires Valid()
      modifies this`logs, this`clock, this`issued
      ensures Valid()
      ensures clock == old(clock) + 1
      ensures l == NewSystemLog(ins, IdOf(old(clock)), old(clock))
      ensures logs == old(logs) + [l]
    {
      var id, now := NextId();
      l := NewSystemLog(ins, id, now);
      logs := logs + [l];
    }

    /** Builds the condition list from the supplied filters and runs the
        query; a negative limit is refused by the database. */
    method GetSystemLogs(f: LogFilters) returns (r: DbResult<seq<SystemLog>>)
      requires Valid()
      ensures r.Failed? <==> LimitRejected(f.limit)
      ensures r.Ok? ==> r.value == LogQuery(logs, f)
    {
      var conditions := LogConditions(f);
      if LimitRejected(f.limit) {
        return Failed(QueryError);
      }
      var limit: Option<nat> := if LimitApplies(f.limit) then Some(f.limit.value) else None;
      var rows := ScanNewest(logs, f, LogMatches, conditions, AllLogConditionsHold, limit);
      r := Ok(rows);
    }

    // --------------------------------- memos -------------------------------

    /** Inserts a memo under a fresh id. */
    method CreateMemo(ins: InsertMemo) returns (m: Memo)
      requires Valid()
      modifies this`memos, this`clock, this`issued
      ensures Valid()
      ensures clock == old(clock) + 1
      ensures m == NewMemo(ins, IdOf(old(clock)), old(clock))
      ensures memos == old(memos) + [m]
      ensures forall x :: x in old(memos) ==> x.id != m.id
    {
      var id, now := NextId();
      m := NewMemo(ins, id, now);
      memos := memos + [m];
    }

    /** Builds the condition list, runs the query and joins each issuer's
        name. */
    method GetMemos(f: MemoFilters) returns (r: seq<MemoView>)
      requires Valid()
      ensures r == JoinMemos(users, MemoQuery(memos, f))
    {
      var conditions := MemoConditions(f);
      var rows := ScanNewest(memos, f, MemoMatches, conditions, AllMemoConditionsHold, None);
      r := JoinMemos(users, rows);
    }

    /** Overwrites the supplied columns and updatedAt on the memo with the
        given id and reads it back; None when no memo has that id. */
    method UpdateMemo(id: string, p: MemoPatch) returns (r: Option<MemoView>)
      requires Valid()
      modifies this`memos, this`clock
      ensures Valid()
      ensures clock == old(clock) + 1
      ensures MemosPatched(old(memos), memos, id, p, old(clock))
      ensures r.None? <==> forall m :: m in old(memos) ==> m.id != id
      ensures r.Some? ==> r.value.memo == PatchMemo(FindFirst(old(memos), id, MemoIdIs).value, p, old(clock))
      ensures r.Some? ==> r.value.memo in memos && r.value.issuerName == UserNameOf(users, r.value.memo.issuedBy)
    {
      var now := clock;
      clock := clock + 1;
      var before := memos;
      memos := PatchMemos(memos, id, p, now);
      PatchKeepsMemosOk(before, id, p, now, issued, clock);
      PatchMemosOnlyMatchingRows(before, id, p, now);
      PatchedMemoFound(before, id, p, now);
      var found := FindFirst(memos, id, MemoIdIs);
      if found.None? {
        r := None;
      } else {
        r := Some(MemoView(found.value, UserNameOf(users, found.value.issuedBy)));
      }
    }
  }

  // ----------------------------------------------------------------------
  // Proof helpers
  // ----------------------------------------------------------------------

  /** One step of a newest-first scan over the prefix `t[..i]`. */
  lemma NewestFirstStep<T, F>(t: seq<T>, i: nat, f: F, keep: (F, T) -> bool)
    requires 0 < i <= |t|
    ensures NewestFirst(t[..i], f, keep) ==
            (if keep(f, t[i - 1]) then [t[i - 1]] else []) + NewestFirst(t[..i - 1], f, keep)
  {
    assert t[..i][..i - 1] == t[..i - 1];
  }

  /** Looking up a key that only the appended row has finds that row. */
  lemma {:induction false} FindFirstAfterAppend<T, F>(t: seq<T>, x: T, f: F, keep: (F, T) -> bool)
    requires forall y :: y in t ==> !keep(f, y)
    requires keep(f, x)
    ensures FindFirst(t + [x], f, keep) == Some(x)
    decreases |t|
  {
    if t != [] {
      assert (t + [x])[1..] == t[1..] + [x];
      FindFirstAfterAppend(t[1..], x, f, keep);
    }
  }

  lemma ReportsNewestFirstHold(t: seq<Report>, submitter: Option<string>)
    requires Ascending(t, ReportTime)
    ensures forall x :: x in NewestFirst(t, submitter, SubmittedBy) <==>
                        x in t && (submitter.Some? ==> x.submittedBy == submitter.value)
    ensures Descending(NewestFirst(t, submitter, SubmittedBy), ReportTime)
  {
    forall x {
      ReportQueryNewestFirst(t, submitter, x);
    }
    if t != [] {
      ReportQueryNewestFirst(t, submitter, t[0]);
    } else {
      assert NewestFirst(t, submitter, SubmittedBy) == [];
    }
  }

  lemma MessagesOldestFirstHold(t: seq<ReportMessage>, reportId: string)
    requires Ascending(t, MessageTime)
    ensures forall x :: x in OldestFirst(t, reportId, BelongsTo) <==> x in t && x.reportId == reportId
    ensures Ascending(OldestFirst(t, reportId, BelongsTo), MessageTime)
  {
    forall x {
      MessageQueryOldestFirst(t, reportId, x);
    }
    OldestFirstAscending(t, reportId, BelongsTo, MessageTime);
  }

  lemma PatchKeepsReportsOk(t: seq<Report>, id: string, p: ReportPatch, now: nat, issued: set<string>, clock: nat)
    requires ReportsOk(t, issued, now)
    requires clock == now + 1
    ensures ReportsOk(PatchReports(t, id, p, now), issued, clock)
  {
    var t' := PatchReports(t, id, p, now);
    assert forall i :: 0 <= i < |t| ==> t'[i].id == t[i].id && t'[i].submittedAt == t[i].submittedAt;
  }

  lemma PatchedReportFound(t: seq<Report>, id: string, p: ReportPatch, now: nat)
    ensures FindFirst(PatchReports(t, id, p, now), id, ReportIdIs).None? <==>
            FindFirst(t, id, ReportIdIs).None?
    ensures FindFirst(t, id, ReportIdIs).Some? ==>
            FindFirst(PatchReports(t, id, p, now), id, ReportIdIs).value ==
            PatchReport(FindFirst(t, id, ReportIdIs).value, p, now)
    decreases |t|
  {
    if t != [] {
      assert PatchReports(t, id, p, now)[1..] == PatchReports(t[1..], id, p, now);
      PatchedReportFound(t[1..], id, p, now);
    }
  }

  lemma PatchedMemoFound(t: seq<Memo>, id: string, p: MemoPatch, now: nat)
    ensures FindFirst(PatchMemos(t, id, p, now), id, MemoIdIs).None? <==> FindFirst(t, id, MemoIdIs).None?
    ensures FindFirst(t, id, MemoIdIs).Some? ==>
            FindFirst(PatchMemos(t, id, p, now), id, MemoIdIs).value ==
            PatchMemo(FindFirst(t, id, MemoIdIs).value, p, now)
    decreases |t|
  {
    if t != [] {
      assert PatchMemos(t, id, p, now)[1..] == PatchMemos(t[1..], id, p, now);
      PatchedMemoFound(t[1..], id, p, now);
    }
  }

  lemma PatchKeepsMemosOk(t: seq<Memo>, id: string, p: MemoPatch, now: nat, issued: set<string>, clock: nat)
    requires MemosOk(t, issued, now)
    requires clock == now + 1
    ensures MemosOk(PatchMemos(t, id, p, now), issued, clock)
  {
    var t' := PatchMemos(t, id, p, now);
    assert forall i :: 0 <= i < |t| ==> t'[i].id == t[i].id && t'[i].createdAt == t[i].createdAt;
  }

  // ----------------------------------------------------------------------
  // The query builders of getSystemLogs and getMemos
  // ----------------------------------------------------------------------

  /** Pushes one condition per truthy filter, in the order role, module,
      user, search; together they accept exactly what the filters describe. */
  method LogConditions(f: LogFilters) returns (conditions: seq<LogCondition>)
    ensures forall l :: AllLogConditionsHold(conditions, l) <==> LogMatches(f, l)
  {
    conditions := [];
    if Truthy(f.role) {
      conditions := conditions + [RoleIs(f.role.value)];
    }
    if Truthy(f.moduleName) {
      conditions := conditions + [ModuleIs(f.moduleName.value)];
    }
    if Truthy(f.userId) {
      conditions := conditions + [UserIs(f.userId.value)];
    }
    if Truthy(f.search) {
      conditions := conditions + [Mentions(f.search.value)];
    }
    LogConditionsMeanFilters(f, conditions);
  }

  /** Scans `t` from its newest row, keeping the rows the built query
      `accept(q, _)` takes, and stops once `limit` rows are kept; the query
      must take exactly the rows the filters `keep(f, _)` describe. */
  method ScanNewest<T, F, Q>(t: seq<T>, f: F, keep: (F, T) -> bool, q: Q, accept: (Q, T) -> bool, limit: Option<nat>)
    returns (rows: seq<T>)
    requires forall x :: accept(q, x) == keep(f, x)
    ensures limit.None? ==> rows == NewestFirst(t, f, keep)
    ensures limit.Some? ==> rows == Take(NewestFirst(t, f, keep), limit.value)
  {
    rows := [];
    var i := |t|;
    assert t[..i] == t;
    while i > 0 && (limit.None? || |rows| < limit.value)
      invariant 0 <= i <= |t|
      invariant rows + NewestFirst(t[..i], f, keep) == NewestFirst(t, f, keep)
      invariant limit.Some? ==> |rows| <= limit.value
    {
      ScanStep(t, i, f, keep, rows, NewestFirst(t, f, keep));
      i := i - 1;
      if accept(q, t[i]) {
        rows := rows + [t[i]];
      }
    }
    ScanDone(t, i, f, keep, rows, NewestFirst(t, f, keep), limit);
  }

  /** Moving the scan one row further keeps "kept rows, then the rest of
      the prefix, newest first" equal to the whole answer. */
  lemma ScanStep<T, F>(t: seq<T>, i: nat, f: F, keep: (F, T) -> bool, rows: seq<T>, all: seq<T>)
    requires 0 < i <= |t|
    requires rows + NewestFirst(t[..i], f, keep) == all
    ensures keep(f, t[i - 1]) ==> (rows + [t[i - 1]]) + NewestFirst(t[..i - 1], f, keep) == all
    ensures !keep(f, t[i - 1]) ==> rows + NewestFirst(t[..i - 1], f, keep) == all
  {
    NewestFirstStep(t, i, f, keep);
    if keep(f, t[i - 1]) {
      assert rows + ([t[i - 1]] + NewestFirst(t[..i - 1], f, keep)) == (rows + [t[i - 1]]) + NewestFirst(t[..i - 1], f, keep);
    } else {
      assert [] + NewestFirst(t[..i - 1], f, keep) == NewestFirst(t[..i - 1], f, keep);
    }
  }

  /** When the scan stops, the kept rows are the whole answer, or its first
      `limit` rows. */
  lemma ScanDone<T, F>(t: seq<T>, i: nat, f: F, keep: (F, T) -> bool, rows: seq<T>, all: seq<T>, limit: Option<nat>)
    requires i <= |t|
    requires rows + NewestFirst(t[..i], f, keep) == all
    requires limit.Some? ==> |rows| <= limit.value
    requires !(i > 0 && (limit.None? || |rows| < limit.value))
    ensures limit.None? ==> rows == all
    ensures limit.Some? ==> rows == Take(all, limit.value)
  {
    if i == 0 {
      assert t[..i] == [];
      assert rows == all;
    } else {
      assert all[..limit.value] == rows;
    }
  }

  /** Pushes the status condition (forced to "approved" when only approved
      memos are shown, skipped for "all") and the category condition;
      together they accept exactly what the filters describe. */
  method MemoConditions(f: MemoFilters) returns (conditions: seq<MemoCondition>)
    ensures forall m :: AllMemoConditionsHold(conditions, m) <==> MemoMatches(f, m)
  {
    conditions := [];
    if f.showOnlyApproved {
      conditions := conditions + [StatusIs("approved")];
    } else if Truthy(f.status) && f.status.value != "all" {
      conditions := conditions + [StatusIs(f.status.value)];
    }
    if Truthy(f.category) && f.category.value != "all" {
      conditions := conditions + [CategoryIs(f.category.value)];
    }
    MemoConditionsMeanFilters(f, conditions);
  }

  /** The condition list getSystemLogs builds accepts exactly the entries
      the filters describe. */
  lemma LogConditionsMeanFilters(f: LogFilters, conditions: seq<LogCondition>)
    requires conditions ==
      (if Truthy(f.role) then [RoleIs(f.role.value)] else [])
      + (if Truthy(f.moduleName) then [ModuleIs(f.moduleName.value)] else [])
      + (if Truthy(f.userId) then [UserIs(f.userId.value)] else [])
      + (if Truthy(f.search) then [Mentions(f.search.value)] else [])
    ensures forall l :: AllLogConditionsHold(conditions, l) <==> LogMatches(f, l)
  {
    forall l
      ensures AllLogConditionsHold(conditions, l) <==> LogMatches(f, l)
    {
      if AllLogConditionsHold(conditions, l) {
        if Truthy(f.role) { assert conditions[0] == RoleIs(f.role.value); }
        var k := if Truthy(f.role) then 1 else 0;
        if Truthy(f.moduleName) { assert conditions[k] == ModuleIs(f.moduleName.value); }
        k := k + if Truthy(f.moduleName) then 1 else 0;
        if Truthy(f.userId) { assert conditions[k] == UserIs(f.userId.value); }
        k := k + if Truthy(f.userId) then 1 else 0;
        if Truthy(f.search) { assert conditions[k] == Mentions(f.search.value); }
      }
    }
  }

  /** The condition list getMemos builds accepts exactly the memos the
      filters describe. */
  lemma MemoConditionsMeanFilters(f: MemoFilters, conditions: seq<MemoCondition>)
    requires conditions ==
      (if f.showOnlyApproved then [StatusIs("approved")]
       else if Truthy(f.status) && f.status.value != "all" then [StatusIs(f.status.value)]
       else [])
      + (if Truthy(f.category) && f.category.value != "all" then [CategoryIs(f.category.value)] else [])
    ensures forall m :: AllMemoConditionsHold(conditions, m) <==> MemoMatches(f, m)
  {
    forall m
      ensures AllMemoConditionsHold(conditions, m) <==> MemoMatches(f, m)
    {
      if AllMemoConditionsHold(conditions, m) {
        var first := f.showOnlyApproved || (Truthy(f.status) && f.status.value != "all");
        if first { assert MemoConditionHolds(conditions[0], m); }
        var k := if first then 1 else 0;
        if Selective(f.category) { assert MemoConditionHolds(conditions[k], m); }
      }
    }
  }
}
