/** The read side of the storage layer: which rows a query selects and in
    what order. A table is kept in insertion order and every insert stamps
    a strictly later clock value, so `ORDER BY <stamp> DESC` is the table
    read from its end (`NewestFirst`) and `ORDER BY <stamp>` is the table
    read from its start (`OldestFirst`); the lemmas below prove that these
    really are ordered by the stamp and hold exactly the matching rows. */
module Queries {
  import opened Schema

  // ----------------------------------------------------------------------
  // Selection in timestamp order
  // ----------------------------------------------------------------------

  /** The rows of `t` that `keep(f, _)` accepts, newest (last inserted) first. */
  function NewestFirst<T, F>(t: seq<T>, f: F, keep: (F, T) -> bool): (r: seq<T>)
    ensures |r| <= |t|
    decreases |t|
  {
    if t == [] then []
    else (if keep(f, t[|t| - 1]) then [t[|t| - 1]] else []) + NewestFirst(t[..|t| - 1], f, keep)
  }

  /** The rows of `t` that `keep(f, _)` accepts, oldest (first inserted) first. */
  function OldestFirst<T, F>(t: seq<T>, f: F, keep: (F, T) -> bool): (r: seq<T>)
    ensures |r| <= |t|
    decreases |t|
  {
    if t == [] then []
    else (if keep(f, t[0]) then [t[0]] else []) + OldestFirst(t[1..], f, keep)
  }

  ghost predicate Ascending<T>(t: seq<T>, key: T -> nat) {
    forall i, j :: 0 <= i < j < |t| ==> key(t[i]) < key(t[j])
  }

  ghost predicate Descending<T>(t: seq<T>, key: T -> nat) {
    forall i, j :: 0 <= i < j < |t| ==> key(t[i]) > key(t[j])
  }

  /** `LIMIT n`: the first `n` rows, or all of them when there are fewer. */
  function Take<T>(s: seq<T>, n: nat): (r: seq<T>)
    ensures r <= s
    ensures |r| == if n <= |s| then n else |s|
  {
    if n <= |s| then s[..n] else s
  }

  /** A newest-first selection holds exactly the accepted rows of the table. */
  lemma NewestFirstHoldsAccepted<T, F>(t: seq<T>, f: F, keep: (F, T) -> bool)
    ensures forall x :: x in NewestFirst(t, f, keep) <==> x in t && keep(f, x)
  {
    forall x {
      NewestFirstMembers(t, f, keep, x);
    }
  }

  /** The same for one row. */
  lemma {:induction false} NewestFirstMembers<T, F>(t: seq<T>, f: F, keep: (F, T) -> bool, x: T)
    ensures x in NewestFirst(t, f, keep) <==> x in t && keep(f, x)
    decreases |t|
  {
    if t != [] {
      var init, last := t[..|t| - 1], t[|t| - 1];
      NewestFirstMembers(init, f, keep, x);
      assert t == init + [last];
    }
  }

  /** An oldest-first selection holds exactly the accepted rows of the table. */
  lemma {:induction false} OldestFirstMembers<T, F>(t: seq<T>, f: F, keep: (F, T) -> bool, x: T)
    ensures x in OldestFirst(t, f, keep) <==> x in t && keep(f, x)
    decreases |t|
  {
    if t != [] {
      OldestFirstMembers(t[1..], f, keep, x);
      assert t == [t[0]] + t[1..];
    }
  }

  /** On a table whose stamps increase, a newest-first selection is
      strictly ordered by stamp, newest first. */
  lemma {:induction false} NewestFirstDescending<T, F>(t: seq<T>, f: F, keep: (F, T) -> bool, key: T -> nat)
    requires Ascending(t, key)
    ensures Descending(NewestFirst(t, f, keep), key)
    decreases |t|
  {
    if t != [] {
      var init, last := t[..|t| - 1], t[|t| - 1];
      NewestFirstDescending(init, f, keep, key);
      var rest := NewestFirst(init, f, keep);
      forall y | y in rest
        ensures key(y) < key(last)
      {
        NewestFirstMembers(init, f, keep, y);
        var k :| 0 <= k < |init| && init[k] == y;
        assert t[k] == y;
      }
      var r := NewestFirst(t, f, keep);
      if keep(f, last) {
        assert r == [last] + rest;
        forall i, j | 0 <= i < j < |r|
          ensures key(r[i]) > key(r[j])
        {
          assert r[j] == rest[j - 1];
          if i > 0 {
            assert r[i] == rest[i - 1];
          } else {
            assert rest[j - 1] in rest;
          }
        }
      } else {
        assert r == rest;
      }
    }
  }

  /** On a table whose stamps increase, an oldest-first selection is
      strictly ordered by stamp, oldest first. */
  lemma {:induction false} OldestFirstAscending<T, F>(t: seq<T>, f: F, keep: (F, T) -> bool, key: T -> nat)
    requires Ascending(t, key)
    ensures Ascending(OldestFirst(t, f, keep), key)
    decreases |t|
  {
    if t != [] {
      var first, tail := t[0], t[1..];
      OldestFirstAscending(tail, f, keep, key);
      var rest := OldestFirst(tail, f, keep);
      forall y | y in rest
        ensures key(first) < key(y)
      {
        OldestFirstMembers(tail, f, keep, y);
        var k :| 0 <= k < |tail| && tail[k] == y;
        assert t[k + 1] == y;
      }
      var r := OldestFirst(t, f, keep);
      if keep(f, first) {
        assert r == [first] + rest;
        forall i, j | 0 <= i < j < |r|
          ensures key(r[i]) < key(r[j])
        {
          assert r[j] == rest[j - 1];
          if i > 0 {
            assert r[i] == rest[i - 1];
          } else {
            assert rest[j - 1] in rest;
          }
        }
      } else {
        assert r == rest;
      }
    }
  }

  /** Two filters that accept the same rows of `t` select the same result. */
  lemma {:induction false} NewestFirstSameRows<T, F>(t: seq<T>, f1: F, f2: F, keep: (F, T) -> bool)
    requires forall x :: x in t ==> keep(f1, x) == keep(f2, x)
    ensures NewestFirst(t, f1, keep) == NewestFirst(t, f2, keep)
    decreases |t|
  {
    if t != [] {
      var init := t[..|t| - 1];
      forall x | x in init
        ensures keep(f1, x) == keep(f2, x)
      {
        var k :| 0 <= k < |init| && init[k] == x;
        assert t[k] == x;
      }
      NewestFirstSameRows(init, f1, f2, keep);
    }
  }

  // ----------------------------------------------------------------------
  // Free-text search: `col LIKE '%text%'` under a case-insensitive collation
  // ----------------------------------------------------------------------

  function LowerChar(c: char): char {
    if 'A' <= c <= 'Z' then ((c as int) + 32) as char else c
  }

  function Lower(s: string): string {
    seq(|s|, i requires 0 <= i < |s| => LowerChar(s[i]))
  }

  /** `needle` occurs somewhere in `hay`. */
  predicate Contains(hay: string, needle: string)
    decreases |hay|
  {
    needle <= hay || (|hay| > 0 && Contains(hay[1..], needle))
  }

  /** `needle` occurs in `hay` starting at position `i`. */
  ghost predicate OccursAt(hay: string, needle: string, i: int) {
    0 <= i <= |hay| - |needle| && hay[i..i + |needle|] == needle
  }

  /** `Contains` agrees with the positional definition of a substring. */
  lemma {:induction false} ContainsIsSubstring(hay: string, needle: string)
    ensures Contains(hay, needle) <==> exists i :: OccursAt(hay, needle, i)
    decreases |hay|
  {
    if needle <= hay {
      assert OccursAt(hay, needle, 0);
    } else if |hay| > 0 {
      ContainsIsSubstring(hay[1..], needle);
      if exists i :: OccursAt(hay, needle, i) {
        var i :| OccursAt(hay, needle, i);
        assert i != 0;
        assert OccursAt(hay[1..], needle, i - 1);
      }
      if Contains(hay[1..], needle) {
        var i :| OccursAt(hay[1..], needle, i);
        assert OccursAt(hay, needle, i + 1);
      }
    }
  }

  /** `column LIKE '%text%'`: NULL never matches; otherwise the text must
      occur somewhere in the column, case ignored. */
  predicate Like(column: Option<string>, text: string): (r: bool)
    ensures r <==> column.Some? && exists i :: OccursAt(Lower(column.value), Lower(text), i)
  {
    column.Some? && (ContainsIsSubstring(Lower(column.value), Lower(text));
                     Contains(Lower(column.value), Lower(text)))
  }

  // ----------------------------------------------------------------------
  // System-log filters
  // ----------------------------------------------------------------------

  /** The filters getSystemLogs accepts; `limit` is None when it was absent
      or did not parse (NaN). */
  datatype LogFilters = LogFilters(
    role: Option<string>,
    moduleName: Option<string>,
    userId: Option<string>,
    search: Option<string>,
    limit: Option<int>)

  /** One element of the `conditions` array getSystemLogs builds. */
  datatype LogCondition =
    | RoleIs(role: string)
    | ModuleIs(name: string)
    | UserIs(userId: string)
    | Mentions(text: string)

  /** What the SQL for one condition accepts. `=` against NULL is never true. */
  predicate LogConditionHolds(c: LogCondition, l: SystemLog) {
    match c
    case RoleIs(x) => l.userRole == Some(x)
    case ModuleIs(x) => l.moduleName == Some(x)
    case UserIs(x) => l.userId == Some(x)
    case Mentions(s) => Like(Some(l.action), s) || Like(l.affectedData, s) || Like(l.userName, s)
  }

  /** `and(...conditions)`. */
  predicate AllLogConditionsHold(conds: seq<LogCondition>, l: SystemLog) {
    forall i :: 0 <= i < |conds| ==> LogConditionHolds(conds[i], l)
  }

  /** The specification of the log filter: each supplied (truthy) filter must
      hold, and the search text must occur in the action, the affected data
      or the user name. */
  predicate LogMatches(f: LogFilters, l: SystemLog): (r: bool)
    ensures !Truthy(f.role) && !Truthy(f.moduleName) && !Truthy(f.userId) && !Truthy(f.search) ==> r
    ensures Truthy(f.role) && l.userRole.None? ==> !r
    ensures Truthy(f.moduleName) && l.moduleName.None? ==> !r
    ensures Truthy(f.userId) && l.userId.None? ==> !r
  {
    && (Truthy(f.role) ==> l.userRole == f.role)
    && (Truthy(f.moduleName) ==> l.moduleName == f.moduleName)
    && (Truthy(f.userId) ==> l.userId == f.userId)
    && (Truthy(f.search) ==>
          Like(Some(l.action), f.search.value) || Like(l.affectedData, f.search.value)
          || Like(l.userName, f.search.value))
  }

  /** `if (filters?.limit)`: a limit truncates only when it is a non-zero number. */
  predicate LimitApplies(limit: Option<int>) {
    limit.Some? && limit.value != 0
  }

  /** A negative LIMIT is refused by the database. */
  predicate LimitRejected(limit: Option<int>) {
    LimitApplies(limit) && limit.value < 0
  }

  function LogTime(l: SystemLog): nat { l.timestamp }

  /** The rows getSystemLogs returns: every returned entry passes every
      supplied filter, and without a limit every entry that passes is
      returned. */
  function LogQuery(t: seq<SystemLog>, f: LogFilters): (r: seq<SystemLog>)
    requires !LimitRejected(f.limit)
    ensures forall x :: x in r ==> x in t && LogMatches(f, x)
    ensures !LimitApplies(f.limit) ==> forall x :: x in t && LogMatches(f, x) ==> x in r
  {
    var all := NewestFirst(t, f, LogMatches);
    NewestFirstHoldsAccepted(t, f, LogMatches);
    if LimitApplies(f.limit) then Take(all, f.limit.value) else all
  }

  /** The result is ordered newest first; a limit keeps exactly
      min(limit, matches) entries, and every matching entry it drops is
      older than every entry it keeps. */
  lemma LogQueryNewestFirst(t: seq<SystemLog>, f: LogFilters)
    requires !LimitRejected(f.limit)
    requires Ascending(t, LogTime)
    ensures Descending(LogQuery(t, f), LogTime)
    ensures var all := NewestFirst(t, f, LogMatches);
            LimitApplies(f.limit) ==>
              |LogQuery(t, f)| == (if f.limit.value <= |all| then f.limit.value else |all|)
    ensures forall x, y :: x in t && LogMatches(f, x) && x !in LogQuery(t, f) && y in LogQuery(t, f)
              ==> x.timestamp < y.timestamp
  {
    var all := NewestFirst(t, f, LogMatches);
    var r := LogQuery(t, f);
    NewestFirstDescending(t, f, LogMatches, LogTime);
    assert r <= all;
    forall x, y | x in t && LogMatches(f, x) && x !in r && y in r
      ensures x.timestamp < y.timestamp
    {
      NewestFirstMembers(t, f, LogMatches, x);
      var i :| 0 <= i < |all| && all[i] == x;
      var j :| 0 <= j < |r| && r[j] == y;
      assert all[j] == y;
    }
  }

  // ----------------------------------------------------------------------
  // Memo filters
  // ----------------------------------------------------------------------

  datatype MemoFilters = MemoFilters(
    status: Option<string>,
    category: Option<string>,
    showOnlyApproved: bool)

  datatype MemoCondition = StatusIs(status: string) | CategoryIs(category: string)

  predicate MemoConditionHolds(c: MemoCondition, m: Memo) {
    match c
    case StatusIs(s) => m.status == s
    case CategoryIs(x) => m.category == x
  }

  predicate AllMemoConditionsHold(conds: seq<MemoCondition>, m: Memo) {
    forall i :: 0 <= i < |conds| ==> MemoConditionHolds(conds[i], m)
  }

  /** A status or category filter that is present, non-empty and not the
      "all" sentinel. */
  predicate Selective(o: Option<string>) {
    Truthy(o) && o.value != "all"
  }

  /** The specification of the memo filter: `showOnlyApproved` wins over any
      status filter. */
  predicate MemoMatches(f: MemoFilters, m: Memo): (r: bool)
    ensures f.showOnlyApproved && m.status != "approved" ==> !r
    ensures !f.showOnlyApproved && !Selective(f.status) && !Selective(f.category) ==> r
  {
    && (f.showOnlyApproved ==> m.status == "approved")
    && (!f.showOnlyApproved && Selective(f.status) ==> m.status == f.status.value)
    && (Selective(f.category) ==> m.category == f.category.value)
  }

  function MemoTime(m: Memo): nat { m.createdAt }

  /** The rows getMemos returns: exactly the memos that pass the filters. */
  function MemoQuery(t: seq<Memo>, f: MemoFilters): (r: seq<Memo>)
    ensures forall m :: m in r <==> m in t && MemoMatches(f, m)
  {
    NewestFirstHoldsAccepted(t, f, MemoMatches);
    NewestFirst(t, f, MemoMatches)
  }

  /** With `showOnlyApproved` only approved memos come back, and the status
      filter is ignored whatever it says. */
  lemma MemoQueryApprovedOnly(t: seq<Memo>, f: MemoFilters, status: Option<string>)
    requires f.showOnlyApproved
    ensures forall m :: m in MemoQuery(t, f) ==> m in t && m.status == "approved"
    ensures MemoQuery(t, f) == MemoQuery(t, f.(status := status))
  {
    forall m | m in MemoQuery(t, f)
      ensures m in t && m.status == "approved"
    {
      NewestFirstMembers(t, f, MemoMatches, m);
    }
    NewestFirstSameRows(t, f, f.(status := status), MemoMatches);
  }

  /** A status or category of "all" filters nothing: it selects what an
      absent filter selects. */
  lemma MemoQueryAllSentinel(t: seq<Memo>, f: MemoFilters)
    ensures MemoQuery(t, f.(status := Some("all"))) == MemoQuery(t, f.(status := None))
    ensures MemoQuery(t, f.(category := Some("all"))) == MemoQuery(t, f.(category := None))
  {
    NewestFirstSameRows(t, f.(status := Some("all")), f.(status := None), MemoMatches);
    NewestFirstSameRows(t, f.(category := Some("all")), f.(category := None), MemoMatches);
  }

  /** The memos come back ordered by creation time, newest first. */
  lemma MemoQueryNewestFirst(t: seq<Memo>, f: MemoFilters)
    requires Ascending(t, MemoTime)
    ensures Descending(MemoQuery(t, f), MemoTime)
  {
    NewestFirstDescending(t, f, MemoMatches, MemoTime);
  }

  // ----------------------------------------------------------------------
  // Reports and messages
  // ----------------------------------------------------------------------

  /** `WHERE submittedBy = u` when a submitter is given, no WHERE otherwise. */
  predicate SubmittedBy(submitter: Option<string>, r: Report) {
    submitter.None? || r.submittedBy == submitter.value
  }

  function ReportTime(r: Report): nat { r.submittedAt }

  /** `WHERE reportId = id`. */
  predicate BelongsTo(reportId: string, m: ReportMessage) {
    m.reportId == reportId
  }

  function MessageTime(m: ReportMessage): nat { m.createdAt }

  /** getReports / getReportsBySubmitter: exactly the selected reports,
      newest submission first. */
  lemma ReportQueryNewestFirst(t: seq<Report>, submitter: Option<string>, x: Report)
    requires Ascending(t, ReportTime)
    ensures x in NewestFirst(t, submitter, SubmittedBy) <==>
            x in t && (submitter.Some? ==> x.submittedBy == submitter.value)
    ensures Descending(NewestFirst(t, submitter, SubmittedBy), ReportTime)
  {
    NewestFirstMembers(t, submitter, SubmittedBy, x);
    NewestFirstDescending(t, submitter, SubmittedBy, ReportTime);
  }

  /** getReportMessages: exactly the messages of the report, oldest first;
      empty when there are none. */
  lemma MessageQueryOldestFirst(t: seq<ReportMessage>, reportId: string, x: ReportMessage)
    requires Ascending(t, MessageTime)
    ensures x in OldestFirst(t, reportId, BelongsTo) <==> x in t && x.reportId == reportId
    ensures Ascending(OldestFirst(t, reportId, BelongsTo), MessageTime)
    ensures (forall m :: m in t ==> m.reportId != reportId) ==> OldestFirst(t, reportId, BelongsTo) == []
  {
    OldestFirstMembers(t, reportId, BelongsTo, x);
    OldestFirstAscending(t, reportId, BelongsTo, MessageTime);
    if (forall m :: m in t ==> m.reportId != reportId) && OldestFirst(t, reportId, BelongsTo) != [] {
      var y := OldestFirst(t, reportId, BelongsTo)[0];
      OldestFirstMembers(t, reportId, BelongsTo, y);
    }
  }
}
