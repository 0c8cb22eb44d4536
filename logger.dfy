/** The best-effort audit recorder: where the client address and agent come
    from, which columns the audit row gets, and the rule that a failing
    lookup or insert never reaches the caller. */
module Logger {
  import opened Schema
  import opened Storage

  // ----------------------------------------------------------------------
  // The request facts the recorder reads
  // ----------------------------------------------------------------------

  /** A Node header value: absent, one string, or a repeated header. */
  datatype HeaderValue = Missing | Text(text: string) | List(items: seq<string>)

  /** `x-forwarded-for`, `req.ip`, `req.socket.remoteAddress` and
      `user-agent`. */
  datatype Request = Request(
    forwardedFor: HeaderValue,
    ip: Option<string>,
    remoteAddress: Option<string>,
    userAgent: Option<string>)

  /** The characters `String.prototype.trim` removes: ECMAScript white
      space and line terminators. */
  predicate IsTrimmable(c: char) {
    var n := c as int;
    || (0x9 <= n <= 0xD) || n == 0x20 || n == 0xA0 || n == 0x1680
    || (0x2000 <= n <= 0x200A) || n == 0x2028 || n == 0x2029 || n == 0x202F
    || n == 0x205F || n == 0x3000 || n == 0xFEFF
  }

  /** A string made only of removable characters. */
  predicate Padding(s: string) {
    forall k :: 0 <= k < |s| ==> IsTrimmable(s[k])
  }

  /** A string with no removable character at either end. */
  predicate Trimmed(s: string) {
    s == [] || (!IsTrimmable(s[0]) && !IsTrimmable(s[|s| - 1]))
  }

  function TrimStart(s: string): (r: string)
    ensures |r| <= |s| && r == s[|s| - |r|..]
    ensures r == [] || !IsTrimmable(r[0])
    ensures forall i :: 0 <= i < |s| - |r| ==> IsTrimmable(s[i])
  {
    if s != [] && IsTrimmable(s[0]) then TrimStart(s[1..]) else s
  }

  function TrimEnd(s: string): (r: string)
    ensures r <= s
    ensures r == [] || !IsTrimmable(r[|r| - 1])
    ensures forall i :: |r| <= i < |s| ==> IsTrimmable(s[i])
  {
    if s != [] && IsTrimmable(s[|s| - 1]) then TrimEnd(s[..|s| - 1]) else s
  }

  /** `s.trim()`. */
  function Trim(s: string): (r: string)
    ensures Trimmed(r)
  {
    TrimEnd(TrimStart(s))
  }

  /** Trimming keeps the middle of `s` and cuts off only padding at both
      ends. */
  lemma TrimIsMiddle(s: string)
    ensures exists i, j :: 0 <= i <= j <= |s| && Trim(s) == s[i..j] && Padding(s[..i]) && Padding(s[j..])
  {
    var a := TrimStart(s);
    var b := TrimEnd(a);
    var i := |s| - |a|;
    PaddingBefore(s, i);
    PaddingAfter(a, |b|);
    assert a[|b|..] == s[i + |b|..];
    assert b == s[i..i + |b|];
  }

  /** The first `n` characters, when all removable, are padding. */
  lemma PaddingBefore(s: string, n: nat)
    requires n <= |s|
    requires forall k :: 0 <= k < n ==> IsTrimmable(s[k])
    ensures Padding(s[..n])
  {
    assert forall k :: 0 <= k < n ==> s[..n][k] == s[k];
  }

  /** The characters from `n` on, when all removable, are padding. */
  lemma PaddingAfter(s: string, n: nat)
    requires n <= |s|
    requires forall k :: n <= k < |s| ==> IsTrimmable(s[k])
    ensures Padding(s[n..])
  {
    assert forall k :: 0 <= k < |s| - n ==> s[n..][k] == s[n + k];
  }

  /** `s.split(",")[0]`: everything before the first comma. */
  function FirstSegment(s: string): (r: string)
    ensures r <= s
    ensures ',' !in r
    ensures |r| < |s| ==> s[|r|] == ','
  {
    if s == [] || s[0] == ',' then [] else [s[0]] + FirstSegment(s[1..])
  }

  /** The client address: the first hop of a single `x-forwarded-for`
      header, trimmed; otherwise `req.ip`, the socket address, or
      "unknown", whichever is first truthy. */
  function GetClientIp(req: Request): (r: string)
    ensures req.forwardedFor.Text? ==> r == Trim(FirstSegment(req.forwardedFor.text))
    ensures req.forwardedFor.Text? ==> ',' !in r && Trimmed(r)
    ensures req.forwardedFor.Text? && req.forwardedFor.text != [] && req.forwardedFor.text[0] == ',' ==> r == ""
    ensures !req.forwardedFor.Text? ==> r != ""
    ensures !req.forwardedFor.Text? && Truthy(req.ip) ==> r == req.ip.value
    ensures !req.forwardedFor.Text? && !Truthy(req.ip) && Truthy(req.remoteAddress) ==> r == req.remoteAddress.value
    ensures !req.forwardedFor.Text? && !Truthy(req.ip) && !Truthy(req.remoteAddress) ==> r == "unknown"
  {
    match req.forwardedFor
    case Text(h) =>
      var seg := FirstSegment(h);
      assert ',' !in TrimStart(seg) by {
        assert TrimStart(seg) == seg[|seg| - |TrimStart(seg)|..];
      }
      Trim(seg)
    case _ => OrElse(req.ip, OrElse(req.remoteAddress, "unknown"))
  }

  /** The `user-agent` header, or "unknown" when it is absent or empty. */
  function GetUserAgent(req: Request): (r: string)
    ensures r != ""
    ensures Truthy(req.userAgent) ==> r == req.userAgent.value
    ensures !Truthy(req.userAgent) ==> r == "unknown"
  {
    OrElse(req.userAgent, "unknown")
  }

  /** A proxy chain `<spaces> ip <spaces>, rest` yields the first address
      exactly, whatever follows the comma. */
  lemma ClientIpIsFirstHop(ip: string, pre: string, post: string, rest: string, req: Request)
    requires Trimmed(ip) && ip != [] && ',' !in ip
    requires Padding(pre)
    requires Padding(post)
    requires req.forwardedFor == Text(pre + ip + post + "," + rest)
    ensures GetClientIp(req) == ip
  {
    FirstSegmentStopsAtComma(pre + ip + post, rest);
    TrimPadded(pre, ip, post);
  }

  /** A header naming a single address, padded or not, yields that address. */
  lemma ClientIpSingleHop(ip: string, pre: string, post: string, req: Request)
    requires Trimmed(ip) && ip != [] && ',' !in ip
    requires Padding(pre)
    requires Padding(post)
    requires req.forwardedFor == Text(pre + ip + post)
    ensures GetClientIp(req) == ip
  {
    var h := pre + ip + post;
    assert ',' !in h by {
      assert !IsTrimmable(',');
      forall k | 0 <= k < |h| ensures h[k] != ',' {
        if k < |pre| { assert h[k] == pre[k]; }
        else if k < |pre| + |ip| { assert h[k] == ip[k - |pre|]; }
        else { assert h[k] == post[k - |pre| - |ip|]; }
      }
    }
    assert FirstSegment(h) == h;
    TrimPadded(pre, ip, post);
  }

  /** Trimming removes exactly the padding around a trimmed value. */
  lemma TrimPadded(pre: string, s: string, post: string)
    requires Trimmed(s) && s != []
    requires Padding(pre)
    requires Padding(post)
    ensures Trim(pre + s + post) == s
  {
    assert pre + s + post == pre + (s + post);
    TrimStartSkips(pre, s + post);
    TrimEndSkips(s, post);
  }

  lemma {:induction false} FirstSegmentStopsAtComma(s: string, rest: string)
    requires ',' !in s
    ensures FirstSegment(s + "," + rest) == s
    decreases |s|
  {
    if s != [] {
      assert (s + "," + rest)[1..] == s[1..] + "," + rest;
      FirstSegmentStopsAtComma(s[1..], rest);
    }
  }

  lemma {:induction false} TrimStartSkips(pre: string, s: string)
    requires Padding(pre)
    requires s != [] && !IsTrimmable(s[0])
    ensures TrimStart(pre + s) == s
    decreases |pre|
  {
    if pre != [] {
      assert (pre + s)[0] == pre[0];
      assert (pre + s)[1..] == pre[1..] + s;
      assert Padding(pre[1..]) by {
        forall k | 0 <= k < |pre| - 1 ensures IsTrimmable(pre[1..][k]) {
          assert pre[1..][k] == pre[k + 1];
        }
      }
      TrimStartSkips(pre[1..], s);
    }
  }

  lemma {:induction false} TrimEndSkips(s: string, post: string)
    requires Padding(post)
    requires s != [] && !IsTrimmable(s[|s| - 1])
    ensures TrimEnd(s + post) == s
    decreases |post|
  {
    if post != [] {
      assert (s + post)[|s + post| - 1] == post[|post| - 1];
      assert (s + post)[..|s + post| - 1] == s + post[..|post| - 1];
      var rest := post[..|post| - 1];
      assert Padding(rest) by {
        forall k | 0 <= k < |rest| ensures IsTrimmable(rest[k]) {
          assert rest[k] == post[k];
        }
      }
      TrimEndSkips(s, rest);
    }
  }

  // ----------------------------------------------------------------------
  // The audit row
  // ----------------------------------------------------------------------

  /** The options a handler passes to logAction (the metadata blob is not
      part of this model). */
  datatype LogOptions = LogOptions(
    userId: Option<string>,
    userName: Option<string>,
    userRole: Option<string>,
    action: string,
    affectedData: Option<string>,
    moduleName: string)

  /** What goes wrong inside logAction, if anything: the user lookup
      throws, or the insert throws. */
  datatype AuditFault = NoFault | LookupFails | InsertFails

  /** The user name is looked up only for a truthy userId without a truthy
      userName. */
  predicate NeedsLookup(opts: LogOptions) {
    Truthy(opts.userId) && !Truthy(opts.userName)
  }

  /** The row logAction inserts when nothing fails: the looked-up name
      replaces a missing one, falsy optional fields become NULL, action and
      module are copied, address and agent come from the request. */
  function AuditEntry(users: seq<User>, req: Request, opts: LogOptions): (r: InsertSystemLog)
    ensures r.action == opts.action && r.moduleName == Some(opts.moduleName)
    ensures r.userId == OrNull(opts.userId) && r.userRole == OrNull(opts.userRole)
    ensures r.affectedData == OrNull(opts.affectedData)
    ensures !NeedsLookup(opts) ==> r.userName == OrNull(opts.userName)
    ensures NeedsLookup(opts) ==> r.userName == OrNull(UserNameOf(users, opts.userId.value))
    ensures r.ipAddress == Some(GetClientIp(req)) && r.userAgent == Some(GetUserAgent(req))
    ensures r.userName.None? || r.userName.value != ""
  {
    var name := if NeedsLookup(opts) && UserNameOf(users, opts.userId.value).Some?
                then UserNameOf(users, opts.userId.value) else opts.userName;
    InsertSystemLog(OrNull(opts.userId), OrNull(name), OrNull(opts.userRole), opts.action,
                    OrNull(opts.affectedData), Some(opts.moduleName),
                    Some(GetClientIp(req)), Some(GetUserAgent(req)))
  }

  /** The row logAction stores under `fault`, or None when the failure
      swallowed it. */
  /** A failure only ever drops the entry; it never changes what is
      recorded, and without one the entry is always recorded. A lookup
      failure matters only when a lookup happens. */
  function AuditRecord(users: seq<User>, req: Request, opts: LogOptions, fault: AuditFault): (r: Option<InsertSystemLog>)
    ensures fault == NoFault ==> r == Some(AuditEntry(users, req, opts))
    ensures r.Some? ==> r.value == AuditEntry(users, req, opts)
    ensures !NeedsLookup(opts) && fault == LookupFails ==> r.Some?
    ensures fault == InsertFails ==> r.None?
  {
    if fault == InsertFails || (fault == LookupFails && NeedsLookup(opts)) then None
    else Some(AuditEntry(users, req, opts))
  }

  /** The log table after logAction: one row with the record's columns
      appended, or the table as it was. */
  ghost predicate Audited(before: seq<SystemLog>, after: seq<SystemLog>, record: Option<InsertSystemLog>) {
    match record
    case None => after == before
    case Some(entry) =>
      && |after| == |before| + 1
      && after[..|before|] == before
      && InsertOfLog(after[|before|]) == entry
  }

  /** logAction: fills in the user name when needed, inserts the row and
      swallows any failure. It never fails and touches only the log table
      (and the id generator). */
  method LogAction(db: Database, req: Request, opts: LogOptions, fault: AuditFault)
    requires db.Valid()
    modifies db`logs, db`clock, db`issued
    ensures db.Valid()
    ensures Audited(old(db.logs), db.logs, AuditRecord(db.users, req, opts, fault))
  {
    var options := opts;
    if Truthy(options.userId) && !Truthy(options.userName) {
      if fault == LookupFails {
        return;
      }
      var user := db.GetUser(options.userId.value);
      if user.Some? {
        options := options.(userName := Some(user.value.username));
      }
    }
    if fault == InsertFails {
      return;
    }
    var entry := InsertSystemLog(OrNull(options.userId), OrNull(options.userName),
                                 OrNull(options.userRole), options.action,
                                 OrNull(options.affectedData), Some(options.moduleName),
                                 Some(GetClientIp(req)), Some(GetUserAgent(req)));
    assert entry == AuditEntry(db.users, req, opts);
    var stored := db.CreateSystemLog(entry);
    assert db.logs[..|old(db.logs)|] == old(db.logs);
  }
}
