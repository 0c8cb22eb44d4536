# Report lifecycle and audit trail — a Dafny model

This project models the server side of a barangay incident-report and
memo/ordinance system. Residents submit reports. Officials patch a report,
which can add conversation messages: an admin asks for more information and
the resident answers. Officials also create memos and approve, reject or
update them. Every one of these actions is recorded in a system log by a
best-effort audit recorder, which never makes the request fail.

The model has five modules, one per concern of the source:

- `Schema` (`schema.dfy`) covers the data contract of shared/schema.ts. It gives
  the five record shapes, which columns may be NULL (`Option`), the column
  defaults (`"submitted"`, `"pending"`, empty image lists) and the insert
  shapes. It also gives the row the database stores for each insert.
- `Queries` (`queries.dfy`) covers what the reads of server/storage.ts select,
  and in what order. The order is given by the specification functions
  `NewestFirst` and `OldestFirst` over a table kept in insertion order. The
  module also holds the log-filter and memo-filter predicates, the
  case-insensitive substring search, and the lemmas proving that results are
  exactly the matching rows in strict timestamp order.
- `Storage` (`storage.dfy`) covers the `DbStorage` methods. They become the class
  `Database`, whose fields are the five tables (`seq`s), an abstract
  clock standing for `CURRENT_TIMESTAMP`, and a ghost set of issued ids.
  Writes are methods with `modifies` frames. Reads are functions, except
  the two that build a `conditions` array step by step (`getSystemLogs` and
  `getMemos`), which are methods with loops proved against the query
  functions. The invariant `Valid()` states five things:
  - ids are fresh and distinct;
  - usernames are unique;
  - stamps are below the clock;
  - `updatedAt` is never before creation;
  - every table is ascending in creation time.
- `Logger` (`logger.dfy`) covers server/logger.ts:
  - `getClientIp`, including the string operations `split(",")[0]` and `trim()`;
  - `getUserAgent`;
  - `logAction` as a method that appends at most one row and swallows both of its possible failures.

  The failures are an explicit `AuditFault` parameter.
- `Routes` (`routes.dfy`) covers the HTTP handlers of server/routes.ts as methods.
  Each handler returns a status code and a JSON body and writes to the
  database in the source's order. For example, a report PATCH appends the
  conversation messages, then updates the report, then writes the audit entry.
  The session is a class whose `userId` field the login handler sets.

A stored id is the decimal numeral of the clock value at which it was issued
(`IdOf`). This stands in for `randomUUID()`/`UUID()`. The only property the
model relies on is that an id is never issued twice, and this is proved
(`DecimalInjective`, `IssueNext`). Each write (insert or update) takes the
current clock value as its timestamp and advances the clock, so timestamps
strictly increase in insertion order. That is why `ORDER BY ... DESC` is the
table read from its end.

## Model

| member | source | states |
|---|---|---|
| Schema.NewReport | shared/schema.ts:12-26 | a created report has status "submitted", NULL feedback and additional info, the given images or [], an empty additional-info image list, and both stamps equal to the insert time |
| Schema.NewReportMessage | shared/schema.ts:28-36 | a stored message carries exactly the inserted reportId, senderId, senderRole and text, with images defaulting to [] |
| Schema.NewSystemLog | shared/schema.ts:38-50 | a stored log row carries every inserted column unchanged; only `action` is required |
| Schema.NewMemo | shared/schema.ts:52-63 | a stored memo has the supplied status, or "pending" when none is supplied, and takes every other inserted column as given |
| Schema.OrNull | server/logger.ts:39-43 | `x \|\| null` stores a falsy value as NULL and never as "" |
| Queries.NewestFirst | server/storage.ts:304-308 | `ORDER BY ... DESC` with a filter: never longer than the table; what it holds and its order are stated by `NewestFirstMembers`, `NewestFirstHoldsAccepted` and `NewestFirstDescending` |
| Queries.OldestFirst | server/storage.ts:249-250 | `ORDER BY ...` ascending with a filter: never longer than the table; what it holds and its order are stated by `OldestFirstMembers` and `OldestFirstAscending` |
| Queries.NewestFirstHoldsAccepted | server/storage.ts:304-308 | a newest-first selection holds exactly the accepted table rows, for every row at once |
| Queries.NewestFirstMembers | server/storage.ts:304-308 | a newest-first selection holds exactly the table rows the filter accepts |
| Queries.OldestFirstMembers | server/storage.ts:249-250 | an oldest-first selection holds exactly the table rows the filter accepts |
| Queries.NewestFirstDescending | server/storage.ts:308 | on a table whose stamps increase, the newest-first selection is strictly descending by stamp |
| Queries.OldestFirstAscending | server/storage.ts:250 | on a table whose stamps increase, the oldest-first selection is strictly ascending by stamp |
| Queries.NewestFirstSameRows | server/storage.ts:349-358 | two filters that accept the same rows select the same result |
| Queries.ContainsIsSubstring | server/storage.ts:298-300 | the recursive search test holds exactly when the needle occurs at some position of the text |
| Queries.Take | server/storage.ts:310-312 | LIMIT n yields a prefix of the result, of length min(n, size) |
| Queries.Like | server/storage.ts:298-300 | `column LIKE '%text%'` holds exactly when the column is not NULL and the text occurs in it at some position, case ignored |
| Queries.LogMatches | server/storage.ts:287-301 | with no truthy filter every entry matches; a truthy role, module or userId filter never matches an entry whose column is NULL |
| Queries.LogQuery | server/storage.ts:287-306 | every returned log entry is in the table and passes every supplied filter; without a limit, every entry that passes is returned |
| Queries.LogQueryNewestFirst | server/storage.ts:308-315 | the logs come back strictly newest first; a limit keeps min(limit, matches) entries, and every matching entry it drops is older than every entry it keeps |
| Queries.MemoQueryApprovedOnly | server/storage.ts:351-355 | with showOnlyApproved only approved memos come back, whatever the status filter says |
| Queries.MemoQueryAllSentinel | server/storage.ts:353-357 | a status or category of "all" selects what an absent filter selects |
| Queries.MemoMatches | server/storage.ts:349-358 | with showOnlyApproved a memo that is not "approved" never matches; with no selective status or category filter every memo matches |
| Queries.MemoQuery | server/storage.ts:349-381 | a memo is returned exactly when it is in the table and passes the filters |
| Queries.MemoQueryNewestFirst | server/storage.ts:374-381 | a memo is returned exactly when it passes the filters, and the list is strictly newest first by createdAt |
| Queries.ReportQueryNewestFirst | server/storage.ts:153-202 | the report lists hold exactly all reports, or exactly the user's reports, strictly newest first by submittedAt |
| Queries.MessageQueryOldestFirst | server/storage.ts:234-252 | a report's messages are exactly those with its reportId, strictly oldest first, and there are none when no message has that reportId |
| Storage.DecimalInjective | server/storage.ts:77 | distinct clock values give distinct ids |
| Storage.IssueNext | server/storage.ts:77 | the id issued now was never issued before, and issuing it keeps the generator's invariant |
| Storage.FindFirst | server/storage.ts:56-60 | `result[0]` of a select is a row that matches the key, and it is None only when no row matches |
| Storage.UserNameOf | server/storage.ts:125-128 | the left-joined user name is NULL exactly when no user has the id, and otherwise it is the username of a user with that id |
| Storage.PatchReport | server/storage.ts:137-142 | an updated report row keeps its id, submitter and submission time, and its updatedAt is the update time |
| Storage.PatchMemo | server/storage.ts:389-394 | an updated memo keeps its id, issuer, creation time and effective date, and its updatedAt is the update time |
| Storage.PatchReportOverwritesSuppliedOnly | server/storage.ts:137-143 | a report update sets exactly the supplied columns and updatedAt, never the id, submitter or submission time, and applying it twice at the same time changes nothing more |
| Storage.PatchReportsOnlyMatchingRows | server/storage.ts:137-143 | `PatchReports`, the table after the update: only the rows with the id are rewritten, each one patched, and an unknown id leaves the table unchanged |
| Storage.PatchMemoOverwritesSuppliedOnly | server/storage.ts:389-395 | a memo update sets exactly the supplied columns and updatedAt, never the id, issuer or creation time, and it is idempotent |
| Storage.PatchMemosOnlyMatchingRows | server/storage.ts:389-395 | `PatchMemos`, the memo table after the update: only the memos with the id are rewritten, each one patched, and an unknown id leaves the table unchanged |
| Storage.PatchedReportFound | server/storage.ts:143-146 | the read-back after an update finds the patched version of the row the update matched, or nothing when none matched |
| Storage.PatchedMemoFound | server/storage.ts:395-416 | the memo read-back after an update finds the patched version of the matched memo, or nothing |
| Storage.FindFirstAfterAppend | server/storage.ts:86-97 | after an insert under a fresh key, a lookup by that key reads back exactly the inserted row |
| Storage.Database.constructor | server/storage.ts:424 | the storage starts with empty tables and satisfies its invariant |
| Storage.Database.NextId | server/storage.ts:77 | ids are fresh, and the clock moves forward by one |
| Storage.Database.GetUser | server/storage.ts:48-52 | returns a user with the id, and None only when there is none |
| Storage.Database.GetUserByUsername | server/storage.ts:54-61 | returns a user with the name, and None only when there is none |
| Storage.Database.CreateUser | server/storage.ts:63-71 | it fails with a duplicate entry exactly when the username is taken, because usernames are UNIQUE; otherwise it appends one user under a fresh id, which reading back by username or by id finds |
| Storage.Database.GetReport | server/storage.ts:108-132 | returns the row with the id and its submitter's name, and None exactly when no row has the id |
| Storage.Database.GetReports | server/storage.ts:153-177 | returns every report, joined, strictly newest first |
| Storage.Database.GetReportsBySubmitter | server/storage.ts:179-203 | returns exactly the user's reports, joined, strictly newest first |
| Storage.Database.CreateReport | server/storage.ts:73-106 | appends exactly one row under a fresh id, returns that stored row, and a lookup of its id reads it back |
| Storage.Database.UpdateReport | server/storage.ts:134-151 | patches the matching rows at the current time and leaves every other row unchanged; it returns the read-back row, which is None exactly when the id did not exist |
| Storage.Database.CreateReportMessage | server/storage.ts:205-232 | appends exactly one message under a fresh id and returns the stored row |
| Storage.Database.GetReportMessages | server/storage.ts:234-252 | returns exactly the report's messages, joined with sender names, oldest first |
| Storage.Database.CreateSystemLog | server/storage.ts:254-281 | appends exactly one log row under a fresh id and returns the stored row |
| Storage.Database.GetSystemLogs | server/storage.ts:283-316 | the built query returns the filter's result (newest first, limited when the limit is a nonzero number), and it fails exactly when the limit is negative |
| Storage.Database.CreateMemo | server/storage.ts:318-345 | appends exactly one memo under a fresh id and returns the stored row |
| Storage.Database.GetMemos | server/storage.ts:347-384 | the built query returns the memo filter's result, newest first and joined with issuer names |
| Storage.Database.UpdateMemo | server/storage.ts:386-421 | patches the matching memos at the current time and leaves every other memo unchanged; the read-back is the patched first match with its issuer's name, or None exactly when the id is unknown |
| Storage.LogConditions | server/storage.ts:287-302 | the pushed conditions together accept exactly the entries the supplied filters describe |
| Storage.LogConditionsMeanFilters | server/storage.ts:287-306 | the condition list of truthy filters, in source order, means the filter specification |
| Storage.MemoConditions | server/storage.ts:349-358 | the pushed conditions together accept exactly the memos the filters describe, with showOnlyApproved taking precedence and "all" meaning no filter |
| Storage.MemoConditionsMeanFilters | server/storage.ts:349-358 | the memo condition list means the memo filter specification |
| Storage.ScanNewest | server/storage.ts:304-315 | scanning from the newest row, keeping accepted rows and stopping at the limit, returns exactly the newest-first selection, or its first `limit` rows |
| Storage.ReportsNewestFirstHold | server/storage.ts:153-202 | the report selections hold exactly the selected reports in strictly descending submission time |
| Storage.MessagesOldestFirstHold | server/storage.ts:234-251 | the message selection holds exactly the report's messages in strictly ascending creation time |
| Storage.PatchKeepsReportsOk | server/storage.ts:137-143 | an update keeps ids, submission stamps and ordering, and leaves updatedAt at or after creation |
| Storage.PatchKeepsMemosOk | server/storage.ts:389-395 | the same holds for memos |
| Logger.TrimStart | server/logger.ts:7 | strips exactly a leading run of white space |
| Logger.TrimEnd | server/logger.ts:7 | strips exactly a trailing run of white space |
| Logger.Trim | server/logger.ts:7 | the result has no white space at either end |
| Logger.TrimIsMiddle | server/logger.ts:7 | `trim()` returns a middle slice of its input, and everything cut off on either side is white space |
| Logger.FirstSegment | server/logger.ts:7 | `split(",")[0]` is the longest comma-free prefix |
| Logger.GetClientIp | server/logger.ts:4-10 | a single forwarded-for header gives exactly the trimmed first comma-separated segment: comma-free, trimmed, and "" when the header starts with a comma; otherwise req.ip, then the socket address, then "unknown", whichever is first truthy |
| Logger.ClientIpIsFirstHop | server/logger.ts:5-8 | for a proxy chain `  ip  , rest` the client address is exactly `ip` |
| Logger.ClientIpSingleHop | server/logger.ts:5-8 | a header that holds one address and no comma, padded with white space, gives exactly that address |
| Logger.TrimPadded | server/logger.ts:7 | trimming removes exactly the white-space padding around a value |
| Logger.FirstSegmentStopsAtComma | server/logger.ts:7 | the first segment ends at the first comma |
| Logger.TrimStartSkips | server/logger.ts:7 | leading white space is skipped up to the first other character |
| Logger.TrimEndSkips | server/logger.ts:7 | trailing white space is dropped back to the last other character |
| Logger.GetUserAgent | server/logger.ts:12-14 | the user-agent header when it is truthy, else "unknown" |
| Logger.AuditEntry | server/logger.ts:29-48 | the logged row copies the action and module, stores falsy optional fields as NULL, and fills the user name from the users table only when userId is truthy and userName is not; the role is never filled in |
| Logger.AuditRecord | server/logger.ts:28-52 | a failing lookup or insert only drops the entry, never alters it; a lookup failure matters only when a lookup happens; an insert failure always drops it; without a failure the entry is always recorded |
| Logger.LogAction | server/logger.ts:16-53 | appends exactly the audit row, or nothing when the lookup or the insert fails, and never fails itself; no other table changes |
| Routes.Session.constructor | server/routes.ts:43 | the session holds the given user id |
| Routes.StatusRejected | server/routes.ts:170-176 | a status is refused exactly when it is present, not empty and not in the allowed list; an allowed status is never refused |
| Routes.LoginAudit | server/routes.ts:19-51 | the login is audited as "User logged in" exactly when the user exists and the password matches, otherwise as "Failed login attempt", always under "Authentication" |
| Routes.Login | server/routes.ts:11-58 | missing fields give 400 with nothing logged; otherwise 200 and the session set exactly on a match, else 401 with the session unchanged, and every such attempt is audited |
| Routes.ReportFormComplete | server/routes.ts:99-101 | the form passes exactly when category, description, priority and location are all present and not empty |
| Routes.ReportInsert | server/routes.ts:111-118 | the stored submitter is the session user and the images are the posted list or [] |
| Routes.SubmitAudit | server/routes.ts:122-130 | a submission is audited as "Submitted report" in module "Reports" with role "resident", by the session user, and its details start with the new report's id and category and end with its priority |
| Routes.SubmitReport | server/routes.ts:96-138 | validation precedes the session check (400, then 401, writing nothing); a valid submission appends exactly one "submitted" report owned by the session user, returns 201 with it, and appends exactly one "Submitted report" entry under module "Reports" with role "resident" unless the recorder fails |
| Routes.PatchMessages | server/routes.ts:184-208 | a feedback message with images [] exists iff adminFeedback and senderRole are truthy; an answer message with the given images or [] exists iff additionalInfo and senderRole are truthy; the feedback comes first; both are sent by the session user under senderRole |
| Routes.ReportAuditPrecedence | server/routes.ts:181-214 | `ReportAuditAction`: the label is "Updated report status" exactly for a truthy status on an existing report, else "Provided additional information" exactly for an answer, else "Requested additional information" exactly for a request, else "Updated report" |
| Routes.ReportAuditConsistent | server/routes.ts:181-214 | `ReportAuditDetails` always starts with the report id; a status change reads "Status changed from <old> to <new>"; the plain label goes exactly with the plain details |
| Routes.ReportAudit | server/routes.ts:224-231 | the PATCH is audited under the senderRole when it is truthy and "admin" otherwise, in module "Reports", by the session user, with the precedence label and its details |
| Routes.AppendMessage | server/routes.ts:186-205 | one more conversation message is appended after the ones before it |
| Routes.RecordConversation | server/routes.ts:181-214 | appends exactly the PATCH's conversation messages in order, and the label and details it ends with are those of the precedence order status change, answer, request, plain update |
| Routes.PatchReportRoute | server/routes.ts:161-240 | no session gives 401, and a truthy status outside the five report statuses gives 400, neither writing anything; any listed status is accepted whatever the current one; otherwise the messages are appended and the report is updated |
| Routes.ApplyReportPatch | server/routes.ts:178-234 | the messages are appended first and stay appended; then the matching report rows are patched without senderRole; an unknown report gives 404 with no audit entry, otherwise 200 with the stored report and one audit entry whose role is senderRole or "admin" |
| Routes.UpdateAndAudit | server/routes.ts:216-234 | the update of the report, then the 404, or the audit entry under the chosen label and the 200 with the updated report |
| Routes.ListMessages | server/routes.ts:243-255 | without a session 401; otherwise 200 with exactly the report's messages, oldest first |
| Routes.HexDigitValue | server/routes.ts:279 | a hex digit's value is its place in "0123456789abcdef" or "0123456789ABCDEF"; it is below 16, and below 10 exactly for a decimal digit |
| Routes.LongestPrefix | server/routes.ts:279 | the longest run of accepted characters at the start of the text |
| Routes.ParseInt | server/routes.ts:279 | `parseInt` without a radix: blank text is NaN; a negative result comes from text whose first non-blank character is "-"; any number read starts, after white space, with a digit or a sign |
| Routes.ReadDigits | server/routes.ts:279 | the unsigned part reads a number only from text that starts with a digit |
| Routes.DecimalDigits | server/routes.ts:279 | a decimal numeral is all digits and denotes its number |
| Routes.LongestPrefixStops | server/routes.ts:279 | the run ends at the first rejected character |
| Routes.ParseIntReadsDecimal | server/routes.ts:279 | parseInt reads back a decimal numeral whatever non-digit text follows it |
| Routes.ParseIntNegative | server/routes.ts:279 | parseInt of "-" followed by a numeral is the negated number |
| Routes.ParseIntReadsHex | server/routes.ts:279 | "0x" followed by hex digits is read in base 16 up to the first non-hex character |
| Routes.ParseIntHexExample | server/routes.ts:279 | proof helper, a worked instance of `ParseIntReadsHex`: parseInt("0x10") is 16 |
| Routes.ParseIntUnsigned | server/routes.ts:279 | text starting with a digit is read by the unsigned reader from its first character |
| Routes.ParseIntMinus | server/routes.ts:279 | a minus sign before unsigned text negates what the unsigned reader gives |
| Routes.ReadDigitsDecimal | server/routes.ts:279 | the unsigned reader gives back a decimal numeral followed by text that neither continues it nor makes it "0x" |
| Routes.ReadDigitsHex | server/routes.ts:279 | the unsigned reader reads the hex digits after "0x" or "0X" |
| Routes.NoHexPrefix | server/routes.ts:279 | a numeral followed by a non-digit does not look like "0x" unless it is "0" followed by an x |
| Routes.ParseIntNaN | server/routes.ts:279 | a limit that starts with neither a digit nor a sign is NaN and does not limit |
| Routes.LogFiltersOf | server/routes.ts:274-279 | only truthy query parameters become filters, and a truthy limit is exactly parseInt of its text |
| Routes.LogFiltersOfAgrees | server/routes.ts:274-279 | dropping the falsy parameters selects the same entries as passing them through |
| Routes.ListLogs | server/routes.ts:267-287 | without a session 401; a negative limit 500; otherwise 200 with exactly the filtered, newest-first, limited logs |
| Routes.MemoFiltersOf | server/routes.ts:296-302 | showOnlyApproved is on only for the exact text "true"; falsy status and category are dropped |
| Routes.ListMemos | server/routes.ts:290-310 | without a session 401; otherwise 200 with exactly the filtered memos, newest first, with their issuers' names |
| Routes.MemoFormComplete | server/routes.ts:319-321 | the form passes exactly when title, description and category are all present and not empty |
| Routes.MemoInsert | server/routes.ts:326-336 | the stored status is the posted one, or "pending" when none is posted; the issuer is the session user |
| Routes.CreateMemoAudit | server/routes.ts:338-346 | the audit is "Published memo/ordinance" with role "admin" iff the status is "approved", otherwise "Created memo/ordinance request" with role "official" |
| Routes.CreateMemo | server/routes.ts:312-354 | the session check precedes validation (401, then 400, writing nothing); otherwise it appends exactly one memo with the posted status or "pending", returns 201 and audits it |
| Routes.MemoAuditAction | server/routes.ts:386-391 | "Approved and published" iff the new status is "approved", "Rejected" iff "rejected", otherwise "Updated memo/ordinance" |
| Routes.PatchMemoAudit | server/routes.ts:393-400 | a memo update is audited under the status label, with role "admin", in module "Memos", by the session user; its details start with the memo id and title label and end with the old status, the arrow text (`StatusArrow`) and the new status, or the old one again when none is given |
| Routes.ConcatAffixes | server/routes.ts:398 | proof helper for the audit texts: a concatenation starts with its first part and ends with its second |
| Routes.PatchMemoRoute | server/routes.ts:356-409 | no session gives 401, and a truthy status outside pending/approved/rejected gives 400, before any read or write; otherwise the memo PATCH goes ahead |
| Routes.ApplyMemoPatch | server/routes.ts:372-403 | an unknown memo id gives 404 with nothing written; otherwise only that memo is patched, the response is 200 with it and its issuer's name, and the audit entry records the old status and the new one (the old one again when none is given) |
| Routes.UpdateAndAuditMemo | server/routes.ts:381-403 | the update of a memo known to exist, its label by the new status, and its audit entry |
| Routes.AuditMemoPatch | server/routes.ts:386-400 | the label chosen by the new status and the audit entry of the memo update, appended or dropped exactly as the recorder decides |
| Routes.ExistingMemoFound | server/routes.ts:374-379 | finding the id in the full memo list finds the same memo as the update's WHERE clause, or nothing when that finds nothing |
| Routes.MemoIdUniqueFind | server/routes.ts:375 | with distinct ids, the lookup of a memo's id finds that memo |

## Left out

- The logout handler, `GET /api/auth/me`, `GET /api/reports`, `GET /api/reports/:id` and `GET /api/reports/user/:userId` are not modelled as handlers. They are thin wrappers around storage reads that are modelled (`GetReports`, `GetReport`, `GetReportsBySubmitter`).
- The `metadata` JSON column and the `metadata` option of logAction are not modelled. They are opaque blobs that no rule reads.
- JSON `null` values in PATCH bodies are not modelled. A patch key is either absent or holds a string (or an image list). PATCH bodies that try to write `id`, `submittedBy`, `submittedAt` or `createdAt` are not modelled either; `ReportPatch` and `MemoPatch` carry only the columns a client sends.
- A memo PATCH body that carries `effectiveDate` is not modelled. The source passes that text unconverted to a datetime column, where the update can fail. `MemoPatch` has no such field, so the model's update keeps the stored effective date. The `new Date(...)` conversion of the create handler (server/routes.ts:332) is not modelled either; the effective date is kept as the text the client sent.
- Column length limits (varchar sizes) are not modelled.
- `=` on a text column is modelled as exact, case-sensitive equality. This affects the username lookup and the UNIQUE username check, the role, module and userId log filters, the memo status and category filters, and showOnlyApproved. Under MySQL's usual case-insensitive collation "Approved" would also match "approved"; the model does not capture that.
- A memo PATCH body that carries `issuedBy`, `createdAt` or `id` is not modelled. The source spreads the whole body into the update, so such a body would overwrite those columns; `MemoPatch` has no such fields.
- Search uses MySQL `LIKE` under a case-insensitive collation. It is modelled as an ASCII case-insensitive substring test. Wildcards `%` and `_` inside the search text are not modelled, and neither is Unicode case folding.
- Database failures are not modelled, apart from a duplicate username and a negative LIMIT. As a result, the handlers' 500 branches for other failures are absent. So is the "failed to retrieve created row" throw of the create methods, which cannot happen once an insert succeeds.
- Routes.ApplyMemoPatch: the second 404 (server/routes.ts:382-384) is not a branch of the model. The memo was found just before, and without concurrent deletes the update finds it too; this is proved in `UpdateAndAuditMemo`.
- Timestamps are an abstract clock that every write advances by one. Two writes within the same second, which MySQL's `CURRENT_TIMESTAMP` would stamp equally, are not modelled, so orderings are strict.
- Concurrency and atomicity of the sequential writes of one handler are not modelled. The handlers run one at a time.
- Routes.ParseInt: arrays as query values and integers above 2^53, where `parseInt` rounds to the nearest double, are not modelled; `parseInt` of text is modelled on unbounded integers.
- Login's password comparison is modelled as string equality. Password hashing and session cookies are not modelled.
- The memo audit text uses the three characters `â†’` where an arrow was evidently meant (server/routes.ts:398). The model keeps them as written (`Routes.StatusArrow`).
- The client pages, the mock data, the scripts, the drizzle configuration and the lazily created database connection (`getDb`) are not part of this model.
