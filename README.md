# Contact-form inquiry service: validator and handlers

A model of the server of a small contact-form service. Visitors post a name, an email
address and a message; the server checks the three fields, stores the inquiry in a
relational table inside a transaction, mails the administrator, and commits only when the
mail went out. An admin page lists the inquiries newest first; a separate endpoint
(`UpdateStatus` here) sets the status of one inquiry.

- `wrappers.dfy`: `Option`, for request fields that may be absent.
- `validator.dfy` (module `Validator`): `validateInquiry` as the pure function `Validate`.
  It checks the name, then the email, then the message, and reports the first field that fails.
  The regular expression `^[^\s@]+@[^\s@]+\.[^\s@]+$` is a ghost predicate, `MatchesEmailRegex`.
  It is proved equal to the written-out rule `WellFormedEmail`: no whitespace, exactly one `@`,
  a non-empty local part, and a `.` strictly inside the domain part.
- `store.dfy` (module `InquiryStore`): the three route handlers as methods of a class `Store`.
  The class holds the table rows (`seq<Inquiry>`, in insertion order), the serial id counter,
  a clock for `created_at`, and the number of pooled connections currently checked out.
  The outcomes of the database, the mail transport and the commit are boolean inputs.

Modelling decisions:
- A request field is `Option<string>`. `None` is a field the JSON body left out. JavaScript's
  `!field` is true exactly for `None` or `""`.
- `\s` is the exact character set of a JavaScript regular expression.
- Lengths count characters, as `|s|`.
- `id` is a serial column. Its sequence is not transactional, so a rolled-back INSERT still
  uses up its id: after a failed mail or a failed COMMIT the rows are exactly as before, but
  `nextId` has moved on. An INSERT that fails after taking its id default (a value too long
  for its column, say) uses one up too, while a failed BEGIN does not. So a failed submission leaves the rows unchanged, not the whole store.
- `created_at` is a counter that the store increases on every INSERT. Rows are therefore in
  strictly increasing `created_at` order, and the list query (ORDER BY created_at DESC) is the
  reverse of insertion order.
- The column defaults of `status` and `is_read` are constructor parameters of `Store`.
  `updated_at` is `None` on insert. The table definition is not part of this model.
- A COMMIT that fails after the mail was sent ends in ROLLBACK and 500. The administrator has
  then been notified of an inquiry that is not stored. `Submit` returns `mailed` so that this
  case can be stated.
- The `:id` path segment is `Option<int>`. `None` stands for text the database cannot cast to
  an integer; that query fails, and the handler answers 500.

## Model

| member | source | states |
|---|---|---|
| `Validator.Present` | server.js:83 | JavaScript's `!field` is false exactly for a present, non-empty string (the same test opens the checks at lines 87 and 91) |
| `Validator.NameOk` | server.js:83 | the name check passes: the field is present, non-empty and at most 100 characters |
| `Validator.EmailOk` | server.js:87 | the email check passes: the field is present, non-empty and well-formed |
| `Validator.MessageOk` | server.js:91 | the message check passes: the field is present, non-empty and at most 5000 characters |
| `Validator.IsPlain` | server.js:87 | the class `[^\s@]`: a character that is neither `\s` nor `@` |
| `Validator.IsWhitespace` | server.js:87 | the characters of the JavaScript class `\s`: tab, line feed, vertical tab, form feed, carriage return, space, U+00A0, U+1680, U+2000..U+200A, U+2028, U+2029, U+202F, U+205F, U+3000 and U+FEFF |
| `Validator.MatchesEmailRegex` | server.js:87 | the language of `^[^\s@]+@[^\s@]+\.[^\s@]+$`: some split into a local part, `@`, a host part, `.` and a rest, each part a non-empty run of characters that are neither `\s` nor `@` |
| `Validator.WellFormedEmail` | server.js:87 | the written-out email rule: no whitespace, exactly one `@`, a non-empty part before it, a `.` strictly inside the part after it |
| `Validator.Validate` | server.js:80-96 | Accepted exactly when the name has 1..100 characters, the email is well-formed and the message has 1..5000 characters; otherwise the error names the first failing field in the order name, email, message |
| `Validator.ValidateAgainstRegex` | server.js:83-93 | the same verdicts stated with the regular expression itself: accepted iff name 1..100, email matched by the regex, message 1..5000; email error iff the name passes and the regex does not match; message error iff both earlier checks pass |
| `Validator.EmailRegexEquivalence` | server.js:87 | the regex matches a string iff it has no whitespace, exactly one `@`, a non-empty part before it and a `.` strictly inside the part after it |
| `Validator.RegexImpliesWellFormed` | server.js:87 | every string the regex matches satisfies the written-out email rule |
| `Validator.WellFormedImpliesRegex` | server.js:87 | every string satisfying the written-out email rule is matched by the regex |
| `Validator.EmailOkIffRegex` | server.js:87-89 | the email check passes iff the field is present and the regex matches it (an empty string never matches) |
| `Validator.Count` | server.js:87 | the count of a character is at most the length, and zero iff the character does not occur |
| `Validator.IndexOf` | server.js:87 | the position of the first occurrence: it holds the character and nothing before it does |
| `Validator.CountConcat` | server.js:87 | counting a character over a concatenation adds the counts of the parts |
| `Validator.RejectedEmailExamples` | server.js:87-89 | "no-at-sign", "a@b", "a @b.com" and "a@b@c.com" are not matched |
| `Validator.NoAtSignRejected` | server.js:87 | "no-at-sign" is not matched: there is no `@` |
| `Validator.NoDotRejected` | server.js:87 | "a@b" is not matched: the domain has no inner `.` |
| `Validator.SpaceRejected` | server.js:87 | "a @b.com" is not matched: it contains a space |
| `Validator.TwoAtSignsRejected` | server.js:87 | "a@b@c.com" is not matched: it has two `@` |
| `Validator.AcceptedEmailExample` | server.js:87 | "a@b.com" is matched |
| `Validator.WellFormedExample` | server.js:87 | "a@b.com" satisfies the written-out rule |
| `Validator.LengthLimitExamples` | server.js:83-93 | a 101-character name gives the name error, a 5001-character message gives the message error, and the submission "A" / "a@b.com" / "hi" is accepted |
| `Validator.CheckOrderExamples` | server.js:80-96 | a missing name wins over a bad email, a bad email wins over an empty message, and a missing message is reported when name and email pass |
| `InquiryStore.NewestFirst` | server.js:140-146 | the result of `ORDER BY created_at DESC` over a table kept in insertion order (the reverse of that order); it has as many rows as the table |
| `InquiryStore.NewestFirstIsOrdered` | server.js:140-147 | over a table in insertion order, the list result holds every row exactly as often as the table (same multiset) and is ordered by created_at descending |
| `InquiryStore.NewestFirstAt` | server.js:145 | position k of the list result is the k-th row counted from the newest |
| `InquiryStore.NewestFirstKeepsRows` | server.js:140-147 | the list result holds the same rows as the table, each as often |
| `InquiryStore.FindRow` | server.js:163-168 | a found position holds a row with that id; no position means no row has that id |
| `InquiryStore.SetStatus` | server.js:163-166 | `UPDATE inquiries SET status = $1 WHERE id = $2`: same number of rows, every column but status unchanged in every row, status replaced in the rows with that id and kept in all others |
| `InquiryStore.NewRow` | server.js:107-110 | the row `INSERT ... RETURNING *` gives back: the drawn id and created_at, the submitted name, email and message, the column defaults for status and is_read, no updated_at |
| `InquiryStore.SetStatusTouchesOneRow` | server.js:163-166 | with unique ids the UPDATE changes only the status of the one matching row, and changes nothing when no row matches |
| `InquiryStore.Store.constructor` | server.js:37-47 | an empty table whose serial id starts at 1, with the given column defaults, and no connection checked out |
| `InquiryStore.Store.Acquire` | server.js:101 | taking a pooled connection raises the held count by one |
| `InquiryStore.Store.Release` | server.js:132 | releasing a connection lowers the held count by one |
| `InquiryStore.Store.Submit` | server.js:99-134 | a rejected submission gets 400 with its field error, sends no mail and leaves rows, id counter and clock unchanged; an accepted one whose INSERT succeeds draws exactly one id, one whose BEGIN or INSERT fails draws at most one; an accepted one appends the new row (fresh id, the submitted name, email and message, the default status) and returns it with 200 iff insert, mail and commit all succeed, otherwise 500 with rows unchanged; a 200 implies the mail went out; the held count is restored on every path |
| `InquiryStore.Store.List` | server.js:137-154 | 200 with every row newest first (same multiset, created_at descending), or 500 when the query fails; rows untouched; the held count is restored |
| `InquiryStore.Store.UpdateStatus` | server.js:157-179 | a failed query or non-integer id gives 500 and an unknown id 404, both with rows unchanged; a known id gets exactly its status replaced by the supplied value, every other row and column unchanged, and that row is returned with 200; the held count is restored on every path |
| `InquiryStore.ListTwice` | server.js:137-154 | two lists with nothing in between give equal answers |
| `InquiryStore.ScenarioSubmissionAccepted` | server.js:80-96 | the submission "A" / "a@b.com" / "hi" passes validation |
| `InquiryStore.SubmitThenResolveScenario` | server.js:99-179 | on an empty table an accepted submission gets 200 with id 1 and the default status; setting its status gets 200 with the new status; the list then holds exactly that updated row |
| `InquiryStore.BadSubmissionRejected` | server.js:87-89 | the submission "A" / "bad" / "hi" fails the email check |
| `InquiryStore.BadEmailScenario` | server.js:87-89 | after one stored inquiry, a submission failing the email check (such as email "bad") gets the 400 email error and the list still holds one row |
| `InquiryStore.CommitFailureAfterMailScenario` | server.js:113-130 | when COMMIT fails after the mail was sent, the answer is 500, the mail went out and no row is stored |

## Left out

- Express wiring: helmet, CORS, the rate limiter, the JSON body-size limit, static files and the catch-all error handler (server.js:13-34, 182-185). These are library configuration.
- Pool configuration and the startup connectivity test (server.js:37-57). These involve timeouts and driver behaviour; only the count of held connections is modelled.
- A failing `pool.connect()`. It happens outside `try`, so no handler answers and nothing is released; the pool's bound of 20 and its waiting are not modelled either.
- A failing `ROLLBACK`. The error would escape the handler.
- The nodemailer transport, its `verify` call and the HTML body of the mail (server.js:60-77, 113-123). These are network I/O; the outcome of the send is the input `mailOk`.
- InquiryStore.Store.Submit: BEGIN and INSERT failures are one input, `insertOk`. Which statement failed does not change the answer, but it decides whether a serial id was drawn. So after such a failure the model promises only that the id counter moved by zero or one, and the clock with it.
- SQL text and the relational engine. The table is an abstract sequence of rows.
- Concurrency between requests, and real timestamps. A request runs to completion before the next one starts.
- The localized error texts of the responses. A response carries the kind of failure instead of the text. The `console.error` logging of the underlying cause (server.js:129, 149, 174) is left out too; it is output only.
- JavaScript typing quirks: a non-string `name` or `message` without `.length`, and a non-string email the regex would first coerce to text. Lengths count characters, not UTF-16 code units.
- A status body field that is absent (SQL NULL). What happens depends on a table definition that is not part of this model. `UpdateStatus` takes the status as a string.
- public/admin.js and public/script.js: DOM rendering, fetch calls and polling.
