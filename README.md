# Quiz server: attempt lifecycle and question bank

A Dafny model of the request handlers of a timed multiple-choice quiz
server (`server.js`). An administrator creates a quiz session that stays open
for 24 hours. A student's client, identified by its network address, fetches
the questions, starts one attempt and submits an answer sheet. The server
scores the sheet and marks the attempt completed. The administrator manages the
question bank and lists the completed attempts of a session.

The three database tables are fields of one object, `Server.QuizServer`:

- `sessions` (quiz_sessions) is a map keyed by the session's uuid.
- `attempts` (quiz_attempts) is a sequence in insertion order.
- `questions` (quiz_questions) is a sequence in id order, with the AUTOINCREMENT
  counter `lastQuestionId`.

Each route handler is a method with a `modifies` clause naming the one or two
fields it writes. The method's `ensures` give the reply and the new table
contents, branch by branch. Pure modules hold the pieces that have no state:

- `Sessions`: the validity comparison and the two session checks.
- `Scoring`: the score as a function, the scoring loop as a method, and lemmas
  on what the count means.
- `QuestionBank`: field validation, lower-casing, and the row operations of add,
  update and delete.
- `Ledger`: the attempt lookups, the table invariant, and the facts that make
  start idempotent and completion terminal.

The object invariant `QuizServer.Valid()` bundles these facts:

- Every session expires strictly after it was created.
- Attempt ids are distinct.
- There is at most one attempt per (session, address).
- An attempt has a completion time, a score and a stored sheet exactly when it
  is completed.
- Every attempt refers to an existing session.
- The question table is in strictly ascending id order.
- Every question id was issued by the counter.
- Every question has all its fields, and its correct option is one of
  `a`, `b`, `c`, `d`.

Every mutating handler also keeps completed attempts exactly as they were
(`Ledger.CompletedKept`), so an attempt goes NoAttempt → InProgress → Completed
and never leaves Completed.

The clock, the fresh uuids and the outcome of certificate generation are
handler parameters. Times are integers in milliseconds. Calls are atomic and
run one after another.

The model follows the code, which leaves out several behaviours one might
expect of such a quiz:

- The code has no autosave endpoint.
- A quiz-page query on an in-progress attempt does not auto-submit it and does
  not compute the remaining time. It returns the question list and the full
  10-minute limit again.
- Start asks for no student name, e-mail or school, and applies no
  identity-verification policy.
- Start replies with the attempt id only, not the start time.
- Submit does not look at the session's expiry or at the time elapsed since
  the start.
- The attempts table has no uniqueness constraint on (session, address).
  Uniqueness holds only because calls run one after another.

## Model

| member | source | states |
|---|---|---|
| Sessions.IsSessionValid | server.js:122-124 | A session is valid strictly before its expiry instant. At the expiry instant and after it, it is no longer valid. |
| Sessions.ExpiryFor | server.js:161-164 | A new session expires exactly 24 hours after creation, strictly later, so it is valid at the creation instant and invalid at its expiry instant. |
| Sessions.CheckForQuiz | server.js:189-199 | The quiz page answers "not found" exactly for a missing or inactive session and "expired" exactly for an active one with `now >= expiresAt`. These are two distinct outcomes, and otherwise it yields the stored row. |
| Sessions.CheckForStart | server.js:243-250 | Start reports every failure of the session check as the one combined "invalid or expired" outcome. |
| Sessions.StartCheckAgreesWithQuizCheck | server.js:243-250 | Start admits a session exactly when the quiz page does, and with the same row. |
| Sessions.FreshSessionWindow | server.js:122-124 | A freshly created session is accepted exactly while `now < createdAt + 24h` and is reported expired, never missing, afterwards. |
| Scoring.Score | server.js:300-305 | The count of correctly answered questions lies between 0 and the number of questions. |
| Scoring.ComputeScore | server.js:300-305 | The `forEach` loop over the questions yields exactly the score function. |
| Scoring.ScoreCountsHits | server.js:300-305 | The score equals the size of the set of positions whose question has `answers[id]` equal to its correct option (an independent reference definition). |
| Scoring.ScoreAppend | server.js:300-305 | The score of a concatenated bank is the sum of the scores of its parts, so no question's contribution depends on another. |
| Scoring.PerfectScore | server.js:300-305 | Full marks if and only if every question is answered correctly. |
| Scoring.ZeroScore | server.js:300-305 | A zero score if and only if no question is answered correctly, and an empty sheet scores zero. |
| Scoring.ScoreIgnoresOtherEntries | server.js:300-305 | Only entries for the bank's own question ids matter. Absent entries contribute nothing, and extra keys change nothing. |
| Scoring.AnswerOneMore | server.js:300-305 | Answering one previously unanswered question raises the score by one if the answer is correct and by nothing otherwise. |
| QuestionBank.Validate | server.js:385-391 | A missing or empty field is refused first. Then a correct answer whose lower-cased form is not a..d is refused. An accepted field set is stored with only the correct answer changed, to its lower-cased form. |
| QuestionBank.Lower | server.js:389 | Lower-casing keeps the length and maps each character to its lower-case form. |
| QuestionBank.LowerIsLabel | server.js:389-391 | The lower-cased string is an option label exactly when the string is one of a, b, c, d, A, B, C, D. |
| QuestionBank.ValidateAcceptsExactly | server.js:385-395 | Validation accepts exactly the complete field sets whose correct answer is a single letter a..d in either case, and stores it in lower case. |
| QuestionBank.ValidateIdempotent | server.js:418-428 | Re-validating a stored field set accepts it unchanged. |
| QuestionBank.AppendKeepsBank | server.js:393-395 | Appending under the next AUTOINCREMENT id keeps the bank ordered and well formed, and the id is new. |
| QuestionBank.Replace | server.js:426-428 | The update statement keeps every id and every other row, and gives the row with that id the new fields. |
| QuestionBank.ReplaceKeepsBank | server.js:426-428 | Updating with validated fields keeps the bank invariant. |
| QuestionBank.Remove | server.js:463 | The delete statement keeps exactly the rows with another id. |
| QuestionBank.RemoveKeepsOrder | server.js:463 | Deleting keeps the remaining rows in id order. |
| QuestionBank.RemoveCount | server.js:463-470 | On the ordered bank a delete removes exactly one row when the id is present and none otherwise, and the id is gone afterwards. |
| QuestionBank.RemoveKeepsBank | server.js:463 | Deleting keeps the bank invariant. |
| QuestionBank.SeedQuestions | server.js:66-118 | The five sample questions get consecutive ids after the counter and form a well-formed, ordered bank. |
| QuestionBank.PublicList | server.js:218-219 | The quiz page's list has one entry per question, in table order, with every field except the correct option. |
| Ledger.FindAttempt | server.js:202-205 | The (session, address) lookup returns the first row of that client, or none exactly when no row belongs to it. |
| Ledger.FindOpenAttempt | server.js:286-292 | Submit's lookup returns a row with this id, session and address that is not completed, or none exactly when no such row exists. |
| Ledger.NewAttempt | server.js:262-264 | The inserted row belongs to the client, is not completed, and has no score, completion time or sheet. |
| Ledger.Complete | server.js:308-310 | Completion keeps the row's id, owner and start time. It sets the completed flag, the score, the stored sheet (exactly the submitted answers) and the completion time (exactly `now`). |
| Ledger.FindAfterAppend | server.js:253-271 | After inserting the client's first row, the lookup finds that row. |
| Ledger.InsertKeepsLedger | server.js:253-271 | Inserting when the lookup found nothing and the id is unused keeps ids distinct and one row per client, and keeps the completed rows. |
| Ledger.FindIsTheOnlyOne | server.js:202-212 | With one row per client, the lookup finds that client's row wherever it is. |
| Ledger.CompleteKeepsLedger | server.js:286-310 | Completing the submittable row keeps the invariant and the completed rows. Afterwards no submittable row remains for the same request, so a second submit fails. |
| Ledger.CompletedKeptTransitive | server.js:280-335 | Keeping completed rows composes over a sequence of calls. |
| Ledger.CompletedFor | server.js:351-360 | The results hold exactly the completed attempts of the session, each with its multiplicity in the table and no other row. |
| Ledger.CompletedForAppend | server.js:351-360 | The results keep the table's row order: filtering a concatenation is the concatenation of the filtered parts. |
| Ledger.CompletedForOne | server.js:354-357 | A single row is in the results exactly when it belongs to the session and is completed. |
| Ledger.ResultsOnlyGrow | server.js:351-360 | A completed attempt listed in a session's results stays listed after any later call. |
| Ledger.NoSessionNoResults | server.js:354-357 | The join gives no rows for a session id that does not exist. |
| Server.QuizServer.constructor | server.js:31-64 | A fresh database has three empty tables and a zero counter, and satisfies the invariant. |
| Server.QuizServer.SeedIfEmpty | server.js:66-118 | An empty bank receives the five sample questions and a non-empty one is left alone. Either way the bank then holds at least one question. |
| Server.QuizServer.CreateSession | server.js:161-180 | A new active session is stored under the fresh id, expiring 24 hours from now, and is valid at creation. A colliding id fails with nothing changed. |
| Server.QuizServer.GetQuiz | server.js:184-235 | Not found (404) for a missing or inactive session, expired (410) for one past its expiry. The stored score and id are returned exactly when the client's attempt is completed. Otherwise the reply is the question list without correct options and the 600000 ms limit. Nothing changes. |
| Server.QuizServer.Start | server.js:238-277 | An invalid session yields 410 with no change. An existing attempt's id is returned with nothing inserted. Otherwise exactly one new open attempt is appended, and a colliding id fails. After a success the lookup finds the returned id. |
| Server.QuizServer.Submit | server.js:280-335 | Only an open attempt with matching id, session and address is accepted, and otherwise 404 with no change. That attempt alone is completed with the score, and the reply carries the score, the question count and the certificate or none. Afterwards the attempt can no longer be submitted. |
| Server.QuizServer.Results | server.js:351-368 | The rows are exactly the session's completed attempts, each with the session's admin email. |
| Server.QuizServer.ListQuestions | server.js:371-378 | The whole bank, in ascending id order. |
| Server.QuizServer.AddQuestion | server.js:381-410 | Invalid fields are refused with no change. Valid ones are appended under the next id with the lower-cased correct option and returned. |
| Server.QuizServer.UpdateQuestion | server.js:413-447 | Validation comes first, then a missing id gives 404 with no change. Otherwise only that row takes the validated fields. |
| Server.QuizServer.DeleteQuestion | server.js:450-475 | Refused when the bank holds one question or none, whatever the id. Then a missing id gives 404. Otherwise exactly that row goes, so the bank never drops below one question. |
| Server.StartTwice | server.js:244-271 | Two starts of one client on one session return the same id when both succeed. Whatever their outcomes, together they insert at most one row. The second fails only if the session has expired by then. |
| Server.SubmitTwice | server.js:286-310 | After a successful submit, a second submit of the same attempt is refused, and the recorded score stays. |

## Left out

- Express wiring is not modelled: CORS, the JSON body parser, the rate limiter, static files, the HTML pages, and starting or exporting the app. It is framework plumbing.
- The certificate download route and the PDF's content and file I/O are not modelled. Certificate generation is a boolean parameter of submit: success gives the file name, failure gives none.
- Database errors and their 500 replies are not modelled. This covers failures of the select, update and delete statements and of reading back an added or updated row. Only the primary-key collision of an insert is modelled, as `InsertFailed`, because the ids come from a parameter.
- Interleaving of concurrent requests is not modelled. Start checks and then inserts in two asynchronous steps, and the table has no uniqueness constraint. The "one attempt per client and session" invariant holds only for calls that run one after another.
- uuid generation, `Date.now()` and SQL `CURRENT_TIMESTAMP` are not modelled. The fresh ids and `now` are parameters, and all times are integers in milliseconds. ISO date strings and SQL timestamp formatting are not modelled.
- Request bodies are not modelled as JSON values:
  - A field that is absent, null or any other falsy value is modelled as the empty string.
  - Non-string field values are not modelled.
  - The crash when submit receives no `answers` is not modelled.
  - Answer sheets map numeric question ids to strings. Non-string answer values, which never equal a correct option, are not modelled.
- Question ids in update and delete URLs are naturals. A non-numeric id, which matches no row, is not modelled.
- QuestionBank.Lower: lower-cases ASCII letters only, where JavaScript's `toLowerCase` uses Unicode case mapping. No other character lower-cases to a single a..d, so acceptance and the stored value agree for every input. Only the unused lower-cased form of other characters differs.
- Server.QuizServer.GetQuiz and Server.QuizServer.Results: the order of rows from a `SELECT` without `ORDER BY` is taken to be table order. With at most one attempt per client, the attempt lookup does not depend on order.
- The quiz link's host and port are the constructor parameter `origin`.
- A database file reopened with existing rows is not modelled. The constructor models a fresh database; `SeedIfEmpty` models the start-up seeding for any table contents.
- toggle-oauth.js is not part of this model. It is a command-line script that rewrites configuration files.
