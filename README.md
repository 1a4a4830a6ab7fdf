# Intelligent syllabus tracker, modelled in Dafny

A student registers and logs in, then keeps a personal list of syllabus
topics: subject, topic name, importance (High, Medium or Low), status
(Pending, In Progress or Completed) and the moment the topic was last studied.
The client's dashboard shows the share of completed topics and the count per
status. It sorts topics by importance and reminds the student to revise a
completed topic once more than seven days have passed since it was last
studied.

This project models four pieces of that system and proves what they promise:

- `auth.dfy` (module `Auth`) covers backend/routes/auth.js.
  - The password policy, and a proof that the regular expression
    `^(?=.*\d).{8,}$` means "at least 8 characters, a digit, no line
    terminator".
  - `/register` and `/login` as pure step functions over the user table.
    Their early-return order is kept: missing field, weak password,
    duplicate, insert; and missing field, bad credentials, missing secret,
    token.
  - The class `UserStore`, whose `Register` method appends to the table in
    place. `Login` only reads the table.
- `syllabus.dfy` (module `Syllabus`) covers backend/routes/syllabus.js.
  - The owner-scoped topic table as the class `TopicCollection`. Its `Add`,
    `Update` and `Delete` methods change the table in place; `All` reads it.
  - Each method is tied to a step function (`AddStep`, `ListReply`,
    `UpdateStep`, `DeleteStep`).
  - Lemmas prove the isolation between owners: another owner's rows never
    change, and a foreign row answers exactly like a missing one.
- `calculations.dfy` (module `Calculations`) covers
  frontend/src/hooks/useCalculations.js.
  - The rounded completion percentage and the status counts.
  - The stable sort by importance, proved to be ordered, a permutation, and
    to keep equal-rank topics in input order.
- `revision.dfy` (module `Revision`) covers
  frontend/src/utils/revisionLogic.js.
  - The day count, the seven-day rule, the filter of due completed topics and
    the three-band reminder.
  - A reader of the reminder, `ShownDays`, proves that the number printed is
    the day count.

Supporting modules:

- `wrappers.dfy` holds `Option`.
- `seqs.dfy` holds a generic `Filter` (JavaScript's `filter`) with its
  multiset, order and concatenation lemmas.
- `decimal.dfy` holds decimal rendering of a number and its inverse.
- `topics.dfy` holds the topic record.
- `arith.dfy` holds one multiplication lemma.

Modelling conventions:

- Time is integer milliseconds. The current time, which the source reads
  with `Date.now()` or `new Date()`, is the parameter `now`.
- A request-body field the client left out is `None`.
  - JavaScript's truthiness test on a field is `Given`: absent and `""` are
    both falsy.
- bcrypt's `hash` and `compare` and jsonwebtoken's `sign` are
  function-valued parameters, left uninterpreted. So are the salt and the
  outcome of the store's `save` (`Saved` or `SaveError(code)`).
- Store-generated ids (`_id`) come from a counter, `nextId`, in each class.
- The caller of the topic handlers, `req.user`, is a trusted parameter.
  The authentication middleware that sets it is not part of this model.

Where the written specification of the system and the code differ, the model
follows the code:

- The code stamps `lastStudied` with the current time on every update,
  whatever the new status is (backend/routes/syllabus.js:43). It does not do
  this only on a study or complete action.
- A new topic's initial `status` and `lastStudied` come from the schema
  (models/Syllabus), which is not part of this model. They are a `Defaults`
  parameter, so "a new topic is Pending" is not claimed.

## Model

| member | source | states |
|---|---|---|
| Auth.PasswordPolicy | backend/routes/auth.js:8-11 | The regex test holds iff the password has at least 8 characters, contains a digit 0-9, and has no line terminator (`.` excludes \n, \r, U+2028, U+2029). |
| Auth.FindExisting | backend/routes/auth.js:28-30 | `findOne({$or: [{email}, {username}]})` finds nothing iff no stored user has that email or that username; what it finds is a stored user with one of them. |
| Auth.FindByEmail | backend/routes/auth.js:68 | `findOne({email})` finds nothing iff no stored user has that email; what it finds is a stored user with that email. |
| Auth.RegisterStep | backend/routes/auth.js:14-57 | The status is 201, 400 or 500. A 201 requires all three fields, a password meeting the policy and no clash on email or username. It then returns the new id and the message, and appends exactly one user whose password is `hash(password, salt)`. Conversely, such a request with a successful save gets 201, and one whose save fails with a code other than 11000 gets 500 "Server error" (auth.js:55). Any other outcome is an error reply and leaves the table unchanged. |
| Auth.RegisterMissingField | backend/routes/auth.js:18-20 | An absent or empty field gives 400 "Missing required fields" and an unchanged table, whatever the password or the table. |
| Auth.RegisterWeakPassword | backend/routes/auth.js:22-26 | With all fields given, a password outside the policy gives 400 with the policy message, before the table is consulted, and the table is unchanged. |
| Auth.RegisterDuplicate | backend/routes/auth.js:28-34 | A clash on the email or on the username, or the store's duplicate-key error 11000 (auth.js:52-53), gives the same 400 "User already exists", with the table unchanged. |
| Auth.RegisterKeepsIdentitiesUnique | backend/routes/auth.js:28-45 | With a fresh id, registration keeps ids, emails and usernames unique across the table. |
| Auth.SecondRegistrationFails | backend/routes/auth.js:28-34 | After a successful registration, a second one with the same email or the same username does not succeed. |
| Auth.LoginReply | backend/routes/auth.js:60-101 | The status is 200, 400 or 500. An absent or empty field gives 400 "Missing required fields". Given fields, a known email and a password that verifies give 200 when a secret is set and 500 "Server configuration error" when it is not. The reply is "Invalid credentials" iff both fields are given and the email is unknown or the password does not verify. Any non-400 reply implies the credentials verified. A 500 is exactly the configuration error. A 200 carries a token signed over the user's id alone for 604800 seconds (7 days), and the user's id, username and email. |
| Auth.UnknownEmailLooksLikeWrongPassword | backend/routes/auth.js:68-76 | An unknown email and a wrong password give the identical reply. |
| Auth.WrongCredentialsIgnoreSecret | backend/routes/auth.js:68-81 | A 400 login reply does not depend on whether a signing secret is configured. |
| Auth.RegisterThenLogin | backend/routes/auth.js:36-97 | Right after a successful registration, logging in with the same email and password succeeds, when `compare` accepts the hash and a secret is set. The token is signed over the new id, and the reply shows the new user. |
| Auth.UserStore.Register | backend/routes/auth.js:14-57 | Updates the table in place exactly as `RegisterStep` says. It keeps every id below the id counter and keeps ids, emails and usernames unique. |
| Auth.UserStore.Login | backend/routes/auth.js:60-101 | Returns `LoginReply` of the current table and may change nothing (no `modifies`). |
| Syllabus.FindOwned | backend/routes/syllabus.js:41-42 | The lookup by `(id, caller)` finds the first row with both that id and that owner, or nothing iff no row has both. |
| Syllabus.AddStep | backend/routes/syllabus.js:7-24 | Add replies 201 with a record owned by the caller under the new id, and the table becomes the old table plus that one record. |
| Syllabus.ListReply | backend/routes/syllabus.js:27-35 | List replies 200 with records that are all stored and all owned by the caller. |
| Syllabus.UpdateStep | backend/routes/syllabus.js:38-56 | Update replies 404 "Topic not found" iff no row matches both the id and the caller; then the table is unchanged. Otherwise the matched row gets the body's status and `lastStudied = now`, every other field and row is unchanged, and the updated row is returned. |
| Syllabus.DeleteStep | backend/routes/syllabus.js:59-75 | Delete replies 404 iff no row matches both the id and the caller; then the table is unchanged. Otherwise exactly the matched row is removed and the reply is "Topic deleted successfully". |
| Syllabus.TopicCollection.Add | backend/routes/syllabus.js:7-24 | Updates the table in place exactly as `AddStep` says, keeping ids unique and below the counter. |
| Syllabus.TopicCollection.All | backend/routes/syllabus.js:27-35 | Returns `ListReply` of the current table and changes nothing. |
| Syllabus.TopicCollection.Update | backend/routes/syllabus.js:38-56 | Updates the table in place exactly as `UpdateStep` says, keeping ids unique. |
| Syllabus.TopicCollection.Delete | backend/routes/syllabus.js:59-75 | Updates the table in place exactly as `DeleteStep` says. After a successful delete, no row has that id. |
| Syllabus.ListIsExactlyMine | backend/routes/syllabus.js:29-30 | The list holds each of the caller's records as often as the table does, and no record of any other owner. |
| Syllabus.AddIgnoresBodyUserId | backend/routes/syllabus.js:9-16 | A `userId` in the body changes nothing: the record is owned by the caller. |
| Syllabus.AddIsolation | backend/routes/syllabus.js:11-19 | Add appends the new record to the caller's rows and leaves every other owner's rows as they were. |
| Syllabus.UpdateIsolation | backend/routes/syllabus.js:41-45 | Update leaves every other owner's rows as they were. |
| Syllabus.DeleteIsolation | backend/routes/syllabus.js:61-64 | Delete leaves every other owner's rows as they were. |
| Syllabus.DeleteRemovesTheRow | backend/routes/syllabus.js:61-70 | With unique ids, delete keeps ids unique, and after a successful delete no row with that id remains. |
| Syllabus.FindOwnedSeesOnlyMine | backend/routes/syllabus.js:41-42 | The row found for `(id, caller)` is the first row with that id among the caller's own rows. |
| Syllabus.RepliesDependOnlyOnCallersRows | backend/routes/syllabus.js:12-70 | Two tables that agree on the caller's rows give the caller identical replies to add, list, update and delete. |
| Syllabus.ForeignRowIsInvisible | backend/routes/syllabus.js:41-49 | Removing another owner's row changes none of the caller's list, update or delete replies, so a foreign id answers like a missing one. |
| Syllabus.AddThenList | backend/routes/syllabus.js:11-30 | A record just added with a fresh id appears exactly once in the caller's list, at the end, with the submitted subject, topic name and importance. |
| Calculations.CountStatus | frontend/src/hooks/useCalculations.js:8-10 | Counting topics of one status gives at most the list length. |
| Calculations.CountStatusAdditive | frontend/src/hooks/useCalculations.js:20-25 | Counts add over concatenation, and a single topic counts 1 exactly when its status matches. |
| Calculations.RoundedPercent | frontend/src/hooks/useCalculations.js:12-13 | The result is the integer nearest to 100·completed/total, halves rounded up, and is at most 100. |
| Calculations.CalculateProgress | frontend/src/hooks/useCalculations.js:5-14 | An absent or empty list gives 0. Otherwise the result is 100·completed/n rounded half up, always within 0..100. |
| Calculations.ProgressExtremes | frontend/src/hooks/useCalculations.js:8-13 | All topics completed gives 100; none completed gives 0. |
| Calculations.ProgressThresholds | frontend/src/hooks/useCalculations.js:12-13 | The result is 100 iff at least 99.5% of the topics are completed, and 0 iff fewer than 0.5% are. |
| Calculations.StatusesPartition | frontend/src/hooks/useCalculations.js:22-24 | The three status counts plus the count of other statuses equal the list length. |
| Calculations.GetStatusCounts | frontend/src/hooks/useCalculations.js:17-26 | An absent list gives all zeros. Otherwise the total is the list length, each of completed, pending and inProgress is the number of topics with that status (`CountStatus`, characterised by `CountStatusAdditive`), and their sum is at most the total. |
| Calculations.CountsAddUp | frontend/src/hooks/useCalculations.js:20-25 | When every status is one of the three, the three counts add up to the total. |
| Calculations.Rank | frontend/src/hooks/useCalculations.js:30 | The rank table gives High 1, Medium 2, Low 3, and 0 exactly for any other value. |
| Calculations.SortByImportance | frontend/src/hooks/useCalculations.js:29-35 | The sorted list is a permutation of the input, as a multiset. |
| Calculations.SortIsStablePartition | frontend/src/hooks/useCalculations.js:32-34 | The sorted list is the High topics, then the Medium ones, then the Low ones, each group in input order. |
| Calculations.SortIsOrdered | frontend/src/hooks/useCalculations.js:32-34 | Ranks never decrease along the sorted list. |
| Calculations.SortIsStable | frontend/src/hooks/useCalculations.js:32-34 | The topics of each rank appear in the same order before and after sorting. |
| Revision.Distance | frontend/src/utils/revisionLogic.js:11 | `Math.abs(a - b)`: a non-negative value equal to `a - b` or `b - a` and at least both. |
| Revision.DaysCeil | frontend/src/utils/revisionLogic.js:12 | The fewest whole days whose length covers the given milliseconds. |
| Revision.DaysSinceLastStudy | frontend/src/utils/revisionLogic.js:25-35 | `null` iff no date is given. Otherwise the fewest whole days covering the distance between `now` and that date, in either direction. |
| Revision.ZeroDaysIffSameMoment | frontend/src/utils/revisionLogic.js:31-34 | The day count is 0 exactly when the date equals `now`. |
| Revision.CeilAbove | frontend/src/utils/revisionLogic.js:12-14 | More than k rounded-up days holds iff the distance exceeds k days in milliseconds. |
| Revision.NeedsRevision | frontend/src/utils/revisionLogic.js:4-15 | False for an absent date. Otherwise true iff the date lies more than 7·86400000 ms from `now`. |
| Revision.SevenDayBoundary | frontend/src/utils/revisionLogic.js:12-14 | Exactly seven days ago is not due; seven days and one millisecond ago is. |
| Revision.NeedsRevisionIsSymmetric | frontend/src/utils/revisionLogic.js:11 | A date d ms in the past and one d ms in the future are judged alike. |
| Revision.StaysDue | frontend/src/utils/revisionLogic.js:7-14 | A past date that is due stays due as `now` advances. |
| Revision.TopicsNeedingRevision | frontend/src/utils/revisionLogic.js:18-22 | Every listed topic is Completed and needs revision. |
| Revision.TopicsNeedingRevisionExact | frontend/src/utils/revisionLogic.js:18-22 | The list keeps every due Completed topic as often as the input holds it, no other topic, and the input order. |
| Revision.GetRevisionMessage | frontend/src/utils/revisionLogic.js:38-50 | The message is empty iff there is no date or the date is `now`. Otherwise its icon is the warning sign iff the topic needs revision, the alarm clock iff the distance is over 5 and at most 7 days, and the check mark iff it is at most 5 days. The warning-band message ends with " days ago - Needs revision!", the alarm-band message ends with " days ago - Review soon", and the check-mark message ends with " days ago". |
| Revision.ReminderShape | frontend/src/utils/revisionLogic.js:44-49 | Every reminder line starts with its icon and ends with " days ago" followed by its band's suffix. |
| Revision.ReadReminder | frontend/src/utils/revisionLogic.js:44-49 | Reading the number after " Last studied " in any reminder line gives back the day count written into it. |
| Revision.MessageShowsDays | frontend/src/utils/revisionLogic.js:38-49 | Every non-empty message shows the day count that `daysSinceLastStudy` gives. |
| Revision.ListedIffWarned | frontend/src/utils/revisionLogic.js:18-22 | A Completed topic is listed for revision iff its reminder carries the warning sign (with lines 38-44). |

## Left out

- Registration's 500 "Server error" (backend/routes/auth.js:55) is modelled
  for a failed save: the `SaveError(code)` outcome with a code other than
  11000. What is not modelled is any other call that throws:
  - a failing `User.findOne` (backend/routes/auth.js:28) or bcrypt call
    (auth.js:36-37) in registration;
  - the login `catch` (auth.js:98-99);
  - the `catch` blocks of the topic handlers (backend/routes/syllabus.js:20-23,
    31-34, 52-55, 71-74).
- bcrypt (salt generation, hashing, constant-time compare) and jsonwebtoken
  are foreign libraries. They are uninterpreted function parameters; the
  token's signature, its checking and its expiry arithmetic are not
  modelled. The authentication middleware that turns a token into
  `req.user` is not part of this model.
- The register check-then-insert race, and concurrency generally, are not
  modelled. Every handler is atomic, and the store's unique-index error
  appears only as the `SaveError(11000)` outcome.
- Request bodies whose fields are not strings (numbers, objects) are not
  modelled. Truthiness is given only for absent and empty strings.
- The models/User and models/Syllabus schemas are not part of this model:
  - their defaults (initial `status` and `lastStudied` are a parameter);
  - enum validation of `status` and `importance`;
  - unique indexes;
  - id generation (a counter);
  - the cast error of a malformed id.
- Syllabus.UpdateStep: a request without `status` is not modelled
  separately, because the status is always passed as a string.
- Calculations.CalculateProgress: works in exact integer arithmetic and
  does not model the IEEE-754 evaluation of `(c / n) * 100`. That evaluation
  can land just below a half and round down. For 23 of 40 completed,
  `(23 / 40) * 100` is 57.49999999999999 in doubles, so the source shows 57
  where the model gives 58; 29 of 200 shows 14 against the model's 15.
- Calculations.SortByImportance: requires every importance to be High,
  Medium or Low. For any other value the source's comparator returns NaN and
  the order is engine-defined, which is not modelled. The function works on
  values, so the caller's list is never changed, as the source's spread copy
  ensures.
- Revision.DaysSinceLastStudy: does not model date-string parsing or the
  invalid-date NaN, for which the source gives a false `needsRevision` and an
  empty message.
- Auth.PasswordPolicy: counts characters, but the source's regular
  expression has no `u` flag and counts UTF-16 code units. A password of four
  characters outside the Basic Multilingual Plane plus one digit is 9 code
  units and passes the source, but it is 5 characters and fails the model.
- Strings are sequences of characters, so the warning sign's variation
  selector is a separate character. UTF-16 code units and surrogates are not
  modelled.
- The React pages and components, the axios client and backend/server.js
  are presentation and wiring, and are not part of this model.
