# resume_builder in Dafny

A model of the logic of resume_builder, a browser résumé editor with a small
REST server, and proofs about it.

- **Header extraction.** `extractPersonalInfo` reads the header section of
  the résumé. It takes the name, email, phone, city and country from the
  header's text with four regular expressions, `trim` and `split`.
  - Every regular expression is an explicit scanner that follows
    ECMA-262's leftmost-first matching (section 22.2 of ECMA-262).
  - The phone expression is run by a small backtracking matcher. It lists
    the end positions of a match in the order ECMA-262 tries them.
  - `trim` and `\s` use the WhiteSpace and LineTerminator code points
    (sections 12.2 and 12.3 of ECMA-262).
- **Editor.**
  - Section controls move, delete and add sections in the `#resume`
    container. The container is a class holding the sequence of section
    identities.
  - The submit gate decides whether a draft is posted; the auto-save gate
    decides whether it is cached under the `resumeDraft` key. Both are
    classes over the page state and local storage.
- **Server.** The `resumes` table is an in-memory map from id to row, with
  the AUTO_INCREMENT counter and an abstract clock. There is one method for
  each of the five handlers on `/api/resumes`. Each returns the status code
  and the JSON body. Whether the store reports an error is an input of each
  handler.

Modules: `Wrappers` (Option), `JsString` (`trim`, `split`, `join`),
`HeaderPatterns` (the four expressions), `Extraction` (the draft),
`Sections`, `ClientGates`, `ResumeServer`, and `RoundTrip` (editor and
server together).

Behaviour of the code the model keeps:
- The city is the trimmed location cut at its first comma and is not
  trimmed again. The country is only the second comma-separated piece, not
  everything after the first comma.
- A PUT of an id that does not exist answers 200.
- `submitResume` does not restore the button: see Findings.
- `updated_at` does not strictly increase. `CURRENT_TIMESTAMP` has
  one-second resolution, and `ON UPDATE` fires only when a value changes:
  `updated_at` becomes the current time when a value changes, and
  otherwise stays.
- Rows with equal `created_at` may be listed in either order. Inserting A
  then B lists [B, A] only when time passed between them
  (`RoundTrip.NewestListedFirst`).

## Model

| member | source | states |
|---|---|---|
| JsString.Trim | frontend/script.js:74-79 | the result is the part of the text between the leading and trailing white space; only white space is dropped, and the result neither starts nor ends with white space |
| JsString.TrimEmpty | frontend/script.js:74 | trimming yields "" exactly when the text is all white space |
| JsString.TrimKeepsDigits | frontend/script.js:76 | trimming keeps every digit and adds no character |
| JsString.Before | frontend/script.js:77 | the first piece of `split(sep)` is a prefix without `sep`, followed by `sep` when shorter than the text |
| JsString.Split | frontend/script.js:77-79 | the first piece is the text before the first separator; there is one piece exactly when the separator does not occur; no piece contains the separator |
| JsString.JoinSplit | frontend/script.js:77-79 | joining the pieces of a split with the separator gives back the text |
| JsString.SplitJoin | frontend/script.js:77-79 | splitting a join of separator-free pieces gives back the pieces |
| HeaderPatterns.NameEnd | frontend/script.js:68 | the index where the run of characters other than line feed and bar ends, and every character before it belongs to the run |
| HeaderPatterns.MatchName | frontend/script.js:68 | `^([^\n\|]+)`: no match exactly when the text is empty or starts with a line feed or a bar; otherwise the maximal non-empty leading run without them |
| HeaderPatterns.EmailEndAtSound | frontend/script.js:69 | an end the scanner reports at a start gives an email-shaped substring that cannot be extended |
| HeaderPatterns.EmailEndAtComplete | frontend/script.js:69 | every email-shaped substring is found by the scanner at its start and ends no later than the reported end |
| HeaderPatterns.FindEmail | frontend/script.js:69 | the search returns the leftmost start where the scanner succeeds, and none when it succeeds nowhere |
| HeaderPatterns.EmailMatchIsLeftmostLongest | frontend/script.js:69 | no match exactly when no substring is email-shaped; otherwise the match is email-shaped, nothing email-shaped starts earlier, and it is the longest at its start |
| HeaderPatterns.EmailShapeFacts | frontend/script.js:69 | an email-shaped string has exactly one `@`, a dot after it and no white space |
| HeaderPatterns.AfterLastBar | frontend/script.js:71 | the position just after the last bar, or 0 when there is none; no bar follows it |
| HeaderPatterns.MatchLocation | frontend/script.js:71 | `([^\|]+)$`: no match exactly when the text is empty or ends in a bar; otherwise the non-empty bar-free suffix after the last bar, or the whole text when there is no bar |
| HeaderPatterns.Ends | frontend/script.js:70 | every end the backtracking matcher reports for a pattern lies between the start and the end of the text |
| HeaderPatterns.FindMatch | frontend/script.js:70 | the phone search returns the leftmost start with a match, and none when there is none |
| HeaderPatterns.EndsShape | frontend/script.js:70 | every match of a pattern holds at least the pattern's minimum number of digits and, when the pattern ends in a digit class, ends in a digit |
| HeaderPatterns.PhonePatternCounts | frontend/script.js:70 | the phone pattern needs at least ten digits (3+3+4) and ends with a digit |
| HeaderPatterns.PhoneMatchShape | frontend/script.js:70 | a phone match is a non-empty substring of the text with at least ten digits whose last character is a digit |
| Extraction.ExtractPersonalInfo | frontend/script.js:61-84 | no draft exactly when there is no header section; the draft carries the markup, the template and the timestamp it is given |
| Extraction.NameIsTrimmedLeadingRun | frontend/script.js:68-74 | the name has no line feed or bar; it is "Unknown" when the text is empty or starts with a line feed or bar, and otherwise the trimmed maximal leading run |
| Extraction.EmailIsFirstMatch | frontend/script.js:69-75 | the email is "" exactly when no substring is email-shaped; otherwise it is the leftmost match, which is email-shaped and has no white space |
| Extraction.PhoneShape | frontend/script.js:70-76 | the phone is "" exactly when the pattern does not match; otherwise it is a substring of the text with at least ten digits that ends in a digit |
| Extraction.LocationFields | frontend/script.js:71-79 | city and country are "" when the text is empty or ends in a bar; neither holds a comma; the city is the trimmed location cut before its first comma; the country is "" without a comma in the location, and otherwise the trimmed piece between its first and second commas |
| Extraction.CityNotRetrimmed | frontend/script.js:77 | for the header "J\|A ,T" the city is "A " with its trailing space |
| Sections.IndexOf | frontend/script.js:17 | the position of a section in the container is its first occurrence |
| Sections.MoveUpSwaps | frontend/script.js:16-20 | moving up swaps the section with its previous sibling, does nothing to the first section, keeps every other position, and permutes the sections |
| Sections.MoveDownSwaps | frontend/script.js:22-26 | moving down swaps the section with its next sibling, does nothing to the last section, keeps every other position, and permutes the sections |
| Sections.MoveDownUndoesMoveUp | frontend/script.js:16-26 | for distinct sections, moving a section that is not first up and then down restores the order |
| Sections.MoveUpUndoesMoveDown | frontend/script.js:16-26 | for distinct sections, moving a section that is not last down and then up restores the order |
| Sections.RemovedExactly | frontend/script.js:30 | removing takes out exactly that section: one fewer, the section gone, the rest distinct and in their old order |
| Sections.Resume.MoveUp | frontend/script.js:16-20 | `moveUp` on the container changes it as MovedUp does and keeps sections distinct |
| Sections.Resume.MoveDown | frontend/script.js:22-26 | `moveDown` on the container changes it as MovedDown does and keeps sections distinct |
| Sections.Resume.DeleteSection | frontend/script.js:28-32 | the section is removed when the deletion is confirmed, and nothing changes otherwise |
| Sections.Resume.AddSection | frontend/script.js:34-48 | a section with a new identity is appended at the end |
| ClientGates.NameEmptyIffBlankRun | frontend/script.js:68-74 | the name is "" exactly when the header starts with a run free of line feeds and bars that is all white space |
| ClientGates.SubmitGateOnHeader | frontend/script.js:99-104 | the submit gate passes exactly when there is a header, its leading run is not blank, and some part of it is email-shaped |
| ClientGates.AutoSaveGateOnHeader | frontend/script.js:148-152 | the auto-save gate passes exactly when there is a header whose leading run is not blank |
| ClientGates.OutcomeMessage | frontend/script.js:122-130 | success is shown exactly for an ok response; a failed response shows the server's error when it has one |
| ClientGates.Page.ShowMessage | frontend/script.js:87-89 | the message and its kind are set and the button is untouched |
| ClientGates.Page.SubmitResumeAsWritten | frontend/script.js:97-137 | a request goes out exactly when the gate passes; the gate message, or the outcome message, is shown; the call ends in an error, and after a request the button stays busy and disabled |
| ClientGates.Page.SubmitResume | frontend/script.js:97-137 | the same request and messages, and the button gets its label back and is enabled on every path |
| ClientGates.DraftCache.StartAutoSave | frontend/script.js:141-148 | exactly one timer is pending and storage is unchanged |
| ClientGates.DraftCache.TimerFires | frontend/script.js:148-152 | storage changes only at the key "resumeDraft", which is overwritten with the draft when it has a name and the write is not refused; otherwise storage is unchanged, and a refused write ends the callback in an error |
| ResumeServer.Inserted | backend/server.js:66-81 | the new row takes an id no row uses, holds the seven submitted fields, is stamped now on both timestamps, and no other row changes |
| ResumeServer.Updated | backend/server.js:123-136 | the matching row takes all seven fields as given, keeps its id and `created_at`, and its `updated_at` becomes now or the row is unchanged; other rows and a missing id change nothing |
| ResumeServer.Deleted | backend/server.js:143-151 | the row with that id is gone and every other row is unchanged |
| ResumeServer.DeleteIdempotent | backend/server.js:143-151 | deleting twice is deleting once |
| ResumeServer.UpdateWithSameFields | backend/server.js:42-43 | an update with the row's current fields changes nothing, not even `updated_at` |
| ResumeServer.IdsNotReused | backend/server.js:34 | after a row is inserted and deleted, the next insert gets a different id |
| ResumeServer.InsertionPoint | backend/server.js:87 | the insertion index: every entry before it is newer, and the entry at it is not |
| ResumeServer.InsertByNewestSorted | backend/server.js:87 | inserting a summary keeps the list newest first |
| ResumeServer.InsertByNewestMembers | backend/server.js:87 | inserting a summary adds exactly that summary |
| ResumeServer.InsertByNewestDistinct | backend/server.js:87 | inserting a summary with a new id keeps ids distinct |
| ResumeServer.ResumeStore.constructor | backend/server.js:32-45 | the table starts empty with the counter at 1 |
| ResumeServer.ResumeStore.Tick | backend/server.js:42-43 | time passes and the rows stay |
| ResumeServer.ResumeStore.PostResume | backend/server.js:58-83 | a missing or empty name or email gives 400 and a store error gives 500, both with the table unchanged; otherwise 200 with the new id, and the table changes as Inserted says |
| ResumeServer.ResumeStore.GetResumes | backend/server.js:86-97 | a store error gives 500; otherwise 200 with one summary per row, without `resume_content`, newest first |
| ResumeServer.ResumeStore.GetResume | backend/server.js:100-116 | a store error gives 500, an id with no row gives 404, and otherwise 200 with the full row |
| ResumeServer.ResumeStore.PutResume | backend/server.js:119-138 | a store error gives 500 with the table unchanged; otherwise 200 whether or not a row matched, and the table changes as Updated says |
| ResumeServer.ResumeStore.DeleteResume | backend/server.js:141-153 | a store error gives 500 with the table unchanged; otherwise 200 whether or not a row existed, and the table changes as Deleted says |
| RoundTrip.GateAgreesWithServer | frontend/script.js:99-104 | for every draft, the editor's gate passes exactly when the posted body passes the server's check that name and email are non-empty (backend/server.js:62) |
| RoundTrip.SubmitThenFetch | backend/server.js:58-116 | a submitted draft is stored as row 1 and read back with the submitted fields |
| RoundTrip.UpdateThenFetch | backend/server.js:119-138 | a PUT stores any fields, even without a name, keeps `created_at`, and moves `updated_at` only when a value changed |
| RoundTrip.MissingIdStillSucceeds | backend/server.js:119-153 | PUT and DELETE of an id with no row answer 200, and GET answers 404 |
| RoundTrip.DeleteTwice | backend/server.js:141-153 | deleting a row twice answers 200 both times, and the row is gone |
| RoundTrip.NewestListedFirst | backend/server.js:86-97 | of two resumes inserted at different times, the later is listed first and both are listed |
| RoundTrip.ButtonAfterSubmitAsWritten | frontend/script.js:107-135 | as written, every submission ends in an error; after one that passes the gate the button is busy and disabled, and after one that does not it is as before |
| RoundTrip.ButtonAfterSubmit | frontend/script.js:107-135 | with the label saved before `try`, the button is restored and enabled |

## Left out

- Express, CORS, body-parser, static serving, the MySQL connection and `app.listen`: wiring with no logic of its own.
- `fetch`, `response.json()`, async/await and the database callbacks: each handler is one transaction, and the transport's outcome is an input (`Transport`). Concurrency is left to MySQL and is not modelled.
- JSON serialisation: the draft is stored in local storage and posted as a value, not as JSON text. A request field is either a string or absent; numbers, booleans and objects in a body are not modelled.
- mysql2 bind parameters: a `null` field is stored as NULL, and the model treats an `undefined` field the same way. mysql2's `execute` rejects an `undefined` bind parameter with a TypeError; that error path is not modelled.
- MySQL internals: strict-mode NOT NULL checks on UPDATE, the VARCHAR length limits, and the string-to-number conversion of the `:id` parameter (the id is an integer input).
- An AUTO_INCREMENT value used up by a failed INSERT is not modelled: a failed POST leaves the counter unchanged.
- Wall-clock time: `CURRENT_TIMESTAMP` is the abstract clock, advanced by `Tick`. `new Date().toISOString()` is a string input.
- Timers and UI:
  - the five-second delays of auto-save and of hiding messages;
  - `togglePreview`, `downloadPDF`, and switching the template class name;
  - the `confirm()` dialog, which is a boolean input;
  - console logging;
  - the page-load check that only logs whether a draft exists.
- Sections.Resume: only section elements are children of `#resume`. A button stands for its section, and a section's content is not modelled.
- Characters are Unicode scalar values. JavaScript strings are UTF-16, so a character outside the Basic Multilingual Plane counts as one character here, not two.
- HeaderPatterns.Ends: the contract states only that every end lies within the text. The order in which ECMA-262 tries the alternatives lives in the definition, and the proved properties of the match are in HeaderPatterns.EndsShape and HeaderPatterns.PhoneMatchShape.
- HeaderPatterns.PhoneMatchShape: states the shape of the phone match, not which choice the backtracking makes for the optional country-code group. The matcher does model that choice.
- ResumeServer.ResumeStore.GetResumes: ties in `created_at` may come in any order, as in MySQL. The listing is any ordering the ORDER BY allows, not MySQL's particular one.

## Findings

| source | as written | input that shows it | evidently intended | confidence | as-written member | corrected member |
|---|---|---|---|---|---|---|
| frontend/script.js:108-135 | `originalText` is declared with `const` inside the `try` block, and the `finally` block reads it, where it is not in scope. Every call to `submitResume` ends in a ReferenceError before the button is touched. | any header with a name and an email, e.g. "Jane\|jane@x.com": the button stays "Submitting..." and disabled | the button gets its original label back and is enabled again on every path | not executed | ClientGates.Page.SubmitResumeAsWritten | ClientGates.Page.SubmitResume |
