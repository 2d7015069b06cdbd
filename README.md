# Activity signup: string helpers and the signup rule

This project models two parts of a small extracurricular-activity signup
service and proves properties of them in Dafny.

1. **The browser script's string helpers** (`src/static/app.js`):
   - `escapeHtml` is five global single-character replacements, `&` first.
     It is modelled as written (module `HtmlEscape`, `EscapeHtml`). The model
     proves that the chain equals a one-pass per-character substitution, and
     that its output never holds `<`, `>`, `"` or `'`. It also proves that
     every `&` in the output opens one of `&amp;`, `&lt;`, `&gt;`, `&quot;`,
     `&#039;`. A decoder (`Unescape`) undoes the escape exactly, and the
     predicate `IsEscaped` is shown to describe exactly the strings the helper
     can produce.
   - `getInitials` trims, splits on white-space runs, keeps one or two
     characters and upper-cases them (module `Initials`, `GetInitials`). It is
     shown equal to a reference that reads only the words of the name.
   - The "spots left" figure `max_participants - participants.length`
     (`Activities.SpotsLeft`). It goes negative when an activity is over
     capacity, which signup never prevents.
2. **The signup rule over the in-memory catalog**, as the endpoint's tests
   pin it down (module `Activities`). The catalog maps an activity name to a
   record `{description, schedule, max_participants, participants}`.
   `POST /activities/{name}/signup?email=` has three outcomes:
   - an unknown activity is refused with 404;
   - an email already on the list is refused with 400;
   - otherwise the email is appended to that activity's participants.

   Every entry has the four fields because it is a value of the `Activity`
   datatype. Signup keeps the description, schedule and max_participants of
   the entry it extends. The rule is the function `SignupOutcome`. The
   server's shared dictionary is the class `Catalog`. Its `Signup` method
   updates the class's `map` field in place and is proved equal to
   `SignupOutcome`.

The server module `src/app.py` is not part of this model. Its behaviour is
taken from `tests/test_app.py`. The catalog each test starts from is
described by the predicate `InitialCatalog`, which holds only what the tests'
assertions force. It does not invent descriptions, schedules or other
activities. Each test becomes a lemma over any catalog satisfying that
predicate.

## Model

| member | source | states |
|---|---|---|
| `HtmlEscape.ReplaceAll` | src/static/app.js:49-53 | one `.replace(/c/g, rep)` with a literal, non-metacharacter `c` and a `rep` without `$` patterns, as in the five calls: when `rep` does not contain `c`, no `c` is left in the result; a string without `c` is returned unchanged; a non-empty `rep` never shortens the string |
| `HtmlEscape.EscapeHtml` | src/static/app.js:47-54 | the five replacements chained in the script's order; its own contract says the output is never shorter than the input, holds no `'`, and equals the input when the input has none of `& < > " '`; its meaning is stated by `EscapeHtmlIsPerChar`, `EscapeHtmlIsEscaped` and `UnescapeEscapeHtml` |
| `HtmlEscape.ReplaceAllConcat` | src/static/app.js:49-53 | a global single-character replacement distributes over concatenation |
| `HtmlEscape.ReplaceAllOne` | src/static/app.js:49-53 | on a one-character string, a replacement gives `rep` if the character is the target, else the character itself |
| `HtmlEscape.EscapeChar` | src/static/app.js:49-53 | the substitution table: a character maps to itself exactly when it is none of `& < > " '`; each of those five maps to an entity starting with `&` |
| `HtmlEscape.EscapePerChar` | src/static/app.js:48-53 | the one-pass reference substitution never shortens its input |
| `HtmlEscape.EscapeHtmlConcat` | src/static/app.js:48-53 | the whole five-step chain distributes over concatenation |
| `HtmlEscape.EscapeHtmlPlain` | src/static/app.js:48-53 | a character other than the five passes through all five steps unchanged |
| `HtmlEscape.EscapeHtmlSpecial` | src/static/app.js:49-53 | each special character is rewritten by its own step, and its entity contains none of the later steps' targets, so later steps leave it alone |
| `HtmlEscape.EscapeHtmlChar` | src/static/app.js:48-53 | on one character the chain yields that character's table entry |
| `HtmlEscape.EscapeHtmlIsPerChar` | src/static/app.js:47-54 | the five sequential replacements equal the per-character substitution, which copies every other character unchanged and in order |
| `HtmlEscape.EscapePerCharIsEscaped` | src/static/app.js:49-53 | the per-character substitution produces text satisfying `IsEscaped` |
| `HtmlEscape.EscapeHtmlIsEscaped` | src/static/app.js:47-54 | `escapeHtml` output contains no `<`, `>`, `"` or `'`, and every `&` in it begins `&amp;`, `&lt;`, `&gt;`, `&quot;` or `&#039;` |
| `HtmlEscape.UnescapeStep` | src/static/app.js:49-53 | in escaped text, the prefix the decoder consumes is exactly the table entry of the character it emits |
| `HtmlEscape.UnescapeEscapePerChar` | src/static/app.js:49-53 | decoding the per-character substitution gives back its input |
| `HtmlEscape.UnescapeEscapeHtml` | src/static/app.js:47-54 | replacing the five entities back by their characters recovers the original string exactly |
| `HtmlEscape.EscapeHtmlInjective` | src/static/app.js:47-54 | two strings with the same escape are equal |
| `HtmlEscape.EscapePerCharUnescape` | src/static/app.js:49-53 | every string satisfying `IsEscaped` is the per-character escape of its decoding |
| `HtmlEscape.EscapeHtmlUnescape` | src/static/app.js:47-54 | every string satisfying `IsEscaped` is `escapeHtml` of its decoding, so `IsEscaped` is exactly the set of possible outputs |
| `HtmlEscape.EscapePerCharLength` | src/static/app.js:49-53 | the substitution keeps the length exactly when no character is special, and is then the identity |
| `HtmlEscape.EscapeHtmlLength` | src/static/app.js:47-54 | the output is at least as long as the input, and equals the input exactly when the input has none of `& < > " '` |
| `Initials.IsSpace` | src/static/app.js:59 | the white-space set shared by `trim` and the `\s` class: ECMAScript white space and line terminators (tab, LF, VT, FF, CR, space, U+00A0, U+1680, U+2000-U+200A, U+2028, U+2029, U+202F, U+205F, U+3000, U+FEFF); it carries no contract of its own |
| `Initials.LeadingSpace` | src/static/app.js:59 | the white-space run that `trim` removes at the front: all white space, followed by a non-space or the end |
| `Initials.TrailingSpace` | src/static/app.js:59 | the white-space run that `trim` removes at the back: all white space, preceded by a non-space or the start |
| `Initials.LeadingWord` | src/static/app.js:59 | the longest prefix without white space, ended by white space or the end of the string |
| `Initials.Trim` | src/static/app.js:59 | the trimmed string is a contiguous slice `s[a..b]` of the input whose removed prefix `s[..a]` and suffix `s[b..]` are all white space, and it is empty or begins and ends with a non-space character, so exactly the leading and trailing white space is removed |
| `Initials.SplitSpace` | src/static/app.js:59 | `split(/\s+/)` yields at least one part, yields `[""]` for `""`, and its first and last parts are non-empty when the string does not begin or end with white space |
| `Initials.ToUpper` | src/static/app.js:63 | upper-casing keeps the length, maps each character by ASCII upper-casing, and leaves no lower-case ASCII letter |
| `Initials.FirstTwo` | src/static/app.js:61 | `slice(0, 2)`: a prefix of the string of at most two characters, which is the whole string when it has fewer than two |
| `Initials.PickInitials` | src/static/app.js:60-62 | the selected initials are at most two characters |
| `Initials.GetInitials` | src/static/app.js:57-64 | the result has at most two characters and no lower-case ASCII letter |
| `Initials.Words` | src/static/app.js:59 | the reference word list: every element is a non-empty run without white space |
| `Initials.WordsAfterSpace` | src/static/app.js:59 | leading white space does not change the words |
| `Initials.WordsBeforeSpace` | src/static/app.js:59 | trailing white space does not change the words |
| `Initials.WordsOfSpace` | src/static/app.js:59 | an all-white-space string has no words |
| `Initials.WordsOfTrim` | src/static/app.js:59 | trimming does not change the words |
| `Initials.SplitSpaceIsWords` | src/static/app.js:59 | on a non-empty trimmed string, `split(/\s+/)` gives exactly the words, so no part is empty |
| `Initials.GetInitialsIsInitialsOfWords` | src/static/app.js:57-64 | getInitials equals the initials read off the words of the name: none, the first ≤2 characters of a lone word, or the first characters of the first and last words, upper-cased |
| `Initials.GetInitialsBlank` | src/static/app.js:58-61 | an empty or all-white-space name gives `""` |
| `Initials.GetInitialsIgnoresPadding` | src/static/app.js:59 | white space before or after the name does not change its initials |
| `Initials.WordsOfWord` | src/static/app.js:59 | a single word is its own only word |
| `Initials.GetInitialsOneWord` | src/static/app.js:60-61 | a one-word name gives its first two characters (or fewer, if the word is shorter), upper-cased |
| `Initials.WordsAroundSpace` | src/static/app.js:59 | a white-space character separates the words on its two sides |
| `Initials.GetInitialsFirstAndLast` | src/static/app.js:60-63 | with a first and a last word around any middle, the initials are the first characters of the first and last words, upper-cased; middle words are ignored |
| `Activities.SuccessMessage` | tests/test_app.py:62-71 | the success message contains "Signed up" and the email |
| `Activities.Detail` | tests/test_app.py:89-107 | the not-found refusal mentions "not found"; the duplicate refusal mentions "already signed up" |
| `Activities.StatusCode` | tests/test_app.py:62-107 | the HTTP status of a response: 200 exactly for a signup, 404 exactly for an unknown activity, 400 exactly for a duplicate |
| `Activities.SpotsLeft` | src/static/app.js:80 | spots left plus participant count equals max_participants; it is negative exactly when participants exceed the maximum |
| `Activities.SignupOutcome` | tests/test_app.py:59-107 | status 404 exactly when the activity is unknown, 400 exactly when the email is already listed, 200 otherwise; a refusal leaves the table unchanged; a success appends the email to that activity's list, keeps its other fields and the set of activities |
| `Activities.SignupSeries` | tests/test_app.py:117-122 | successive signups give one response per email |
| `Activities.SignupKeepsWellFormed` | tests/test_app.py:89-97 | signup never lists an email twice in one activity |
| `Activities.SignupTwiceIsRejected` | tests/test_app.py:89-97 | signing up the same email again is refused with "already signed up" and changes nothing |
| `Activities.SignupAccepted` | tests/test_app.py:73-87 | an accepted signup replaces exactly one table entry, by the same activity with the email appended |
| `Activities.SignupSeriesStep` | tests/test_app.py:117-122 | a series whose first signup is accepted continues from the table with that email appended |
| `Activities.SignupSeriesAccumulates` | tests/test_app.py:109-131 | distinct new emails signed up one after another are all accepted and accumulate in order on that activity; nothing else in the table changes |
| `Activities.SignupTakesASpot` | src/static/app.js:80 | a successful signup lowers spots left by exactly one |
| `Activities.CapacityNotEnforced` | tests/test_app.py:150-158 | an activity with no spot left still accepts a new email, and its spots left becomes negative |
| `Activities.InitialCatalog` | tests/test_app.py:21-158 | what the tests' assertions force on the starting catalog: Chess Club has two participants, michael@ and daniel@; Soccer Club lists nobody or only newstudent@; Art Club is empty; Basketball Team and Drama Club do not list the students signed up to them; Math Club has max_participants 10; "Nonexistent Activity" is absent; it carries no contract of its own |
| `Activities.ChessClubStartsWithTwo` | tests/test_app.py:48-56 | Chess Club starts with exactly michael@ and daniel@, in one order or the other |
| `Activities.NewStudentIsSignedUp` | tests/test_app.py:62-71 | signing up student@ to Basketball Team answers 200 with a message containing "Signed up" and the email |
| `Activities.SignedUpStudentAppears` | tests/test_app.py:73-87 | after signing newstudent@ up to Soccer Club, its list contains the email and has length 1, whether or not it was listed before |
| `Activities.RegisteredStudentIsRejected` | tests/test_app.py:89-97 | signing up michael@ to Chess Club answers 400 "already signed up" and changes nothing |
| `Activities.UnknownActivityIsRejected` | tests/test_app.py:99-107 | signing up for "Nonexistent Activity" answers 404 "not found" and changes nothing |
| `Activities.ThreeStudentsAccumulate` | tests/test_app.py:109-131 | three signups to the empty Art Club all answer 200, and its list is then exactly the three emails |
| `Activities.EmptyEmailIsOrdinary` | tests/test_app.py:133-148 | after a first signup to Drama Club, the empty email is accepted (200) or refused as a duplicate (400), according to whether it was listed before |
| `Activities.MathClubCapacityUnchanged` | tests/test_app.py:150-158 | Math Club's max_participants is 10 after any signup |
| `Activities.Catalog.constructor` | tests/test_app.py:21-56 | the shared table starts as the given catalog, with no email listed twice in any activity |
| `Activities.Catalog.GetActivities` | tests/test_app.py:24-28 | `GET /activities` returns the whole current table |
| `Activities.Catalog.Signup` | tests/test_app.py:59-131 | the signup endpoint answers and updates the shared table exactly as `SignupOutcome` says, and keeps every list free of duplicates |
| `Activities.SignupThreeStudents` | tests/test_app.py:109-131 | on a fresh server whose catalog lists no email twice, three POSTs to Art Club answer 200, 200, 200, and a following GET lists exactly the three emails |

## Left out

- `loadActivities`, `fetchActivities`, `unregisterParticipant` and the form's submit handler (src/static/app.js:8-44, 67-153): these build DOM nodes, call `fetch`, set timers and assemble `innerHTML`. This is browser I/O.
- The unregister endpoint: its server code is not part of this model, and no test exercises it.
- The root redirect, routing, query-parameter parsing, JSON encoding and the mapping of errors to HTTP responses: this is web-framework behaviour. Only the status code and the asserted substrings of each response are modelled.
- The test client fixture and the state reset between tests: every scenario lemma starts from any catalog satisfying `InitialCatalog`.
- The concrete catalog in the server module: descriptions, schedules, capacities other than Math Club's, and activities the tests do not name are unknown, so `InitialCatalog` constrains only what the tests assert.
- `String(str)` coercion in `escapeHtml` and the `if (!name)` test in `getInitials` on `null`, `undefined` or other non-string values: only string inputs are modelled, so of that test only the empty-string case is.
- The server catalog's freedom from duplicate emails: no test asserts it, so `InitialCatalog` does not include it. `Catalog.constructor` requires it, so `SignupThreeStudents`, the one scenario run on a `Catalog` object, assumes it of its starting catalog. Every other scenario lemma holds without it.
- Initials.ToUpper: upper-cases only ASCII `a`-`z`. JavaScript's full Unicode case mapping is not modelled; it can change the length of a string (`ß` becomes `SS`).
- Initials.GetInitials: characters are Unicode scalar values. JavaScript indexes UTF-16 code units, so `slice(0, 2)` and `[0]` on a character outside the Basic Multilingual Plane differ from the model.
- Activities.SuccessMessage: the exact wording is not asserted anywhere. The model uses "Signed up <email> for <activity>", and its contract states only the asserted substrings.
- Activities.Detail: the same holds for the refusal texts. They are "Activity not found" and "Student is already signed up".
- The order of the two checks is not pinned down by any test. The model checks for an unknown activity first, because the duplicate check needs the activity's list.
- Concurrent requests: the server's single dictionary is modelled as one object updated by one request at a time.
