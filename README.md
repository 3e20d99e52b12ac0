# Guestbook: a Dafny model

A model of an Express guestbook. The server (`server.js`) keeps every message in a module-level
array for as long as the process runs. Four HTTP handlers use that array:

- list sorts it in place, newest first;
- create appends a record;
- delete removes a record, for an admin only;
- react adds one to a reaction counter.

The browser script (`public/script.js`) has a few pure helpers: a check on the form before
submitting, `escapeHtml`, the relative-time labels of `formatTime`, and the default of 0
for a missing reaction count.

Files:

- `wrappers.dfy`: `Option`. `None` stands for a `name`, `message` or `emoji` field that is absent or `null`; the handlers treat the two alike. The delete handler's `password` has its own type, `Guestbook.Password` (`Absent`, `Null` or `Given(text)`), because there the two differ.
- `js_text.dfy` (module `JsText`): the JavaScript string behaviour the code depends on.
  - `trim` strips exactly the ECMAScript white-space and line-terminator characters.
  - `.length` counts UTF-16 code units, so a character outside the BMP counts 2.
  - `${n}` renders a number as decimal digits.
- `guestbook.dfy` (module `Guestbook`): the message record, the responses with their HTTP
  statuses and error texts, and class `Store`.
  - `Store` holds `messages: seq<Message>`. It has one method per handler.
  - `Valid()` is the invariant: every record has counts for exactly the five emojis.
  - The pure functions the methods are specified by (`FirstIndex`, `Without`, `AddReaction`,
    `SortNewestFirst`, `IsAdmin`) have lemmas of their own.
- `client.dfy` (module `Client`): the script's helpers, as functions with lemmas.

Facts about the code that the model keeps:

- Ids and timestamps are clock readings. They are parameters here, and ids need not be unique.
- Lookup takes the first record with the id.
- create checks the untrimmed fields and then stores them trimmed. So a name of spaces only is
  accepted and stored as `""` (`Guestbook.BlankNameScenario`).
- delete reports an unknown id (404) before it checks the password (403). react reports an
  unknown id (404) before it checks the emoji (400).
- The literal password `admin123` is always accepted. With `ADMIN_PASSWORD` unset, a request
  without a password field is accepted too, because strict equality holds between two
  `undefined` values. A JSON `null` password is refused whatever the secret is, because
  `null === undefined` is false (`Guestbook.IsAdmin`, `Guestbook.AdminWithoutSecret`).
- The engine's `Array.prototype.sort` is stable. A stable sort has only one possible result,
  and `SortNewestFirst` computes it: records with the same timestamp keep their current order.

## Model

| member | source | states |
|---|---|---|
| `Guestbook.Store.constructor` | server.js:15-29 | the store starts with the welcome record alone (id 1, all five counts 0) and satisfies the invariant |
| `Guestbook.Welcome` | server.js:15-29 | the seeded record has id 1, the start time, exactly the five emoji keys, all at 0 |
| `Guestbook.ZeroReactions` | server.js:56-62 | a new record's reactions have exactly the five emoji keys, each 0 |
| `Guestbook.Store.List` | server.js:33-35 | the store is left sorted newest first and is a permutation of what it was; the response is that sorted list with status 200 |
| `Guestbook.InsertByTime` | server.js:34 | inserting adds exactly that record to the multiset of records |
| `Guestbook.InsertByTimeKeepsOrder` | server.js:34 | inserting a record into a newest-first list keeps it newest-first |
| `Guestbook.SortNewestFirst` | server.js:34 | the sorted list has non-increasing timestamps and the same multiset of records |
| `Guestbook.SortKeepsSortedList` | server.js:34 | a list that is already newest-first is not reordered, so equal timestamps keep their order |
| `Guestbook.SortIdempotent` | server.js:34 | listing twice gives the same order as listing once |
| `Guestbook.Present` | server.js:42 | a field is truthy exactly when it is a string of non-zero `.length` |
| `Guestbook.Acceptable` | server.js:42-47 | accepted fields hold 1 to 50 and 1 to 500 characters |
| `Guestbook.Failure.Status` | server.js:43-110 | unknown id is 404, refused password 403, missing, over-long fields and disallowed emoji 400 |
| `Guestbook.Failure.Error` | server.js:43-110 | every failure carries a non-empty `{error}` text |
| `Guestbook.Response.Status` | server.js:34-129 | 201 exactly for a created record, 4xx exactly for a failure, 200 for list, delete and react |
| `Guestbook.Store.Create` | server.js:38-67 | missing or empty field gives 400 and no change; untrimmed name over 50 or message over 500 code units gives 400 and no change; otherwise 201, exactly one record appended (trimmed fields, given id and time, zero counts), earlier records untouched, response equals the stored record |
| `JsText.Trim` | server.js:53-54 | the trimmed string is no longer than the input and neither starts nor ends with white space, where white space is `JsText.IsWhite`: the ECMAScript WhiteSpace and LineTerminator code points |
| `JsText.TrimCutsOnlyWhite` | server.js:53-54 | the trimmed string is a contiguous part of the input, and only white space is cut off on either side |
| `JsText.TrimIdempotent` | public/script.js:43-44 | trimming an already trimmed string changes nothing |
| `JsText.TrimEmptyIffAllWhite` | public/script.js:43-47 | the trimmed string is empty exactly when the input is white space only |
| `JsText.Utf16Length` | server.js:46 | `.length` lies between the number of characters and twice that |
| `JsText.Utf16LengthOfBmp` | server.js:46 | for text inside the BMP, `.length` is the number of characters |
| `Guestbook.FirstIndex` | server.js:74 | `None` exactly when no record has the id; otherwise an index of a record with the id and no earlier record has it |
| `Guestbook.Store.Delete` | server.js:70-92 | unknown id gives 404 and no change, whatever the password; known id and not admin gives 403 and no change; otherwise 200, the first record with the id is returned and removed, the rest kept in order |
| `Guestbook.Without` | server.js:87 | removing index k keeps all other records in their relative order and removes exactly that one record |
| `Guestbook.DeleteForgetsIdIffUnique` | server.js:74-91 | after deleting the first match the id is gone exactly when no other record carried it |
| `Guestbook.IsAdmin` | server.js:81 | a `null` password is never admin; the password `admin123` always is |
| `Guestbook.AdminWithoutSecret` | server.js:81 | without a secret configured, admin exactly for an absent password or `admin123`; with one, exactly for its text or `admin123` |
| `Guestbook.Store.React` | server.js:95-131 | unknown id gives 404, an emoji outside the five gives 400, both without change; otherwise 200, that emoji's count of the first matching record goes up by one, nothing else changes, and the full updated mapping is returned |
| `Guestbook.Count` | server.js:125 | a missing count reads as 0; on a record with the five keys, an allowed emoji's count is the stored one |
| `Guestbook.AddReaction` | server.js:125 | the chosen count (missing reads as 0) goes up by exactly one; every other count and key is unchanged |
| `Guestbook.AddReactionsCounts` | server.js:125 | reacting k times with one emoji adds exactly k to it and nothing to the others |
| `Client.Submit` | public/script.js:43-60 | the form sends the trimmed fields exactly when both are non-empty, the name has at most 50 and the message at most 500 code units; otherwise the empty-field refusal comes first, then name-too-long, then message-too-long, each stated as an if-and-only-if |
| `Client.SubmitError.Toast` | public/script.js:48-58 | every refusal shows a non-empty toast text |
| `Client.SubmitRefusesBlank` | public/script.js:43-50 | a field of white space only is refused with the empty-field error, before any length check |
| `Client.SubmitAcceptedByServer` | public/script.js:43-72 | whatever the form sends passes the create handler's checks and is stored unchanged by its trim |
| `Client.ReactionButtons` | public/script.js:152-162 | exactly the five emojis are rendered, in the fixed order, each with its count or 0 when the count is missing |
| `Client.ButtonsOfNoReactions` | public/script.js:152-155 | a missing or empty reactions object shows every count as 0 |
| `Client.ButtonsIgnoreOtherKeys` | public/script.js:153-155 | counts under keys other than the five never appear on the page |
| `Client.ButtonsAfterReaction` | public/script.js:152-155 | after one reaction the page shows that button one higher and every other button as before |
| `Client.EscapeHtml` | public/script.js:210-220 | the output is at least as long as the input and contains no `<`, `>`, `"` or `'`; each character is replaced by `Client.Entity`, the lookup map of lines 211-217 |
| `Client.EscapeHtmlEntities` | public/script.js:211-217 | `&`, `<`, `>`, `"`, `'` become `&amp;`, `&lt;`, `&gt;`, `&quot;`, `&#039;` |
| `Client.EscapeHtmlPlain` | public/script.js:219 | text with none of the five characters comes back identical |
| `Client.EscapeHtmlAppend` | public/script.js:219 | escaping is character by character, in order: it distributes over concatenation |
| `Client.EscapeHtmlRoundTrip` | public/script.js:210-220 | the original text is recovered by reading the five entities back, so escaping loses nothing |
| `Client.AgeOf` | public/script.js:185-198 | just now below 60000 ms; N minutes with N = diff div 60000, 1 ≤ N < 60; then hours below 24; then days below 7; the calendar date from 7 days on |
| `Client.AgeMonotone` | public/script.js:185-197 | a larger difference never gets a younger bucket or a smaller number within the same bucket |
| `Client.FormatTime` | public/script.js:190-198 | the label strings `방금 전`, `N분 전`, `N시간 전`, `N일 전` for each range |
| `JsText.Decimal` | public/script.js:193 | the number is rendered as digits with no leading zero |
| `JsText.DecimalRoundTrip` | public/script.js:193 | the rendered digits denote the number again |

## Left out

- The Express, cors and dotenv wiring, static files, `res.sendFile` and `app.listen` are left out. They are framework I/O.
- `parseInt` of the route id is left out. The id is an already parsed `int`. A `NaN` id never matches any record, so it ends in 404 like any other unknown id.
- Non-string JSON values in a request body (numbers, booleans, arrays, objects) are left out. Fields are strings, absent, or `null`. What the code does with the others:
  - A falsy `name` or `message` (`0`, `false`) gets 400 at the presence check.
  - An array or object whose `.length` exceeds 50 or 500 gets 400 at the length check.
  - Any other truthy non-string `name` or `message` reaches `trim`, which throws, and Express answers 500.
  - A non-string `emoji` is never an allowed emoji, so it gets 400.
  - A non-string `password` never equals the secret or `admin123`, so it gets 403.
- `Date.now()`, `new Date()` and ISO-8601 formatting are left out. Ids and timestamps are integers (milliseconds) given by the caller. The sort compares them as numbers, as `new Date(b) - new Date(a)` does on valid ISO strings.
- The `toLocaleDateString('ko-KR', …)` branch of `formatTime` is a locale library call. `FormatTime` returns `None` there.
- DOM updates, `fetch`, toasts, the theme, `localStorage`, the modals, animations and border colours in the script are left out.
- The handler's branch that creates a missing `reactions` object is not modelled as a step. Every stored record has that object, as `Store.Valid` states, so the branch never runs.
- Reaction counts are unbounded naturals. JavaScript numbers lose precision above 2^53.
- Strings are sequences of Unicode scalar values. JavaScript strings can also hold lone surrogate code units, which cannot be written here.
- Concurrency is left out. Node runs each handler to completion on one thread.
- `Guestbook.SortKeepsSortedList`: stability is stated only for input that is already sorted, not for every pair of tied records. `SortNewestFirst` is still defined as the stable sort.
