# Memo manager: a Dafny model of `app.js`

`app.js` is a browser memo (note) manager. It shows a form to create memos and a list of the
stored memos, and lets the user edit or delete a memo in place. Every change goes to a remote
REST API (`/api/memos`) first. When a request fails, the change goes to a fallback list kept in
the browser's local storage under the key `"memos"`, and that list is rendered instead.

This project models the logic inside that plumbing:

- **JavaScript built-ins** (`jsstring.dfy`, module `JsString`). The string operations the code
  relies on: a global replace with a literal pattern, `trim`, `String(n)` for a non-negative
  integer below 10^21, and `padStart`.
- **Formatter** (`formatter.dfy`). `escapeHtml` is written exactly as the source's chain of five
  replaces. It is proved equal to a per-character map, proved to produce no `<`, `>`, `"` or `'`,
  and proved to be undone by an unescape chain that replaces `&#039;`, `&quot;`, `&gt;`, `&lt;` and
  then `&amp;`. `getFormattedDate` takes the clock's fields as parameters. It is proved to have
  the `YYYY-MM-DD HH:MM` shape and to parse back to those fields.
- **Fallback store** (`store.dfy`). The `Memo` record and the slot operations: an absent slot
  reads as `[]`, the `map` that replaces by id, and the `filter` that removes by id. The append is
  done in the controller.
- **Renderer** (`renderer.dfy`). The 100-character preview, the row of one memo, and the
  `forEach` loop of `renderMemoList`, written as a method with a loop. An empty list renders as
  a single placeholder. Each row carries the escaped title and preview. The date (or the current
  stamp when the memo has none) and the id are passed through unescaped, as the source does.
- **Controller** (`controller.dfy`). A class `MemoApp` with these fields:
  - `currentMemoId`;
  - whether each of the two forms is hidden;
  - the local storage slot;
  - a log of every list handed to `renderMemoList`;
  - a log of the requests sent to the remote API.

  Its methods are `loadMemos`, `showEditForm`, `cancelEdit`, `createMemo`, `updateMemo` and
  `deleteMemo`. Three things come in as method parameters: the outcome of each remote call,
  the user's answer to the delete confirmation, and the clock: the new memo's id, and the
  clock reading from which `getFormattedDate` builds the memo's time stamp. The remote memo
  collection itself stays abstract. What the controller does to it shows up only as the
  requests it sends.
- **Scenarios** (`scenarios.dfy`). Client code proved from the controller's contracts alone:
  creating and updating while offline, a declined delete, and blank input.

One detail of the code that the model keeps as written:

- `app.js:210` tests `!currentMemoId`, which is also true for the empty-string id. A memo with
  id `""` can be opened for editing but never updated. `MemoApp.Selected` models this.

## Model

| member | source | states |
|---|---|---|
| `JsString.ReplaceAllConcat` | app.js:32-37 | A global replace distributes over a concatenation whenever no occurrence of the pattern spans the seam. |
| `JsString.TrimIsInfix` | app.js:133-134 | `trim()` returns a contiguous piece of its input with no whitespace at either end. |
| `JsString.TrimCutsWhitespace` | app.js:133-134 | Everything `trim()` cuts off, before and after the kept piece, is whitespace. |
| `JsString.TrimEmptyIff` | app.js:136 | A field fails the `!title` check after `trim()` exactly when every character of it is whitespace. |
| `JsString.TrimIdempotent` | app.js:133-134 | Trimming a trimmed field changes nothing. |
| `JsString.TrimKeeps` | app.js:133-134 | A field with no whitespace at either end is kept as it is. |
| `JsString.DecimalString` | app.js:43-47 | `String(n)` is one or more digits, with no leading zero except for 0. It is one digit below 10, two digits from 10 to 99, and four from 1000 to 9999. |
| `JsString.ParseDecimalString` | app.js:43-47 | `String(n)` reads back as `n`. |
| `JsString.PadStart` | app.js:44-47 | `padStart` reaches the target width and never shortens. The original string is the suffix, and everything in front of it is the fill character. |
| `Formatter.EscapeHtmlPerChar` | app.js:31-37 | Because `&` is replaced first, the chain of five replaces equals the per-character map that sends `&<>"'` to their entities and keeps every other character. |
| `Formatter.EscapeHtmlHasNoMarkup` | app.js:31-37 | Escaped text contains no `<`, `>`, `"` or `'`. |
| `Formatter.UnescapeEscapeHtml` | app.js:31-37 | Replacing `&#039;`, `&quot;`, `&gt;`, `&lt;` and then `&amp;` in escaped text gives back the original string. |
| `Formatter.EscapeHtmlIdentityIff` | app.js:31-37 | `escapeHtml` leaves a string unchanged exactly when the string holds none of `&<>"'`. |
| `Formatter.Pad2RoundTrip` | app.js:44-47 | A field below 100 pads to exactly two digits that read back as the field. |
| `Formatter.FormattedDateLength` | app.js:41-49 | The stamp is the year's digits followed by 12 characters: `-MM-DD hh:mm`. A four-digit year gives the 16 characters of `YYYY-MM-DD HH:MM`. |
| `Formatter.FormattedDateRoundTrip` | app.js:41-49 | The stamp has `-`, `-`, a space and `:` in place, and every field after the year is two digits. Parsing it returns the clock's year, month, day, hour and minute. |
| `Store.Stored` | app.js:64 | A slot that was never written reads as the empty list. A written slot reads as what was written. |
| `Store.ReplaceById` | app.js:248-250 | The update keeps the length. Every entry with the selected id becomes the updated memo, and every other entry stays the same, in the same position. |
| `Store.ReplaceByIdIdempotent` | app.js:248-250 | Applying the same update twice equals applying it once, when the updated memo keeps the id. |
| `Store.RemoveById` | app.js:279 | The delete never grows the list, and no remaining entry carries the deleted id. |
| `Store.RemoveByIdMembers` | app.js:279 | A memo is in the result exactly when it was in the list and carries a different id. |
| `Store.RemoveByIdConcat` | app.js:279 | The delete keeps order: filtering a concatenation filters each part in place. |
| `Store.RemoveByIdAbsent` | app.js:279 | A list in which no memo has the id is returned unchanged. |
| `Store.RemoveByIdIdempotent` | app.js:279 | Deleting twice equals deleting once. |
| `Store.RemoveByIdLength` | app.js:279 | The delete removes exactly as many memos as carry the id. |
| `Renderer.Preview` | app.js:84-87 | The preview is never longer than 103 characters. Content of 100 characters or fewer is shown whole. Longer content shows its first 100 characters followed by `...`. |
| `Renderer.RowOfIsEscaped` | app.js:92-97 | A row's title and text contain no markup characters, and they decode back to the memo's title and to its preview. |
| `Renderer.RenderMemoList` | app.js:70-129 | An empty list renders the single placeholder row. Otherwise there is one row per memo, in the given order, each the row of that memo. |
| `Controller.MemoApp.constructor` | app.js:14 | The page starts with no memo selected and the create form visible. The render log and the request log are empty. |
| `Controller.MemoApp.LoadMemos` | app.js:53-67 | `loadMemos` sends one list request and renders exactly once: the returned list, or the fallback slot when the request fails. |
| `Controller.MemoApp.ShowEditForm` | app.js:183-193 | The memo's id becomes the selection and only the edit form is visible. |
| `Controller.MemoApp.CancelEdit` | app.js:196-206 | The selection is cleared and only the create form is visible. |
| `Controller.MemoApp.CreateMemo` | app.js:132-180 | An alert is shown exactly when a trimmed field is empty. In that case the slot, the render log and the request log are unchanged. Otherwise one POST is sent with the trimmed title and content, the given id, and the `getFormattedDate` stamp of the clock reading. On success the list is reloaded and the slot is untouched. On failure the slot becomes the old list plus the new memo, and that list is rendered once. The selection and the forms never change. |
| `Controller.MemoApp.UpdateMemo` | app.js:209-259 | With no selection (or the empty id), nothing changes and there is no alert. With blank input there is an alert and nothing else changes. Otherwise one PUT is sent for the selected id, with the trimmed fields and the `getFormattedDate` stamp of the clock reading. On failure the slot becomes `ReplaceById` of the stored list and is rendered. On success the list is reloaded. In both cases the selection ends up cleared and the create form visible. |
| `Controller.MemoApp.DeleteMemo` | app.js:262-285 | A declined confirmation changes nothing. A confirmed delete sends one DELETE. On failure the slot becomes `RemoveById` of the stored list and is rendered. On success the list is reloaded. The selection and the forms never change. |
| `Scenarios.OfflineCreate` | app.js:132-180 | With the API down and an empty slot, creating a memo from any non-blank title and content stores exactly that memo, with the trimmed fields, and renders it once. Its 16-character stamp parses back to the clock reading. |
| `Scenarios.OfflineUpdate` | app.js:209-259 | With the API down and two memos with distinct ids stored (the first with a non-empty id), opening the first and saving any non-blank title and content rewrites that entry in place under its id, with the trimmed fields and the clock's stamp. The other entry is untouched and the edit form ends up hidden. |
| `Scenarios.DeclinedDelete` | app.js:262-263 | A declined delete leaves the slot unchanged, sends nothing and renders nothing. |
| `Scenarios.BlankCreate` | app.js:133-139 | The whitespace-only title `" \t"` (with content `"X"`) is rejected with an alert, leaves the slot unchanged, sends nothing and renders nothing. The general case, any title or content that trims to empty, is `CreateMemo`'s contract together with `TrimEmptyIff`. |

## Left out

- Network I/O. `fetch`, HTTP status handling and `response.json()` are reduced to an outcome
  parameter: `Outcome` for POST, PUT and DELETE, `Listing` for GET. Bad status, a network error
  and an unparsable body all count as failure.
- `async`/`await`. Each user action runs to completion. Interleaved user events are not
  modelled, and the un-awaited `loadMemos` is modelled as finishing before the action returns.
- DOM work. Not modelled: the `innerHTML` markup of a row, element creation, event-listener
  wiring in `init`, `stopPropagation`, scrolling, clearing the input fields, and copying the
  memo's title and content into the edit fields. The raw input values are method parameters.
- `alert` becomes the `alerted` result of `CreateMemo`/`UpdateMemo`. `confirm` becomes the
  `confirmed` parameter. `console.error` is logging and is left out.
- Local storage and JSON. The slot is an `Option<seq<Memo>>`. Not modelled: a slot holding the
  empty string (it reads as `[]`, like an absent one), malformed JSON (it would throw), and
  writes from other tabs.
- `Date.now()` and `new Date()` read the clock. The id and the clock reading (year, month, day,
  hour and minute) are parameters. Ids are not claimed unique, because the code does not enforce it.
- The initial visibility of the two forms comes from the page markup, which is not part of this
  model. The constructor assumes the create form is visible and the edit form hidden.
- Ids are modelled as strings. A server that returns numeric ids, with JavaScript's strict
  `===` comparison against them, is not modelled.
- `Renderer.Preview`: lengths count Unicode scalar values, while JavaScript's `length` and
  `substring` count UTF-16 code units. The two differ for characters outside the Basic
  Multilingual Plane, where `substring(0, 100)` can split a surrogate pair.
- `Renderer.RenderMemoList`: one time stamp `now` serves every row without a date. The source
  reads the clock once per such row.
- `JsString.DecimalString`: years are non-negative. `String(year)` for a negative year is not
  modelled. Nor is the exponent form (`"1e+21"`) JavaScript prints from 10^21 on; the clock's
  fields never come near that.
- `JsString.ReplaceAll` takes only a non-empty literal pattern. That covers every replace in
  the source. A regular expression that matches the empty string is not modelled. The
  replacement is inserted literally: the `$&`, `$$`, `` $` `` and `$'` patterns JavaScript
  expands in a replacement string are not modelled, and no replacement in the source uses `$`.
