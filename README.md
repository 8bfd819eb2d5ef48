# Chore tracker front-end: a Dafny model of its client-side logic

The chore tracker is a single-page client for a remote chore API. It lists
chores with a live countdown to each due date, and lets the user create,
delete and touch chores. Touching asks the server to recompute a chore's due
date. All of the client's own logic is in `chore-app-ui/src/App.tsx`. This
project models that logic in Dafny and proves what it promises:

- **Duration formatting** (`formatDuration`). A millisecond count is split
  into days, hours, minutes and seconds and printed as `"{d}d {h}h {m}m {s}s"`.
  Modules `Decimal` and `Duration` (files `decimal.dfy`, `duration.dfy`).
- **Countdown rule** (`ChoreItem`). `remaining = max(due - now, 0)`, and the
  card shows `"Overdue"` exactly when that is 0. Module `Countdown`.
- **Form payload** (`handleSubmit`). An empty description becomes absent.
  Module `CreateForm`.
- **Controller state** (`App`). The component state `chores`, `loading`,
  `error` and `showCreate` becomes the class `Controller.App`, with one
  method per handler. The list updates those handlers pass to `setChores`
  (append, filter by id, map over id) are pure functions in module `Chores`,
  with their own lemmas. Module `Wrappers` holds `Option`, which models
  `T | undefined` and `T | null`.

Network requests are not modelled. Each handler takes the request's
*outcome* as input, as a `Controller.Fetch<T>`. It is either
`NetworkFailure` (the `fetch` threw) or `Reply(status, body)`, where `body`
is `None` when `res.json()` throws. `res.ok` is `IsOk(status)`, a status in
the range 200-299. The clock reading `Date.now()` and the due instant
`new Date(chore.dueDate).getTime()` are integer parameters of the countdown
functions.

Two behaviours of the code are modelled exactly as written:

- `deleteChore` removes the chore locally whenever the request does not
  throw, whatever the HTTP status.
- `createChore` checks the status of its first request (the PUT) but not of
  its second (the GET of `/items/{id}`), so a 404 reply to the GET whose body
  decodes, such as an error object, is appended as a chore.

A successful request never clears an earlier error: `error` is one slot, and
each failure overwrites it.

## Model

| member | source | states |
|---|---|---|
| `Decimal.Show` | chore-app-ui/src/App.tsx:35 | a number prints as at least one digit, all digits, with no leading zero, and is one digit long exactly when it is below 10 |
| `Decimal.ValueOfShow` | chore-app-ui/src/App.tsx:35 | reading the printed digits back gives the number printed (so `Decimal.ShowInjective`: different numbers print differently) |
| `Decimal.ShowInjective` | chore-app-ui/src/App.tsx:35 | two numbers with the same decimal text are equal |
| `Duration.Decompose` | chore-app-ui/src/App.tsx:27-33 | hours < 24, minutes < 60, seconds < 60, and days*86400 + hours*3600 + minutes*60 + seconds == ms / 1000 |
| `Duration.DecomposeUnique` | chore-app-ui/src/App.tsx:27-33 | any parts with those bounds that recompose to ms / 1000 are exactly the parts `formatDuration` computes |
| `Duration.FormatDuration` | chore-app-ui/src/App.tsx:27-36 | the text starts with a digit and ends with the seconds unit `s` |
| `Duration.ParseRender` | chore-app-ui/src/App.tsx:35 | the text `"{d}d {h}h {m}m {s}s"` reads back to the parts it was printed from |
| `Duration.ParseFormatDuration` | chore-app-ui/src/App.tsx:27-36 | the formatted text reads back to the decomposition of its input, and two inputs with the same text have the same whole seconds |
| `Duration.FormatDurationExamples` | chore-app-ui/src/App.tsx:27-36 | 0 formats as `"0d 0h 0m 0s"` and 90061000 as `"1d 1h 1m 1s"` |
| `Countdown.Remaining` | chore-app-ui/src/App.tsx:72-79 | `max(due - now, 0)`: never negative, at least `due - now`, equal to it or to 0, and 0 exactly when `due <= now` |
| `Countdown.CountdownText` | chore-app-ui/src/App.tsx:91-95 | the countdown line is `"Overdue"` exactly when the remaining time is 0, and otherwise is the formatted remaining time followed by `" remaining"` |
| `Countdown.DisplayCases` | chore-app-ui/src/App.tsx:72-95 | a card shows `"Overdue"` exactly when its due instant is not in the future; otherwise the line reads back to the decomposition of `due - now`, never a negative duration |
| `Countdown.TickNeverIncreases` | chore-app-ui/src/App.tsx:77-83 | as the clock moves forward between ticks, the remaining time and the whole seconds shown never grow, and an overdue card stays overdue |
| `Chores.Appended` | chore-app-ui/src/App.tsx:243 | the old list is kept as a prefix and the new chore is the one last entry |
| `Chores.CountId` | chore-app-ui/src/App.tsx:257 | helper with no counterpart in the source, counting the entries the filter drops: at most the list's length, and zero exactly when no entry carries the id (so `RemoveId` shortens the list exactly when the id is present) |
| `Chores.RemoveId` | chore-app-ui/src/App.tsx:257 | after a delete, a chore is in the list exactly when it was before and has another id; the length drops by the number of entries with that id; the result is a subsequence of the old list, so the order is kept |
| `Chores.RemoveIdConcat` | chore-app-ui/src/App.tsx:257 | filtering a joined list filters each part, so relative order is preserved piecewise |
| `Chores.RemoveIdAbsent` | chore-app-ui/src/App.tsx:257 | deleting an id no entry carries leaves the list unchanged |
| `Chores.RemoveIdIdempotent` | chore-app-ui/src/App.tsx:257 | deleting twice by the same id equals deleting once |
| `Chores.TouchId` | chore-app-ui/src/App.tsx:274-280 | after a touch, length and order are unchanged; entries with another id are identical; entries with the id take the reply's `dueDate` and `updatedDate` and keep `id`, `name`, `description`, `frequency` and `createdDate` |
| `Chores.TouchIdIdempotent` | chore-app-ui/src/App.tsx:274-280 | touching twice with the same reply equals touching once |
| `Chores.TouchIdAbsent` | chore-app-ui/src/App.tsx:274-280 | a touch for an id no entry carries leaves the list unchanged |
| `Chores.RemoveTouchCommute` | chore-app-ui/src/App.tsx:250-280 | a delete and a touch applied one after the other give the same list in either order |
| `Chores.TouchAfterRemove` | chore-app-ui/src/App.tsx:250-280 | touching an id after deleting it changes nothing |
| `CreateForm.Optional` | chore-app-ui/src/App.tsx:129 | `text \|\| undefined` is absent exactly when the text is empty, and otherwise holds the text |
| `CreateForm.EnteredOptional` | chore-app-ui/src/App.tsx:129 | the optional description reads back as the text that was entered |
| `CreateForm.SubmitPayload` | chore-app-ui/src/App.tsx:124-133 | name, frequency and due instant pass through unchanged; the description is absent exactly when it was entered empty, and otherwise is what was entered |
| `Controller.Checked` | chore-app-ui/src/App.tsx:206-210 | a status-checked request yields a value exactly when it did not throw, its status is 200-299 and its body decoded; the value is that body |
| `Controller.Decoded` | chore-app-ui/src/App.tsx:238-241 | a request decoded without a status check yields a value exactly when it did not throw and its body decoded |
| `Controller.CheckedRefinesDecoded` | chore-app-ui/src/App.tsx:234-241 | the status check only rejects values: if a checked request yields a value, the unchecked one yields the same, and for an ok status the two agree |
| `Controller.App.constructor` | chore-app-ui/src/App.tsx:194-197 | a session starts with no chores, loading, no error and the form closed |
| `Controller.App.FetchChores` | chore-app-ui/src/App.tsx:199-221 | a good reply replaces the list wholesale and keeps the error; a throw, a non-ok status or an undecodable body keeps the list and sets the error to `"Failed to load chores"`; `loading` ends false in every case; the form flag is untouched |
| `Controller.App.CreateChore` | chore-app-ui/src/App.tsx:223-248 | when the PUT is ok with a decoded id and the GET of that id decodes, the fetched chore is appended and the form closes; otherwise list and form are unchanged and the error is `"Failed to create chore"`; `loading` is untouched |
| `Controller.App.DeleteChore` | chore-app-ui/src/App.tsx:250-261 | whenever the request does not throw, whatever the status, the list becomes `RemoveId` of the old list; on a throw the list is unchanged and the error is `"Failed to delete chore"` |
| `Controller.App.TouchChore` | chore-app-ui/src/App.tsx:263-284 | a good reply makes the list `TouchId` of the old list with the reply; a throw, a non-ok status or an undecodable body keeps the list and sets the error to `"Failed to touch chore"` |
| `Controller.App.OpenCreate` | chore-app-ui/src/App.tsx:290 | the create button opens the form and changes nothing else |
| `Controller.App.CancelCreate` | chore-app-ui/src/App.tsx:297 | the form's cancel closes it and changes nothing else |
| `Controller.StartWithFailedLoad` | chore-app-ui/src/App.tsx:194-221 | a session whose initial load fails ends with an empty list, not loading, the load error shown and the form closed |

## Left out

- `chore-app-ui/src/api.ts`: a set of `fetch` wrappers that `App.tsx` does not use; it holds no logic and only lends the `CreateChorePayload` type, modelled as `CreateForm.Payload`.
- The HTTP requests themselves, JSON decoding and the base-URL setting `VITE_API_BASE_URL`: these are I/O and configuration. Their outcomes are inputs (`Controller.Fetch`).
- `normalizeDueDate` and `formatLocalDateTime`: they depend on the JavaScript `Date` constructor's time-zone handling, day overflow, `toISOString` and `toLocaleString`. `CreateForm.SubmitPayload` takes the normalised due instant as a parameter.
- Parsing of `chore.dueDate` by `new Date(...).getTime()`: the due instant is an integer parameter. An unparsable date gives `NaN` in the source, and the card then shows "Overdue"; that case is not modelled.
- JavaScript numbers are IEEE doubles. The model uses unbounded integers, which agree with the source for whole-millisecond values below 2^53. `${n}` prints decimal digits only below 10^21, which days, hours, minutes and seconds stay under for any such value.
- Duration.FormatDuration: defined for non-negative inputs only; the source's only caller passes a positive remaining time, and what `Math.floor` and JavaScript's `%` do with a negative count is not modelled.
- The `setInterval`/`clearInterval` tick and React's effect and re-render rules: timer and framework plumbing. Only the value each tick recomputes is modelled (`Countdown.Remaining`, `Countdown.TickNeverIncreases`).
- Races between concurrent responses: the handlers' updates interleave at the network layer, which a sequential model does not capture. `Chores.RemoveTouchCommute` shows that a delete and a touch applied in either order agree.
- JSX rendering, the "Loading…" and "No chores yet" lines, `console.error`, and the form's browser-enforced `required` and `min` attributes: UI, not the code's own logic.
- Controller.App.CreateChore: the PUT reply's body is modelled as the new chore's id string. A body without an `id` field, which makes the source request `/items/undefined`, is not distinguished from any other id.
- Controller.App.FetchChores: the decoded body is typed as a list of chores. The annotation `data: Chore[]` is not checked at run time, so a 200 reply with a body of another shape (not an array, or entries missing fields) replaces the list in the source; the model does not represent such a body.
- Controller.App.TouchChore: the decoded body is typed as a `TouchReply` with both dates. A reply missing `dueDate` or `updatedDate` makes the source overlay `undefined` on those fields; the model does not represent such a body.
- Controller.App.CreateChore: the body of the GET reply is typed as a chore. A decoded body of another shape, such as an error object sent with a 404, is not represented, although the source would append it too.
