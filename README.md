# Dringo waitlist registration, modelled in Dafny

Dringo is a landing page that collects email addresses for a waitlist. This
project models the part of it with precise behaviour, the registration
workflow, in two places:

- **The server** (`Server.js`). The handler for `POST /api/waitlist` checks the
  body's `email` against `/^[^\s@]+@[^\s@]+\.[^\s@]+$/`. It then loads
  `waitlist.json` (a missing file counts as an empty list) and rejects an
  address that some stored entry matches case-insensitively. Otherwise it
  appends `{email, ts}` and overwrites the file. It answers 200, 400 or 409.
- **The browser** (`app.js`). The submit handler trims the input, applies the
  same check and posts the address with `fetch` in `no-cors` mode. The
  response is opaque, so any call that does not throw counts as accepted. When
  `fetch` throws, `saveToLocalWaitlist` applies the same dedup-and-append rule
  to a list kept in `localStorage`. The handler then shows one of three
  messages, clears the input only on success and re-enables the button. The
  theme toggle and the FAQ accordion toggle are modelled too.

Modules:

- `Email` (email.dfy): the pattern, `trim` and lower-casing. `IsSpace` is
  JavaScript's `\s` class, which is also the set `trim` removes.
  `MatchesEmailPattern` is the regex's language, written as "some split
  `L@D.T` exists". `IsValidEmail` is the equivalent scan: no whitespace,
  exactly one `@`, something before it, and a `.` after it that is neither
  the first nor the last character of that part.
- `Waitlist` (waitlist.dfy): the entry record and the `some` duplicate test
  (`Contains`). `Unique` is the store invariant: no two entries are equal
  under case-insensitive comparison. `Admit` is the dedup-and-append rule
  both paths share.
- `Server` (server.dfy): `Register` is one request as a function of the file's
  state. It also records the file-system calls made (`existsSync`,
  `readFileSync`, `writeFileSync`), so "neither read nor written" can be
  stated. The class `Host` runs the handler body against that state.
- `App` (app.dfy): the `LocalStorage` class, the `WaitlistForm` class
  (`submitWaitlist` and the submit handler), `ThemeToggle` and `AccordionItem`.
  The form records every `fetch` call together with the button's state and
  the message line at that moment.

Two behaviours of the code worth stating plainly:

- **Unreadable file on the server.** `JSON.parse` throws at Server.js:20, or
  `item.email.toLowerCase()` throws at Server.js:22, and nothing catches
  either. The model ends such a request with `Uncaught`, after the read and
  before any write.
- **The "Saving..." message.** The submit handler sets it at app.js:202.
  `submitWaitlist` blanks the message again at app.js:161, before `fetch` is
  awaited, so the model shows a blank message line while the call is pending.

## Model

| member | source | states |
|---|---|---|
| `Email.IsValidEmailMatchesPattern` | Server.js:13 | The scan accepts a string exactly when the regex `^[^\s@]+@[^\s@]+\.[^\s@]+$` matches it: no whitespace, exactly one `@`, a non-empty part before it, and a `.` after it that is not the first or last character of that part. |
| `Email.ValidEmailMatches` | app.js:195 | Every string the scan accepts has an `L@D.T` split with all three parts non-empty runs of `[^\s@]`. |
| `Email.MatchIsValidEmail` | Server.js:13 | Every string with such a split passes the scan, and its `@` is the only one. |
| `Email.CaseVariantStaysValid` | Server.js:13-22 | A case variant of an address that passes the check passes it too. |
| `Email.TrimStart` | app.js:194 | Removes exactly the leading whitespace: what is dropped is all whitespace, and the result starts with a non-space. |
| `Email.TrimEnd` | app.js:194 | Removes exactly the trailing whitespace. |
| `Email.Trim` | app.js:194 | The result is the slice of the input between its leading and its trailing whitespace, and neither end of it is whitespace. It is empty exactly when the input is all whitespace, and an input without whitespace comes back unchanged. |
| `Waitlist.Contains` | Server.js:22 | The `some` test holds exactly when some entry's email equals the address after lower-casing both. |
| `Waitlist.UniqueMatchesAtMostOnce` | Server.js:22-25 | In a list that keeps the invariant, at most one entry matches any address. |
| `Waitlist.CountAfterAppend` | Server.js:25 | `push` of one entry adds one match for exactly the addresses that entry matches. |
| `Waitlist.AppendKeepsUnique` | Server.js:22-25 | Appending an address that no entry matches keeps the no-duplicates invariant. |
| `Waitlist.Admit` | Server.js:22-25 | The shared rule refuses exactly the addresses some entry matches. Otherwise it appends one entry at the end and leaves earlier entries unchanged. Afterwards exactly one entry matches the address and the invariant still holds. |
| `Waitlist.AdmitThenCaseVariant` | app.js:147-152 | Admitting an address and then a case variant of it: the first is appended, the second is refused, and one entry matches. |
| `Server.StatusCode` | Server.js:13-27 | 200 for success, 400 for an invalid email, 409 for a duplicate. |
| `Server.Register` | Server.js:11-28 | 400 exactly when the email is missing, empty or fails the regex, and then no file call is made. An unreadable file aborts the request after the read and without a write. 409 exactly when a stored entry matches case-insensitively, and the file is unchanged. Only a success writes: the old list (empty if the file was missing) plus one `{email, ts}` at the end holding the raw address. Every outcome keeps the invariant. |
| `Server.MissingActsAsEmpty` | Server.js:18-21 | A missing file gives the same outcome as a file holding `[]` and, once the address passes validation, the same resulting file. |
| `Server.RegisterThenCaseVariant` | Server.js:22-27 | Registering a new valid address succeeds. A case variant then gets 409 and leaves the file as the first call wrote it, and exactly one entry matches. |
| `Server.Host.PostWaitlist` | Server.js:12-27 | The handler body's outcome, new file and file-system calls are those of `Register`; earlier calls are kept. |
| `App.SaveLocally` | app.js:142-156 | Returns true exactly when the stored list parses, no entry matches case-insensitively and `setItem` succeeds; then exactly one `{email, ts}` is appended. On a duplicate or any failure it returns false and the store is unchanged. The invariant is preserved. |
| `App.SaveThenCaseVariant` | app.js:147-152 | Saving a new address and then a case variant returns true then false, leaves the store unchanged by the second call, and one entry matches. |
| `App.LocalStorage.SetTheme` | app.js:25 | `setItem('dringo-theme', v)` stores `v` and reports success, or changes nothing when the write throws. |
| `App.LocalStorage.SaveToLocalWaitlist` | app.js:142-156 | The method's return value and the new store contents are those of `SaveLocally`. |
| `App.Text` | app.js:196-210 | Only the blank message has empty text. |
| `App.TextsDiffer` | app.js:205-211 | Different messages have different texts. |
| `App.ResultMessage` | app.js:205-211 | The "Thanks" message exactly for a remote send. The "Saved locally" message exactly for a local add. The "already on the waitlist" message exactly when neither happened. |
| `App.WaitlistForm.SubmitWaitlist` | app.js:158-187 | Makes exactly one `fetch` call, with the button disabled (if it exists) and the message blank while the call is pending. If `fetch` does not throw, the result is `{remote:true}` and the local store is untouched. If it throws, the local fallback result and store come from `SaveLocally`. |
| `App.WaitlistForm.OnSubmit` | app.js:190-224 | If the trimmed input is empty or fails the regex: the invalid message, focus, no `fetch`, and no change to the local store or the button. Otherwise the trimmed address is submitted and the message is chosen three ways. The input is cleared exactly on a remote send or a local add, and the button ends enabled. |
| `App.WaitlistForm.ShowResult` | app.js:205-223 | The message matches the result, the input is cleared exactly on success, and the button is enabled again. |
| `App.NextTheme` | app.js:23 | The next theme is `light` exactly when the current one is `dark`, and `dark` otherwise. |
| `App.PressedFor` | app.js:26 | `aria-pressed` is `"true"` exactly when the theme is dark, and `"false"` otherwise. |
| `App.TwoClicksRestoreTheme` | app.js:22-27 | Two theme clicks starting from `dark` (or `light`) return to it. |
| `App.ThemeToggle.constructor` | app.js:20-21 | A saved theme that is neither absent nor empty replaces the markup's `data-theme`. |
| `App.ThemeToggle.Click` | app.js:22-27 | `data-theme` becomes the next theme. The same value is stored under `dringo-theme`, and `aria-pressed` is set to whether it is dark. If `setItem` throws, the handler stops before setting `aria-pressed`. |
| `App.AccordionItem.Click` | app.js:121-131 | `aria-expanded` flips. A panel, if present, becomes hidden exactly when the item was expanded before. Afterwards the panel is shown exactly when the item is expanded, whatever the state before. |

## Left out

- Express wiring: JSON body parsing, static file serving and `listen` (Server.js:1-8, 30-36). These are framework I/O.
- Real file and `localStorage` I/O. Each store is a value: missing or empty, malformed, or a list of entries. JSON serialisation and its round trip are not modelled; neither is the pretty-printing of the file.
- A body `email` that is neither absent nor a string (a number, an array). The model takes the field as absent or a string.
- Partly malformed lists. Since `some` stops at the first match, a malformed record after a matching one does not throw in the source. The model treats any malformed content as throwing.
- A failing `writeFileSync` on the server. In the model the write always succeeds.
- A failing `localStorage.getItem`. Storage that refuses reads already makes the script throw at app.js:20, before any handler exists.
- The status code of an uncaught exception on the server. That response comes from Express's error handling, which is not part of this model.
- Lower: only ASCII letters are lower-cased. JavaScript's `toLowerCase` uses full Unicode case mapping, so case-insensitive matches between non-ASCII letters are not captured.
- The network call itself: URL, URL-encoded body, and the `console.error` on failure. It is reduced to whether the awaited `fetch` throws.
- Timestamps. `new Date().toISOString()` becomes an opaque string parameter.
- Concurrency: two server requests racing on the file, and the input being edited while `fetch` is pending.
- TwoClicksRestoreTheme: only states the round trip from `dark` or `light`. From any other `data-theme` value, the first click goes to `dark`.
- The message fade-in animation (`animate`) and the rest of the page script: smooth scroll and active-link tracking, the scroll progress bar, back-to-top, parallax, reveal-on-scroll, the mobile navigation toggle, focusing the input from `#email`, and the footer year. These are DOM or floating-point presentation logic.
