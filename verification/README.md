# Contact-form gatekeeper of a portfolio page, in Dafny

This project models the logic of the portfolio site's client script
`main.js` that decides things, and proves properties of it:

- `SecurityUtils.validateName` and `SecurityUtils.validateEmail`, the two
  regular-expression checks on the form fields. They are written out as scans
  over the characters, with the JavaScript meaning of `\s`, `trim` and
  `.length` made explicit (`js_text.dfy`, `validators.dfy`).
- `SecurityUtils.rateLimiter`, a fixed-window counter. Its two fields live in a
  class updated in place by `CanSubmit` and `RecordAttempt`, specified by the
  value-level functions `Refreshed` and `Recorded` (`rate_limiter.dfy`).
- The contact form's `submit` listener: rate-limit check, then the field rules
  in order (first failure wins), then record the attempt and send while the
  submit button is busy (`gatekeeper.dfy`). `Decide` is the handler as a
  function of the limiter fields, the clock and the raw fields. `HandleSubmit`
  is the handler as a method over a `RateLimiter` and a `SubmitButton`, and is
  proved equal to `Decide`. `Run` folds `Decide` over a page session, so that
  budget properties of several submissions can be stated.
- The navigation handlers (`navigation.dfy`): the click handler's target-id
  check, and the section observer that clears `active` from every nav item and
  sets it on the first element whose `href` is `#id`. The observer update is an
  in-place loop over an `active` array.

Modelling choices:

- `Date.now()` is an explicit `now: int` argument, in milliseconds. The
  handler reads the clock twice within one synchronous run (in `canSubmit` and
  in `recordAttempt`), and the model uses one instant for both.
- `maxAttempts` (3) and `cooldown` (60000 ms) are object fields that nothing
  ever writes, so they are module constants `MaxAttempts` and `CooldownMs`.
  "They never change" therefore holds by construction.
- Strings are `seq<char>` of Unicode scalar values. JavaScript's `.length`
  counts UTF-16 code units, so the email bound and the message bounds use
  `Utf16Length`, where a character outside the Basic Multilingual Plane counts
  two. The regular expressions have no `u` flag and so match code units. For
  the classes used here this is the same as matching characters: every
  character `[a-zA-Z\s'-]` admits is in the Basic Multilingual Plane, and both
  halves of a surrogate pair fall in `[^\s@]`.
- `IsWhitespace` is ECMAScript's `\s`: WhiteSpace and LineTerminator, meaning
  TAB, LF, VT, FF, CR, SPACE, U+00A0, U+1680, U+2000–U+200A, U+2028, U+2029,
  U+202F, U+205F, U+3000 and U+FEFF. This assumes the Unicode "Zs" set of
  current engines. `String.prototype.trim` strips the same set.
- `FormData.get` returning `null` is `None`. The test `!name` on the trimmed
  value is `Blank`: absent or empty.
- The simulated send is the `sendOk` argument, and the model's `SimulatedSend`
  may run only while the button is busy. As written, the source's two-second
  timer promise never rejects. The `catch` branch is entered only when
  `showMessage` itself throws (no `#successMessage` element on the page), and
  its own `showMessage` call then throws too, so its text is never shown. The
  model treats a failing send as showing that text, as a real endpoint would
  need.
- `document.querySelector('[href="#id"]')` searches the whole document, not
  only the nav items. The model therefore takes every `href`-carrying element
  in document order (`Link`), with a flag marking the `.nav-item` links.
  Clearing touches only nav items. The mark goes to the first match, whether
  or not it is a nav item.

## Model

| member | source | states |
|---|---|---|
| `JsText.IsWhitespace` | main.js:12-18 | the `\s` class and the set `trim` strips; every member lies in the Basic Multilingual Plane |
| `JsText.Utf16Length` | main.js:190 | `.length` counts code units: at least the character count and at most twice it, and equal to it exactly when no character lies outside the Basic Multilingual Plane |
| `JsText.Utf16LengthAppend` | main.js:190 | the length of a concatenation is the sum of the lengths |
| `JsText.Trim` | main.js:170-172 | `trim` returns a slice of its input with only whitespace cut on either side and no whitespace at either end; it is empty exactly when the input is all whitespace |
| `JsText.TrimOfUnique` | main.js:170-172 | that characterisation of `trim` determines the result uniquely |
| `JsText.TrimIdempotent` | main.js:170-172 | trimming a trimmed field changes nothing |
| `Validators.ValidName` | main.js:17-19 | `validateName` holds iff the name has 2 to 50 characters, all ASCII letters, whitespace, `'` or `-`; an accepted name's code-unit length equals its character count |
| `Validators.ValidEmail` | main.js:11-14 | an accepted address has at least 5 characters, at most 100 code units, and contains an `@` |
| `Validators.ValidEmailMeaning` | main.js:11-14 | `validateEmail` holds iff the string is at most 100 code units, has exactly one `@` and no whitespace, has a non-empty part before the `@`, and has a `.` after the `@` that is neither the first nor the last character of the part after the `@` |
| `Validators.NameExampleAccepted` | main.js:17-19 | `Anna-Marie O'Brien` is a valid name |
| `Validators.NameExamplesRejected` | main.js:17-19 | `A` (too short) and `Anna123` (digits) are rejected |
| `Validators.NameNeedsNoLetter` | main.js:18 | the pattern accepts names with no letter (`--`, `'-'`) and names with a tab inside |
| `Validators.EmailExampleAccepted` | main.js:11-14 | `a@b.co` is a valid address |
| `Validators.EmailExampleRejected` | main.js:11-14 | `not-an-email` is rejected |
| `Validators.LongEmailRejected` | main.js:13 | an address whose local part, `@` and domain add up to more than 100 code units is rejected, however well-formed |
| `RateLimiting.Refreshed` | main.js:29-35 | the fields `canSubmit` leaves: the counter is cleared iff more than the cooldown has passed since the last attempt; `lastAttempt` is kept and the counter never grows |
| `RateLimiting.CanSubmitAnswer` | main.js:29-35 | `canSubmit` answers yes exactly when more than the cooldown has passed since the last attempt or fewer than `maxAttempts` attempts are recorded |
| `RateLimiting.Recorded` | main.js:37-40 | `recordAttempt` adds one attempt stamped now; a check at that same instant clears nothing; the new count is within `maxAttempts` iff the check allowed |
| `RateLimiting.ExpiredWindowAllows` | main.js:31-34 | after the cooldown `canSubmit` answers yes and the count is 0, whatever it was |
| `RateLimiting.LiveWindowDecides` | main.js:31-34 | within the cooldown `canSubmit` answers exactly `attempts < maxAttempts` |
| `RateLimiting.RefreshedIdempotent` | main.js:29-35 | repeated checks at one instant consume nothing |
| `RateLimiting.RecordAfterAllowStaysBounded` | main.js:34-39 | an allowed check followed by a record never takes the counter past `maxAttempts` |
| `RateLimiting.RateLimiter.constructor` | main.js:23-27 | the limiter starts with `attempts = 0` and `lastAttempt = 0` |
| `RateLimiting.RateLimiter.CanSubmit` | main.js:29-35 | updates the fields in place as `Refreshed` says (never touches `lastAttempt`, never increases `attempts`) and answers `attempts < maxAttempts` on the new fields, which is `CanSubmitAnswer` on the old ones |
| `RateLimiting.RateLimiter.RecordAttempt` | main.js:37-40 | `attempts` grows by one and `lastAttempt` becomes `now` |
| `Gatekeeper.Validate` | main.js:169-193 | the field rules alone never report a rate limit |
| `Gatekeeper.ValidateFirstFailure` | main.js:169-193 | the field rules report the first failure in order (missing or blank field, name, email, message length) and accept exactly when none fails |
| `Gatekeeper.Decide` | main.js:164-196 | rate-limited iff the refreshed limiter denies; every rejection leaves the limiter exactly as `canSubmit` left it; acceptance records once; the bound `attempts <= maxAttempts` is preserved |
| `Gatekeeper.AcceptedIffAllRulesPass` | main.js:164-196 | accepted iff the limiter allows and all three trimmed fields are present and non-blank, the name and email are valid and the message has 10 to 1000 code units |
| `Gatekeeper.RateLimitComesFirst` | main.js:164-167 | whether a submission is rate-limited does not depend on its fields |
| `Gatekeeper.MissingFieldBeforePatterns` | main.js:169-178 | when the limiter allows, a missing or blank field is reported iff some field is missing or blank, before any pattern |
| `Gatekeeper.PatternsInOrder` | main.js:180-193 | with all fields present, the name is checked first, then the email, then the message length, and the first failure is reported |
| `Gatekeeper.MessageLengthBoundary` | main.js:190-193 | with valid name and email, only the message length decides: 10 and 1000 pass, 9 and 1001 give `BadMessageLength` |
| `Gatekeeper.EmptyMessageNotCounted` | main.js:172-178 | an empty message is a missing field and does not advance the counter |
| `Gatekeeper.DecideWellFormed` | main.js:164-196 | on fields that pass every rule, only the limiter decides |
| `Gatekeeper.WindowBudget` | main.js:29-40 | while clock readings stay in one cooldown window after the last recorded attempt, the counter is never cleared and rises by one per acceptance, so at most `maxAttempts - attempts` more are accepted |
| `Gatekeeper.FreshPageBudget` | main.js:23-40 | from page load, no set of submissions inside one cooldown window gets more than 3 accepted |
| `Gatekeeper.WellFormedRun` | main.js:29-40 | valid submissions inside the window: the i-th is accepted iff `attempts + i < 3`, otherwise rate-limited |
| `Gatekeeper.ExactlyMaxAttemptsAccepted` | main.js:23-40 | from page load, valid submissions within the cooldown of the first: exactly the first three are accepted, all later ones rate-limited |
| `Gatekeeper.NoticeFor` | main.js:165-212 | the message shown is an error message unless the submission was accepted and the send went through |
| `Gatekeeper.SubmitButton.constructor` | main.js:214-217 | the button starts free, as the page shows it |
| `Gatekeeper.SimulatedSend` | main.js:199-210 | the send runs only while the button is busy, and its result is the one the caller chose |
| `Gatekeeper.HandleSubmit` | main.js:157-219 | the handler's verdict and new limiter fields equal `Decide`; the notice is `NoticeFor`; the form is reset iff accepted and delivered; an accepted submission leaves the button not busy whether the send succeeded or failed; a rejection leaves the button untouched |
| `Gatekeeper.ThreeThenRateLimited` | main.js:157-219 | four submissions of valid data within a minute give accepted, accepted, accepted (one of them with a failed send), rate-limited, and the button ends free |
| `Navigation.ValidTargetId` | main.js:116 | the id check holds iff the id starts with an ASCII letter followed only by letters, digits, `-` or `_` |
| `Navigation.ClickTarget` | main.js:113-116 | a click targets the href minus its first code unit iff that id passes the check, and otherwise does nothing; an href starting outside the Basic Multilingual Plane never has a target |
| `Navigation.AstralFirstHasNoTarget` | main.js:113-116 | `substring(1)` leaves a lone surrogate after a non-BMP first character, so such a click does nothing |
| `Navigation.ClickTargetOfFragment` | main.js:113-116 | a link `#id` leads to `id` exactly when `id` passes the check |
| `Navigation.ValidTargetIdIsInert` | main.js:115-116 | an accepted id holds no whitespace, quote, backslash or `#` |
| `Navigation.FirstWithHref` | main.js:145 | the lookup finds the first element in document order whose href is the target, or none |
| `Navigation.Highlighted` | main.js:141-148 | after one highlight no two nav items are active, and an element outside the nav never loses the class |
| `Navigation.HighlightedExactFlags` | main.js:141-148 | after a highlight, a nav item is active iff it is the first element linking to `#id`; any other element is active iff it was before or it is that first element |
| `Navigation.Highlight` | main.js:139-148 | the in-place clear-then-mark loop leaves the flags as `Highlighted` describes |
| `Navigation.LastIntersectingIndex` | main.js:137-138 | finds the last intersecting entry of a batch, or reports that none intersects |
| `Navigation.AfterEntries` | main.js:136-150 | handling a batch of observer entries in order never takes the class from an element outside the nav |
| `Navigation.AfterEntriesOutsideNav` | main.js:136-150 | after a batch, an element outside the nav is active iff it was before or it is the first element linking to the section of some intersecting entry |
| `Navigation.LastEntryDecides` | main.js:136-150 | after a batch, the nav items are exactly as the last intersecting entry alone would set them; a batch with none leaves every flag as it was |
| `Navigation.OnSectionEntries` | main.js:136-150 | the observer callback processes its entries in order, as `AfterEntries` describes |

## Left out

- The cursor follower and the interactive background dots (main.js:44-107): floating-point easing, `Math.random`, distances and animation frames.
- `sanitizeHTML` (main.js:4-8): its meaning is the browser's `textContent` to `innerHTML` serialisation, which is not part of this model.
- `showMessage` (main.js:222-231) and its 4-second hide timer: the model stops at which message is shown (`NoticeFor`).
- The two-second simulated send (main.js:205): it is the `sendOk` argument. Interleaving with other events during the `await` is not modelled, since the handler runs as one step. In particular, `pointer-events: none` blocks clicks, but it does not stop a keyboard submission during the wait.
- `throttle`, hover effects and `initializeAnimations` with its reveal observer (main.js:233-289): timer and style plumbing with no decision in it.
- Smooth scrolling, `history.pushState`, `getElementById` on the click target, the initial-hash scroll, the keyboard, context-menu, error and `beforeunload` listeners (main.js:118-130, 291-346): DOM and browser plumbing. `ClickTarget` ends at the id that would be scrolled to.
- Navigation.Highlight: treats the selector `[href="#id"]` as exact `href` equality. A section id with a quote, a backslash or a line break would make the CSS selector malformed or escape-interpreted, and that case is not modelled.
- The one-shot counter, skill-bar and lazy-image observers and the theme toggle are not in `main.js`, so they are not part of this model.
