# Pin-the-map widget: the client's pin lifecycle, in Dafny

This project models the client-side pin logic of a collaborative "pin-the-map" page
(`script.js`). Users click an image to drop a coloured pin. Pins sync through a realtime
database, expire 60 seconds after they are created, and can be deleted by their creator.

The page keeps its state in the DOM. The model lifts it into an explicit `Session.State`:

- `pins`: the `.pin` elements in document order. Each has an element identity and the
  data attributes `key`, `color`, `createdBy`, `createdAt` and `createdAtMs`, plus a
  position.
- `currentColor`: the chosen colour.
- `selected`: the selected element, which may since have been detached.
- `backend`: whether a database is configured.
- `id`: the identity, i.e. `authReady`, `authUid` and `sessionId`.

Every event handler is one pure transition (`Machine.Step`). `Step` takes a `CreateRule`
that says which image-click handler runs. `AsWritten` is the handler in `script.js`.
`Intended` is the corrected one from the Findings below. The two differ only without a
backend. The handlers are:

- a colour choice;
- a click on the image (create);
- a click on a pin (select);
- the delete button;
- the backend's `child_added` and `child_removed`;
- the firing of a pin's delete timer.

Alerts become `PinError` results. Writes to the backend and timers are emitted as
`Request`s: `PushPin`, `RemovePin` and `ScheduleExpiry`. Clock readings arrive as fields
of the events. ISO-date parsing is a parameter `parseIso`.

Modules:

- `Wrappers`: `Option`.
- `Js`: JavaScript truthiness, `||`, and the `"undefined"` string rendering.
- `PinSet`: the pin records, placeholder keys, `clamp01`, and the DOM queries. Queries
  return the first match in document order.
- `Expiry`: the integer-millisecond expiry arithmetic.
- `Session`: the state and the user-driven handlers.
- `Sync`: the backend events and the timer firing.
- `Machine`: the dispatcher and its invariants.
- `Properties`, `Findings`, `Scenarios`: properties that span several handlers.

A reader of the page might expect otherwise in the following places. The model follows
the code:

- A pin created without a backend never expires. The image-click handler does not schedule a fade for the pin it creates.
  The timer's guard also requires a database.
- The delete timer fires at `remaining + 100` ms, 100 ms after the fade has ended.
- The starting opacity is only clamped from below. A creation time in the future gives
  an opacity above 1 (`Expiry.StartOpacity`).
- Without a backend the quota and colour rules never apply, although the alert texts
  (script.js:294, :301) announce them per session (see Findings).
- The quota is checked only when this client creates a pin, and `child_added` applies
  no limit. So with a backend, "at most 5 confirmed pins per user" is not an invariant
  of the client's state. Pins pushed before their `child_added` arrives are not counted.

## Model

| member | source | states |
|---|---|---|
| PinSet.TempKey | script.js:353-355 | a created pin's placeholder key starts with "temp-" and the creation instant can be read back from it, so distinct instants give distinct keys |
| PinSet.Clamp01 | script.js:57-59 | the result lies in [0, 1], equals the input inside that range, and is 0 below it and 1 above it |
| PinSet.FirstWithKey | script.js:174 | the element a key query finds is the first in document order with that key; none is found exactly when no element has the key |
| PinSet.RemoveFirstKey | script.js:259-260 | removing by key detaches only the first element with the key and keeps all others in order; an absent key changes nothing; with confirmed keys unique the key is gone afterwards |
| PinSet.RemoveElem | script.js:434 | detaching the selected element keeps every other element, adds none, and leaves no element with its identity |
| PinSet.Counted | script.js:280-281 | a pin is counted for an owner exactly when that owner created it and its key is not a placeholder, or when pending pins count as well |
| Expiry.PlanExpiry | script.js:65-75 | no timer is set exactly when creation + 60000 ms <= now; otherwise the timer fires at the absolute instant creation + 60100 ms, its delay is over 100 ms, and it is at most 60100 ms when the creation time is not in the future; a NaN creation time fires at once |
| Expiry.PlanDeadlineIsAbsolute | script.js:66-69 | scheduling the same pin at two instants aims both timers at the same absolute instant, or the later one finds the window over |
| Expiry.StartOpacity | script.js:77 | the starting opacity is never negative, is 0 exactly when the window is over, is at most 1 for a past creation time, and exceeds 1 for a future one |
| Expiry.StartOpacityNonIncreasing | script.js:77 | a pin seen later starts fainter |
| Session.Init | script.js:19-23 | a fresh page has no pins, no selection and colour "red" |
| Session.CreateCounting | script.js:269-376 | a click off the image does nothing and raises no alert; every alert leaves the state unchanged and requests nothing; `IdentityNotReady` exactly when a backend is configured without a signed-in user; the state changes exactly when the guard admits the click; then exactly one pin is appended, with a fresh element, a placeholder key "temp-" + the ISO instant, the current colour, the owner (signed-in user or session), both clock readings and the clicked point as fractions of the image, each clamped to [0, 1]; with a backend exactly one push of that pin's record is requested, without one nothing |
| Session.Create | script.js:277-303 | as written: `QuotaExceeded` exactly when the owner already has 5 or more confirmed pins; `DuplicateColor` exactly when they have fewer but one of them has the current colour; pending pins count for neither |
| Session.CreateIntended | script.js:277-303 | corrected: with a backend it is `Create`; without one, pending pins count, so 5 pins of the session refuse any further pin |
| Session.SelectPin | script.js:216-218 | clicking a shown element selects exactly that element and changes nothing else; an element no longer shown cannot be selected |
| Session.DeletePressed | script.js:416-439 | no selection does nothing; `NotOwner` exactly when the delete flag of the selection view is off, and then nothing changes; otherwise the selection is cleared, and with a backend and a key only a remote remove of that key is requested while the pins stay, and without one the selected element is detached and every other element kept in document order |
| Sync.AddPinFromData | script.js:172-213 | a key already shown changes nothing; otherwise the first pending pin with "temp-" + the record's createdAt is dropped, so the count stays the same when one existed and grows by one otherwise; the new pin has the backend key, the record's colour, "unknown" for a missing owner, the current ISO time for a missing createdAt, the parsed ISO time for a missing createdAtMs the record's fractions when both are present and its pixel offsets otherwise; a delete timer is requested exactly when the expiry plan calls for one |
| Sync.ChildRemoved | script.js:257-265 | only the first element with the key is detached, and the rest are kept; the selection is cleared exactly when the selected element carries that key; nothing else changes |
| Sync.FireExpiry | script.js:85-101 | the timer requests at most a remote remove of its own key; it requests nothing once the element is gone, without a backend, or with an empty key; with unique elements it requests the remove exactly when the element is shown and its owner is `authUid` or else `sessionId` |
| Machine.Step | script.js:245-266 | under either create rule, no transition changes the mode or the identity; without a backend nothing is ever requested; every alert leaves the state unchanged; a press of the delete button while the view has disabled it (script.js:236) does nothing, so a press never raises an alert |
| Machine.Run | script.js:245-266 | under either create rule, any sequence of events keeps the mode and the identity |
| Machine.CreateBy | script.js:277-303 | with a backend both create rules are the handler as written |
| Machine.Emitted | script.js:245-266 | without a backend, a run asks for no write and no timer, whatever its events |
| Machine.InitWellFormed | script.js:19-23 | a fresh page is well formed |
| Machine.StepKeepsWellFormed | script.js:172-186 | under either create rule, every handler keeps element identities fresh and unique, and keeps every confirmed key on at most one element |
| Machine.RunKeepsWellFormed | script.js:172-186 | the well-formedness of `StepKeepsWellFormed` holds after any sequence of events, under either create rule |
| Machine.StepKeepsLocalInvariants | script.js:277-303 | without a backend, with the corrected rule, every handler keeps all keys pending, at most 5 session pins, and no two of one colour |
| Machine.RunKeepsLocalInvariants | script.js:277-303 | with the corrected rule, the local invariants hold after any sequence of events |
| Machine.LocalSessionRespectsQuota | script.js:277-303 | with the corrected rule, from a fresh page without a backend, the session never holds more than 5 pins or two pins of one colour |
| Properties.ConfirmOwnPush | script.js:180-206 | a successful click with a backend, then the `child_added` for the record it pushed, leaves the earlier pins untouched and one pin equal to the pending one except for the backend key and a fresh element |
| Properties.ConfirmedPinCounts | script.js:280-281 | a confirmed pin of the owner adds exactly one to their quota count |
| Properties.AddPinIdempotent | script.js:173-177 | a `child_added` delivered a second time, at any time, changes nothing and requests nothing |
| Properties.ChildRemovedIdempotent | script.js:257-265 | a `child_removed` of a confirmed key delivered twice has the effect of one |
| Properties.CreateKeepsConfirmedPins | script.js:353-357 | a click on the image never changes any user's confirmed pins, since it only adds a pin under a placeholder key |
| Properties.TimerStandsDownAfterRemoval | script.js:90-97 | after `child_removed` of a confirmed pin, that pin's delete timer requests nothing |
| Properties.DeleteIffOwner | script.js:420-428 | after a shown pin is clicked, the delete button's own ownership test (signed-in user with a backend, session without one) refuses with `NotOwner` exactly when the delete flag the selection view computed for that pin (script.js:231) is off, and raises no other alert; the page disables the button in that case (script.js:236), so the handler's refusal is never reached through the page (`Machine.Step`) |
| Findings.LocalClicksAlwaysAccepted | script.js:279-303 | as written, without a backend and with every pin pending, every click on the image is accepted and adds a pin, however many pins the session has and whatever their colours; all pins stay pending |
| Findings.LocalClicksKeepOwnColor | script.js:298-357 | as written, without a backend, clicks keep every pin the session's own, pending and of the current colour |
| Findings.RunClicksAsWritten | script.js:269-357 | running the page as written on image clicks alone is applying the image-click handler to each click in turn |
| Findings.SixLocalPinsAsWritten | script.js:293-303 | the page as written (`Run` under `AsWritten`), given six clicks on a fresh page without a backend, leaves the session with six pins of one colour, which breaks both rules |
| Scenarios.SameColorTwiceRejected | script.js:299-303 | with a backend, a user's confirmed pin of the current colour makes a new click fail with `DuplicateColor` and change nothing |
| Scenarios.LateArrivalKeepsDeadline | script.js:66-75 | a pin first seen 45 s after its creation gets its delete timer 15100 ms later |
| Scenarios.ExpiredArrivalNotScheduled | script.js:71-75 | a pin whose window is over when it arrives is shown but gets no timer |
| Scenarios.OwnerLifecycle | script.js:269-439 | click, confirmation, a refused second red click, selection, delete, `child_removed` and the timer firing under the handlers as written end with no pins, having requested exactly the push, one delete timer 60090 ms out, and one remote remove, which the delete button asked for |

## Left out

- Session.DeletePressed: models the handler alone, so its `NotOwner` result also stands
  for a press on a button the selection view has disabled (script.js:236). The page ignores
  such a press with no alert; `Machine.Step` models that by doing nothing.
- Firebase initialisation, App Check, anonymous sign-in and the `onAuthStateChanged`
  wiring (script.js:128-169) are left out. The identity is plain state fields. The same
  goes for the case where the database appears only on `window.load`, after the
  listeners would have been registered.
- Session-id generation from `localStorage` and `Math.random` (script.js:38-53) is left
  out. `sessionId` is a given string, and the local quota lemmas assume it is non-empty,
  as that code guarantees.
- The `.then` branch after a successful push (script.js:378-411) is left out. It rewrites
  the pending element's key and may schedule a second fade. It races with `child_added`,
  and confirmation is modelled only through `child_added`. Failures of push and remove
  are only logged, so they are left out too.
- The `pin_logs` mirror write and the image export with html2canvas (script.js:383-394,
  441-539) are left out. They are I/O and third-party code.
- Rendering is left out: CSS styles, the opacity transition, `requestAnimationFrame`,
  and the Japanese timestamp text (script.js:220-228), which depends on the local time
  zone. So are console logging and the text of alerts.
- Floating point is left out. Coordinates are reals. A non-finite number is an absent
  value (`None`). A non-integer `createdAtMs` is not represented. NaN from a zero-width
  image is not modelled: the click carries its fractions of the image size.
- Expiry.PlanExpiry: the requested delay is not reduced to a browser timer's 32-bit
  range. A creation time far in the future, whose delay would overflow, is not modelled.
- Quotes inside keys or owner ids, which would break the CSS attribute selectors, are
  not modelled.

## Findings

| source | as written | input that shows it | evidently intended | confidence | as-written member | corrected member |
|---|---|---|---|---|---|---|
| script.js:279-303 | only pins whose key does not start with "temp-" count towards the quota of 5 and the one-per-colour rule; without a backend every pin keeps its "temp-" key, so neither rule ever applies | no backend, fresh page: six clicks on the image with the colour left at "red" | the per-session limit applies without a backend too, counting the session's pins there | medium; not executed | Findings.SixLocalPinsAsWritten | Machine.LocalSessionRespectsQuota |
