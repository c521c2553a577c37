/**
 The page's state and the handlers a user drives: choosing a colour, clicking the
 image to drop a pin, clicking a pin to select it, and pressing the delete button.
 Alerts become `PinError`s; writes to the backend become `Request`s the handler emits.
 */
module Session {
  import opened Wrappers
  import opened Js
  import opened PinSet

  /** Who is acting: the anonymous sign-in state and the per-browser session id. */
  datatype Identity = Identity(authReady: bool, authUid: Option<string>, sessionId: string)

  /**
   Everything the handlers read and write. `backend` says whether a realtime database
   is configured; `selected` is the selected element, which may since have been detached;
   `nextElem` is the identity the next created element gets.
   */
  datatype State = State(
    pins: seq<Pin>,
    currentColor: string,
    selected: Option<Pin>,
    backend: bool,
    id: Identity,
    nextElem: nat)

  /** A pin record as stored in, and delivered by, the backend; absent or non-finite fields are None. */
  datatype Record = Record(
    xPct: Option<real>,
    yPct: Option<real>,
    x: Option<real>,
    y: Option<real>,
    color: string,
    createdAt: Option<string>,
    createdAtMs: Option<int>,
    createdBy: Option<string>)

  /** Writes and timers a handler asks the outside world for. */
  datatype Request =
    | PushPin(record: Record)
    | RemovePin(key: string)
    | ScheduleExpiry(elem: nat, key: string, delayMs: int)

  /** The alerts that abort an action. */
  datatype PinError = IdentityNotReady | QuotaExceeded | DuplicateColor | NotOwner

  /** A handler's outcome: the new state, what it asks for, and the alert it raised if any. */
  datatype Reply = Reply(state: State, requests: seq<Request>, alert: Option<PinError>)

  /** Pins one owner may hold at once. */
  const QuotaPerOwner: nat := 5

  /** The colour chosen before any radio button is touched. */
  const InitialColor: string := "red"

  /** A click on the wrapper: whether it hit the image, the click as fractions of the image's width and height, its pixel offset, and the clock read at that moment. */
  datatype Click = Click(
    onImage: bool,
    xRatio: real,
    yRatio: real,
    x: real,
    y: real,
    nowIso: string,
    nowMs: int)

  function Init(backend: bool, id: Identity): (st: State)
    ensures st.pins == [] && st.selected.None? && st.currentColor == InitialColor
  {
    State([], InitialColor, None, backend, id, 0)
  }

  /** Anonymous sign-in has reported and produced a user id. */
  predicate IdentityReady(id: Identity) {
    id.authReady && Truthy(id.authUid)
  }

  /** The id a new pin is recorded under: the signed-in user with a backend, the session otherwise. */
  function OwnerId(st: State): Option<string> {
    if st.backend then st.id.authUid else Some(st.id.sessionId)
  }

  /** Whether the current user may delete pin `p`: the flag the selection view computes when `p` is clicked. */
  predicate CanDelete(st: State, p: Pin) {
    if st.backend then Truthy(st.id.authUid) && p.createdBy == st.id.authUid.value
    else p.createdBy == st.id.sessionId
  }

  /** The pins counted against the current owner's quota; pending pins count only when `withPending`. */
  function QuotaPins(st: State, withPending: bool): seq<Pin> {
    var owner := OwnerId(st);
    if Truthy(owner) then Counted(st.pins, owner.value, withPending) else []
  }

  /** The guard a click on the image must pass before a pin is placed. */
  predicate Admits(st: State, c: Click, withPending: bool) {
    && c.onImage
    && (st.backend ==> IdentityReady(st.id))
    && |QuotaPins(st, withPending)| < QuotaPerOwner
    && !HasColor(QuotaPins(st, withPending), st.currentColor)
  }

  /** The pin placed by a successful click `c`. */
  function NewPin(st: State, c: Click): Pin {
    Pin(st.nextElem, TempKey(c.nowIso), st.currentColor, Or(OwnerId(st), st.id.sessionId),
        c.nowIso, Some(c.nowMs), Fraction(Clamp01(c.xRatio), Clamp01(c.yRatio)))
  }

  /**
   The image-click handler, with the quota counting pending pins or not. A click off
   the image is ignored; otherwise identity, quota and colour are checked in that order,
   and on success the pin is shown at once under its placeholder key and, with a
   backend, pushed.
   */
  function CreateCounting(st: State, c: Click, withPending: bool): (r: Reply)
    ensures !c.onImage ==> r == Reply(st, [], None)
    ensures r.alert.Some? ==> r.state == st && r.requests == []
    ensures r.alert == Some(IdentityNotReady) <==> c.onImage && st.backend && !IdentityReady(st.id)
    ensures r.state != st <==> Admits(st, c, withPending)
    ensures r.alert.None? && c.onImage ==> Admits(st, c, withPending)
    ensures Admits(st, c, withPending) ==> |r.state.pins| == |st.pins| + 1
    ensures Admits(st, c, withPending) ==>
      var p := r.state.pins[|st.pins|];
      && r.state == st.(pins := st.pins + [p], nextElem := st.nextElem + 1)
      && r.alert.None?
      && p.elem == st.nextElem
      && IsTemp(p.key) && p.key == TempKey(c.nowIso)
      && p.color == st.currentColor
      && p.createdBy == (if st.backend then st.id.authUid.value else st.id.sessionId)
      && p.createdAt == c.nowIso && p.createdAtMs == Some(c.nowMs)
      && p.pos == Fraction(Clamp01(c.xRatio), Clamp01(c.yRatio))
      && (st.backend ==> r.requests == [PushPin(Record(
            Some(p.pos.xPct), Some(p.pos.yPct), Some(c.x), Some(c.y),
            p.color, Some(p.createdAt), p.createdAtMs, Some(p.createdBy)))])
      && (!st.backend ==> r.requests == [])
  {
    if !c.onImage then Reply(st, [], None)
    else if st.backend && !IdentityReady(st.id) then Reply(st, [], Some(IdentityNotReady))
    else
      var userPins := QuotaPins(st, withPending);
      if |userPins| >= QuotaPerOwner then Reply(st, [], Some(QuotaExceeded))
      else if HasColor(userPins, st.currentColor) then Reply(st, [], Some(DuplicateColor))
      else
        var p := NewPin(st, c);
        // The handler re-checks identity before pushing; nothing can have changed it in between.
        var push := if st.backend then
          [PushPin(Record(Some(p.pos.xPct), Some(p.pos.yPct), Some(c.x), Some(c.y),
                          st.currentColor, Some(c.nowIso), Some(c.nowMs), st.id.authUid))]
        else [];
        Reply(st.(pins := st.pins + [p], nextElem := st.nextElem + 1), push, None)
  }

  /**
   The image-click handler as written: only confirmed pins (keys not starting with
   "temp-") count towards the quota of 5 and the one-pin-per-colour rule.
   */
  function Create(st: State, c: Click): (r: Reply)
    ensures r.alert == Some(QuotaExceeded) <==>
      c.onImage && (st.backend ==> IdentityReady(st.id)) && |QuotaPins(st, false)| >= QuotaPerOwner
    ensures r.alert == Some(DuplicateColor) <==>
      && c.onImage && (st.backend ==> IdentityReady(st.id)) && |QuotaPins(st, false)| < QuotaPerOwner
      && HasColor(QuotaPins(st, false), st.currentColor)
    ensures r.alert.Some? ==> r.state == st && r.requests == []
    ensures r.state != st <==> Admits(st, c, false)
  {
    CreateCounting(st, c, false)
  }

  /**
   The image-click handler as evidently intended: without a backend no pin is ever
   confirmed, so pending pins are counted there; with a backend it is `Create`.
   */
  function CreateIntended(st: State, c: Click): (r: Reply)
    ensures st.backend ==> r == Create(st, c)
    ensures !st.backend && c.onImage && |Counted(st.pins, st.id.sessionId, true)| >= QuotaPerOwner && st.id.sessionId != "" ==>
      r.alert == Some(QuotaExceeded) && r.state == st
    ensures r.state != st <==> Admits(st, c, !st.backend)
  {
    CreateCounting(st, c, !st.backend)
  }

  /** Clicking pin element `elem` selects it; an element no longer shown cannot be clicked. */
  function SelectPin(st: State, elem: nat): (r: State)
    ensures !HasElem(st.pins, elem) ==> r == st
    ensures HasElem(st.pins, elem) ==>
      r.selected.Some? && r.selected.value in st.pins && r.selected.value.elem == elem
      && r == st.(selected := r.selected)
  {
    match IndexOfElem(st.pins, elem)
    case None => st
    case Some(i) => st.(selected := Some(st.pins[i]))
  }

  /** The delete button is enabled exactly when a pin is selected that the user may delete. */
  predicate DeleteEnabled(st: State) {
    st.selected.Some? && CanDelete(st, st.selected.value)
  }

  /**
   The delete-button handler. Without a selection nothing happens; a pin of someone
   else raises `NotOwner`. Otherwise, with a backend and a key, only a remote remove is
   requested (the pin stays until the backend reports the removal); without one the
   element itself is detached. Either way the selection is cleared.
   */
  function DeletePressed(st: State): (r: Reply)
    ensures st.selected.None? ==> r == Reply(st, [], None)
    ensures st.selected.Some? ==> (r.alert == Some(NotOwner) <==> !DeleteEnabled(st))
    ensures r.alert.Some? ==> r.state == st && r.requests == []
    ensures DeleteEnabled(st) ==>
      var p := st.selected.value;
      && r.alert.None?
      && r.state.selected.None?
      && (st.backend && p.key != "" ==> r.state.pins == st.pins && r.requests == [RemovePin(p.key)])
      && (!(st.backend && p.key != "") ==>
            && r.requests == []
            && r.state.pins == RemoveElem(st.pins, p.elem)
            && (forall q :: q in r.state.pins ==> q in st.pins)
            && (forall q :: q in st.pins && q.elem != p.elem ==> q in r.state.pins)
            && (ElemsDistinct(st.pins) ==> !HasElem(r.state.pins, p.elem)))
      && r.state == st.(pins := r.state.pins, selected := None)
  {
    match st.selected
    case None => Reply(st, [], None)
    case Some(p) =>
      // The handler's own ownership test, written apart from the selection view's flag.
      var refused := if st.backend then !Truthy(st.id.authUid) || p.createdBy != st.id.authUid.value
                     else p.createdBy != st.id.sessionId;
      if refused then Reply(st, [], Some(NotOwner))
      else if st.backend && p.key != "" then
        Reply(st.(selected := None), [RemovePin(p.key)], None)
      else
        Reply(st.(pins := RemoveElem(st.pins, p.elem), selected := None), [], None)
  }
}
