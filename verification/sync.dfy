/**
 What arrives from outside the page's own handlers: the backend's `child_added` and
 `child_removed` events on the pins collection, and the firing of a pin's delete timer.
 */
module Sync {
  import opened Wrappers
  import opened Js
  import opened PinSet
  import opened Expiry
  import opened Session

  /** The clock as read while handling an event: an ISO string and epoch milliseconds. */
  datatype Clock = Clock(nowIso: string, nowMs: int)

  /** The owner id written when a record has none. */
  const UnknownOwner: string := "unknown"

  /** The element built for a backend record `d` stored under `key`. */
  function PinFromRecord(st: State, key: string, d: Record, clock: Clock, parseIso: string -> Option<int>): Pin {
    var pos := if d.xPct.Some? && d.yPct.Some? then Fraction(d.xPct.value, d.yPct.value) else Pixels(d.x, d.y);
    var createdAt := Or(d.createdAt, clock.nowIso);
    Pin(st.nextElem, key, d.color, Or(d.createdBy, UnknownOwner), createdAt,
        CreatedAtTime(d.createdAtMs, createdAt, parseIso), pos)
  }

  /**
   `child_added` for record `d` under `key` (`addPinFromData`). A key already shown is
   ignored. Otherwise the first pending pin whose placeholder key carries the record's
   creation instant is dropped, the confirmed pin is appended, and its delete timer is
   scheduled from its own creation time.
   */
  function AddPinFromData(st: State, key: string, d: Record, clock: Clock, parseIso: string -> Option<int>): (r: Reply)
    ensures r.alert.None?
    ensures HasKey(st.pins, key) ==> r.state == st && r.requests == []
    ensures !HasKey(st.pins, key) ==>
      var tempKey := TempKey(Str(d.createdAt));
      && |r.state.pins| == (if HasKey(st.pins, tempKey) then |st.pins| else |st.pins| + 1)
      && r.state == st.(pins := r.state.pins, nextElem := st.nextElem + 1)
      && (forall q :: q in st.pins && q.key != tempKey ==> q in r.state.pins)
      && (forall q :: q in r.state.pins ==> q in st.pins || q == r.state.pins[|r.state.pins| - 1])
      && HasKey(r.state.pins, key)
      && r.state.pins[..|r.state.pins| - 1] == RemoveFirstKey(st.pins, tempKey)
    ensures !HasKey(st.pins, key) ==>
      var p := r.state.pins[|r.state.pins| - 1];
      && p.key == key && p.elem == st.nextElem && p.color == d.color
      && (Truthy(d.createdBy) ==> p.createdBy == d.createdBy.value)
      && (!Truthy(d.createdBy) ==> p.createdBy == UnknownOwner)
      && (Truthy(d.createdAt) ==> p.createdAt == d.createdAt.value)
      && (!Truthy(d.createdAt) ==> p.createdAt == clock.nowIso)
      && (d.createdAtMs.Some? ==> p.createdAtMs == d.createdAtMs)
      && (d.createdAtMs.None? ==> p.createdAtMs == parseIso(p.createdAt))
      && (d.xPct.Some? && d.yPct.Some? ==> p.pos == Fraction(d.xPct.value, d.yPct.value))
      && (!(d.xPct.Some? && d.yPct.Some?) ==> p.pos == Pixels(d.x, d.y))
    ensures !HasKey(st.pins, key) ==>
      match PlanExpiry(r.state.pins[|r.state.pins| - 1].createdAtMs, clock.nowMs)
      case AlreadyFaded => r.requests == []
      case DeleteAfter(delay) => r.requests == [ScheduleExpiry(st.nextElem, key, delay)]
  {
    if HasKey(st.pins, key) then Reply(st, [], None)
    else
      var rest := RemoveFirstKey(st.pins, TempKey(Str(d.createdAt)));
      var p := PinFromRecord(st, key, d, clock, parseIso);
      // scheduleFadeAndDelete falls back to parsing the ISO string once more, which
      // gives the value already stored.
      var timer := match PlanExpiry(CreatedAtTime(p.createdAtMs, p.createdAt, parseIso), clock.nowMs)
        case AlreadyFaded => []
        case DeleteAfter(delay) => [ScheduleExpiry(p.elem, key, delay)];
      Reply(st.(pins := rest + [p], nextElem := st.nextElem + 1), timer, None)
  }

  /**
   `child_removed` for `key`: the first element with that key is detached, and the
   selection is cleared when the selected element carries that key. Nothing else changes.
   */
  function ChildRemoved(st: State, key: string): (r: State)
    ensures !HasKey(st.pins, key) ==> r.pins == st.pins
    ensures HasKey(st.pins, key) ==> |r.pins| == |st.pins| - 1
    ensures HasKey(st.pins, key) ==>
      exists i :: 0 <= i < |st.pins| && st.pins[i].key == key
        && (forall j :: 0 <= j < i ==> st.pins[j].key != key)
        && r.pins == RemoveAt(st.pins, i)
    ensures forall q :: q in r.pins ==> q in st.pins
    ensures forall q :: q in st.pins && q.key != key ==> q in r.pins
    ensures ConfirmedKeysDistinct(st.pins) && !IsTemp(key) ==> !HasKey(r.pins, key)
    ensures r.selected.None? <==> st.selected.None? || st.selected.value.key == key
    ensures r.selected.Some? ==> r.selected == st.selected
    ensures r == st.(pins := r.pins, selected := r.selected)
  {
    var selected := if st.selected.Some? && st.selected.value.key == key then None else st.selected;
    st.(pins := RemoveFirstKey(st.pins, key), selected := selected)
  }

  /** The id the delete timer compares a pin's owner with: `authUid || sessionId`. */
  function ExpiryActor(st: State): string {
    Or(st.id.authUid, st.id.sessionId)
  }

  /**
   The delete timer of element `elem`, scheduled under `key`, fires. A remote remove is
   requested only when the element is still shown, a backend is configured, the key is
   not empty and the element's owner is the current actor; otherwise nothing happens.
   The state itself never changes.
   */
  function FireExpiry(st: State, elem: nat, key: string): (r: seq<Request>)
    ensures r == [] || r == [RemovePin(key)]
    ensures !HasElem(st.pins, elem) || !st.backend || key == "" ==> r == []
    ensures r != [] ==> exists i :: 0 <= i < |st.pins| && st.pins[i].elem == elem && st.pins[i].createdBy == ExpiryActor(st)
    ensures ElemsDistinct(st.pins) ==>
      (r != [] <==>
        && st.backend && key != ""
        && exists i :: 0 <= i < |st.pins| && st.pins[i].elem == elem && st.pins[i].createdBy == ExpiryActor(st))
  {
    match IndexOfElem(st.pins, elem)
    case None => []
    case Some(i) =>
      if st.backend && key != "" && st.pins[i].createdBy == ExpiryActor(st) then [RemovePin(key)] else []
  }
}
