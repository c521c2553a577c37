/**
 Properties that relate several handlers: reconciling a push with its `child_added`,
 delivering an event twice, creating never touching confirmed pins, and the delete
 timer standing down once the backend has removed the pin.
 */
module Properties {
  import opened Wrappers
  import opened Js
  import opened PinSet
  import opened Session
  import opened Sync
  import opened Machine

  /**
   A successful click with a backend, followed by the backend's `child_added` for the
   record it pushed, leaves one pin where the pending one was: same colour, owner,
   position and times, under the backend's key. The page's other pins are untouched.
   */
  lemma {:induction false} ConfirmOwnPush(st: State, c: Click, key: string, clock: Clock, parseIso: string -> Option<int>)
    requires st.backend && Admits(st, c, false)
    requires c.nowIso != ""
    requires !HasKey(st.pins, TempKey(c.nowIso))
    requires !HasKey(st.pins, key) && !IsTemp(key)
    ensures var r1 := Create(st, c);
      && |r1.requests| == 1 && r1.requests[0].PushPin?
      && var pending := r1.state.pins[|st.pins|];
         var r2 := AddPinFromData(r1.state, key, r1.requests[0].record, clock, parseIso);
         r2.state.pins == st.pins + [pending.(key := key, elem := st.nextElem + 1)]
  {
    var r1 := Create(st, c);
    var pending := r1.state.pins[|st.pins|];
    var d := r1.requests[0].record;
    assert r1.state.pins == st.pins + [pending];
    assert Str(d.createdAt) == c.nowIso;
    HasKeyAppend(st.pins, pending, key);
    RemoveFirstKeyOfLast(st.pins, pending);
    var p := PinFromRecord(r1.state, key, d, clock, parseIso);
    assert p == pending.(key := key, elem := st.nextElem + 1);
  }

  /** Appending a confirmed pin of `owner`, as `child_added` does, adds exactly one to that owner's quota count. */
  lemma {:induction false} ConfirmedPinCounts(pins: seq<Pin>, p: Pin, owner: string)
    requires !IsTemp(p.key) && p.createdBy == owner
    ensures |Counted(pins + [p], owner, false)| == |Counted(pins, owner, false)| + 1
  {
    CountedAppend(pins, [p], owner, false);
    CountedSingle(p, owner, false);
  }

  /** A `child_added` delivered again, at any later time, changes nothing. */
  lemma AddPinIdempotent(st: State, key: string, d: Record, c1: Clock, c2: Clock, parseIso: string -> Option<int>)
    ensures var r1 := AddPinFromData(st, key, d, c1, parseIso);
      AddPinFromData(r1.state, key, d, c2, parseIso) == Reply(r1.state, [], None)
  {
  }

  /** A `child_removed` for a confirmed key, delivered again, changes nothing. */
  lemma ChildRemovedIdempotent(st: State, key: string)
    requires WellFormed(st) && !IsTemp(key)
    ensures ChildRemoved(ChildRemoved(st, key), key) == ChildRemoved(st, key)
  {
  }

  /** Creating a pin never changes which confirmed pins any user owns. */
  lemma {:induction false} CreateKeepsConfirmedPins(st: State, c: Click, withPending: bool, owner: string)
    ensures Counted(CreateCounting(st, c, withPending).state.pins, owner, false) == Counted(st.pins, owner, false)
  {
    var r := CreateCounting(st, c, withPending);
    if r.state != st {
      var p := r.state.pins[|st.pins|];
      assert r.state.pins == st.pins + [p];
      CountedAppend(st.pins, [p], owner, false);
      CountedSingle(p, owner, false);
    }
  }

  /**
   Once the backend has reported a confirmed pin removed (after a manual delete, say),
   that pin's delete timer requests nothing when it fires.
   */
  lemma {:induction false} TimerStandsDownAfterRemoval(st: State, i: nat)
    requires WellFormed(st)
    requires i < |st.pins| && !IsTemp(st.pins[i].key)
    ensures FireExpiry(ChildRemoved(st, st.pins[i].key), st.pins[i].elem, st.pins[i].key) == []
  {
    var p := st.pins[i];
    var r := ChildRemoved(st, p.key);
    var k :| 0 <= k < |st.pins| && st.pins[k].key == p.key
      && (forall j :: 0 <= j < k ==> st.pins[j].key != p.key)
      && r.pins == RemoveAt(st.pins, k);
    assert k == i;
    RemoveAtMembers(st.pins, i);
  }

  /**
   Clicking a shown pin and then the delete button: the delete flag the selection view
   computed for that pin agrees with the handler's own ownership test, so the button
   is refused with `NotOwner` exactly when the view had disabled it.
   */
  lemma DeleteIffOwner(st: State, elem: nat)
    requires HasElem(st.pins, elem)
    ensures var s1 := SelectPin(st, elem);
      && s1.selected.Some?
      && (DeletePressed(s1).alert.None? <==> CanDelete(st, s1.selected.value))
      && (DeletePressed(s1).alert.Some? <==> DeletePressed(s1).alert == Some(NotOwner))
  {
  }
}
