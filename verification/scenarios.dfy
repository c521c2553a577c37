/**
 Behaviours the handlers' alerts and comments announce, as statements about the model:
 a second pin of one colour is refused, a pin arriving late keeps its original deadline,
 and a whole owner's lifecycle from click to removal, under the handlers as written.
 */
module Scenarios {
  import opened Wrappers
  import opened Js
  import opened PinSet
  import opened Expiry
  import opened Session
  import opened Sync
  import opened Machine

  /**
   With a backend, a user who already has a confirmed pin of the current colour is
   refused another one, and nothing changes.
   */
  lemma {:induction false} SameColorTwiceRejected(st: State, c: Click, i: nat)
    requires st.backend && IdentityReady(st.id) && c.onImage
    requires i < |st.pins| && !IsTemp(st.pins[i].key)
    requires st.pins[i].createdBy == st.id.authUid.value && st.pins[i].color == st.currentColor
    requires |QuotaPins(st, false)| < QuotaPerOwner
    ensures Create(st, c) == Reply(st, [], Some(DuplicateColor))
  {
    var mine := QuotaPins(st, false);
    assert st.pins[i] in mine;
    var j :| 0 <= j < |mine| && mine[j] == st.pins[i];
    assert HasColor(mine, st.currentColor);
  }

  /**
   A client that first sees a pin 45 s after it was created schedules its delete
   15 s (plus the 100 ms slack) later, not a full minute later.
   */
  lemma LateArrivalKeepsDeadline(st: State, key: string, d: Record, clock: Clock, parseIso: string -> Option<int>)
    requires !HasKey(st.pins, key)
    requires d.createdAtMs == Some(clock.nowMs - 45000)
    ensures AddPinFromData(st, key, d, clock, parseIso).requests == [ScheduleExpiry(st.nextElem, key, 15100)]
  {
  }

  /** A pin whose lifetime is over when it arrives is shown but gets no delete timer. */
  lemma ExpiredArrivalNotScheduled(st: State, key: string, d: Record, clock: Clock, parseIso: string -> Option<int>)
    requires !HasKey(st.pins, key)
    requires d.createdAtMs.Some? && d.createdAtMs.value + FadeDurationMs <= clock.nowMs
    ensures AddPinFromData(st, key, d, clock, parseIso).requests == []
    ensures HasKey(AddPinFromData(st, key, d, clock, parseIso).state.pins, key)
  {
  }

  function NoParse(iso: string): Option<int> { None }

  // One owner's pin from click to removal, one handler at a time.

  const Owner := Identity(true, Some("A"), "user-s")
  const FirstClick := Click(true, 0.5, 1.5, 100.0, 50.0, "T0", 0)
  const SecondClick := Click(true, 0.1, 0.1, 1.0, 1.0, "T2", 1)
  const Pushed := Record(Some(0.5), Some(1.0), Some(100.0), Some(50.0), "red", Some("T0"), Some(0), Some("A"))
  const PendingPin := Pin(0, "temp-T0", "red", "A", "T0", Some(0), Fraction(0.5, 1.0))
  const ConfirmedPin := Pin(1, "k1", "red", "A", "T0", Some(0), Fraction(0.5, 1.0))
  const Shown := State([PendingPin], "red", None, true, Owner, 1)
  const Confirmed := State([ConfirmedPin], "red", None, true, Owner, 2)
  const Removed := State([], "red", None, true, Owner, 2)

  lemma ClickShowsPendingPin()
    ensures Step(Init(true, Owner), ImageClicked(FirstClick), AsWritten, NoParse) == Reply(Shown, [PushPin(Pushed)], None)
  {
    var s0 := Init(true, Owner);
    assert QuotaPins(s0, false) == [];
    assert Admits(s0, FirstClick, false);
    assert NewPin(s0, FirstClick) == PendingPin;
    assert [] + [PendingPin] == [PendingPin];
  }

  lemma ChildAddedConfirmsPin()
    ensures Step(Shown, ChildAdded("k1", Pushed, Clock("T1", 10)), AsWritten, NoParse)
         == Reply(Confirmed, [ScheduleExpiry(1, "k1", 60090)], None)
  {
    assert !HasKey([PendingPin], "k1");
    assert TempKey(Str(Pushed.createdAt)) == PendingPin.key;
    assert RemoveFirstKey([PendingPin], PendingPin.key) == [] by {
      RemoveFirstKeyOfLast([], PendingPin);
      assert [] + [PendingPin] == [PendingPin];
    }
    assert PinFromRecord(Shown, "k1", Pushed, Clock("T1", 10), NoParse) == ConfirmedPin;
    assert PlanExpiry(Some(0), 10) == DeleteAfter(60090);
  }

  lemma SecondRedRefused()
    ensures Step(Confirmed, ImageClicked(SecondClick), AsWritten, NoParse) == Reply(Confirmed, [], Some(DuplicateColor))
  {
    SameColorTwiceRejected(Confirmed, SecondClick, 0);
  }

  lemma DeleteAsksBackendOnly()
    ensures Step(Confirmed, PinClicked(1), AsWritten, NoParse) == Reply(Confirmed.(selected := Some(ConfirmedPin)), [], None)
    ensures Step(Confirmed.(selected := Some(ConfirmedPin)), DeleteClicked, AsWritten, NoParse) == Reply(Confirmed, [RemovePin("k1")], None)
  {
  }

  lemma RemovalThenTimerIsQuiet()
    ensures Step(Confirmed, ChildRemovedEvent("k1"), AsWritten, NoParse) == Reply(Removed, [], None)
    ensures Step(Removed, ExpiryFired(1, "k1"), AsWritten, NoParse) == Reply(Removed, [], None)
  {
    assert RemoveFirstKey([ConfirmedPin], "k1") == [] by {
      RemoveFirstKeyOfLast([], ConfirmedPin);
      assert [] + [ConfirmedPin] == [ConfirmedPin];
    }
  }

  // The events of the lifecycle below, in order.
  const Lifecycle := [ImageClicked(FirstClick), ChildAdded("k1", Pushed, Clock("T1", 10)),
                       ImageClicked(SecondClick), PinClicked(1), DeleteClicked,
                       ChildRemovedEvent("k1"), ExpiryFired(1, "k1")]

  /**
   The whole lifecycle: the click shows a pending pin and pushes it; its `child_added`
   replaces it and arms a timer for creation + 60100 ms; a second red click is refused;
   selecting and deleting only asks the backend; `child_removed` takes the pin away;
   the timer then finds nothing to do. The only remote remove is the delete button's.
   */
  lemma OwnerLifecycle()
    ensures Run(Init(true, Owner), Lifecycle, AsWritten, NoParse) == Removed
    ensures Emitted(Init(true, Owner), Lifecycle, AsWritten, NoParse)
         == [PushPin(Pushed), ScheduleExpiry(1, "k1", 60090), RemovePin("k1")]
  {
    ClickShowsPendingPin();
    ChildAddedConfirmsPin();
    SecondRedRefused();
    DeleteAsksBackendOnly();
    RemovalThenTimerIsQuiet();
    var events := Lifecycle;
    assert Run(Removed, events[7..], AsWritten, NoParse) == Removed;
    assert Run(Removed, events[6..], AsWritten, NoParse) == Removed;
    assert Run(Confirmed, events[5..], AsWritten, NoParse) == Removed;
    assert Run(Confirmed.(selected := Some(ConfirmedPin)), events[4..], AsWritten, NoParse) == Removed;
    assert Run(Confirmed, events[3..], AsWritten, NoParse) == Removed;
    assert Run(Confirmed, events[2..], AsWritten, NoParse) == Removed;
    assert Run(Shown, events[1..], AsWritten, NoParse) == Removed;
    assert Emitted(Removed, events[6..], AsWritten, NoParse) == [];
    assert Emitted(Confirmed, events[5..], AsWritten, NoParse) == [];
    assert Emitted(Confirmed.(selected := Some(ConfirmedPin)), events[4..], AsWritten, NoParse) == [RemovePin("k1")];
    assert Emitted(Confirmed, events[3..], AsWritten, NoParse) == [RemovePin("k1")];
    assert Emitted(Confirmed, events[2..], AsWritten, NoParse) == [RemovePin("k1")];
    assert Emitted(Shown, events[1..], AsWritten, NoParse) == [ScheduleExpiry(1, "k1", 60090), RemovePin("k1")];
  }
}
