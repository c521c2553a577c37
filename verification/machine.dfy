/**
 The page as one sequential state machine: every event handler is one transition, and
 the invariants every sequence of events keeps.
 */
module Machine {
  import opened Wrappers
  import opened Js
  import opened PinSet
  import opened Session
  import opened Sync

  /** The inputs the page reacts to, one per event handler. */
  datatype Event =
    | ColorChosen(color: string)
    | ImageClicked(click: Click)
    | PinClicked(elem: nat)
    | DeleteClicked
    | ChildAdded(key: string, data: Record, clock: Clock)
    | ChildRemovedEvent(key: string)
    | ExpiryFired(elem: nat, key: string)

  /**
   Which image-click handler the page runs: the one `script.js` has (`Session.Create`),
   or the corrected one that counts pending pins without a backend (`Session.CreateIntended`).
   With a backend the two agree.
   */
  datatype CreateRule = AsWritten | Intended

  function CreateBy(rule: CreateRule, st: State, c: Click): (r: Reply)
    ensures st.backend ==> r == Create(st, c)
  {
    match rule
    case AsWritten => Create(st, c)
    case Intended => CreateIntended(st, c)
  }

  /**
   One transition, with image clicks handled under `rule`. Backend events only arrive
   when a backend is configured (the listeners are registered only then). The delete
   button is disabled while the selection view's flag is off, so a press then does
   nothing at all.
   */
  function Step(st: State, e: Event, rule: CreateRule, parseIso: string -> Option<int>): (r: Reply)
    ensures r.state.backend == st.backend && r.state.id == st.id
    ensures r.state.nextElem >= st.nextElem
    ensures !st.backend ==> r.requests == []
    ensures r.alert.Some? ==> r.state == st && r.requests == []
    ensures e.DeleteClicked? && !DeleteEnabled(st) ==> r == Reply(st, [], None)
    ensures e.DeleteClicked? ==> r.alert.None?
  {
    match e
    case ColorChosen(color) => Reply(st.(currentColor := color), [], None)
    case ImageClicked(c) => CreateBy(rule, st, c)
    case PinClicked(elem) => Reply(SelectPin(st, elem), [], None)
    case DeleteClicked => if st.selected.Some? && !DeleteEnabled(st) then Reply(st, [], None) else DeletePressed(st)
    case ChildAdded(key, d, clock) =>
      if st.backend then AddPinFromData(st, key, d, clock, parseIso) else Reply(st, [], None)
    case ChildRemovedEvent(key) =>
      if st.backend then Reply(ChildRemoved(st, key), [], None) else Reply(st, [], None)
    case ExpiryFired(elem, key) => Reply(st, FireExpiry(st, elem, key), None)
  }

  /** The state after handling `events` in order. */
  function Run(st: State, events: seq<Event>, rule: CreateRule, parseIso: string -> Option<int>): (r: State)
    ensures r.backend == st.backend && r.id == st.id
    ensures r.nextElem >= st.nextElem
    decreases |events|
  {
    if |events| == 0 then st else Run(Step(st, events[0], rule, parseIso).state, events[1..], rule, parseIso)
  }

  /** Every write and timer requested while handling `events` in order, in the order they were asked for. */
  function Emitted(st: State, events: seq<Event>, rule: CreateRule, parseIso: string -> Option<int>): (r: seq<Request>)
    ensures !st.backend ==> r == []
    ensures |events| == 0 ==> r == []
    decreases |events|
  {
    if |events| == 0 then []
    else
      var step := Step(st, events[0], rule, parseIso);
      step.requests + Emitted(step.state, events[1..], rule, parseIso)
  }

  /** Element identities are fresh and unique, and a confirmed key names at most one element. */
  ghost predicate WellFormed(st: State) {
    ElemsBelow(st.pins, st.nextElem) && ElemsDistinct(st.pins) && ConfirmedKeysDistinct(st.pins)
  }

  lemma InitWellFormed(backend: bool, id: Identity)
    ensures WellFormed(Init(backend, id))
  {
  }

  lemma CreateKeepsWellFormed(st: State, c: Click, withPending: bool)
    requires WellFormed(st)
    ensures WellFormed(CreateCounting(st, c, withPending).state)
  {
    var r := CreateCounting(st, c, withPending);
    if r.state != st {
      AppendFreshKeepsShape(st.pins, r.state.pins[|st.pins|], st.nextElem);
    }
  }

  lemma DeleteKeepsWellFormed(st: State)
    requires WellFormed(st)
    ensures WellFormed(DeletePressed(st).state)
  {
    if st.selected.Some? {
      RemoveElemKeepsShape(st.pins, st.selected.value.elem, st.nextElem);
    }
  }

  lemma AddPinKeepsWellFormed(st: State, key: string, d: Record, clock: Clock, parseIso: string -> Option<int>)
    requires WellFormed(st)
    ensures WellFormed(AddPinFromData(st, key, d, clock, parseIso).state)
  {
    if !HasKey(st.pins, key) {
      var rest := RemoveFirstKey(st.pins, TempKey(Str(d.createdAt)));
      RemoveFirstKeyKeepsShape(st.pins, TempKey(Str(d.createdAt)), st.nextElem);
      assert !HasKey(rest, key);
      AppendFreshKeepsShape(rest, PinFromRecord(st, key, d, clock, parseIso), st.nextElem);
    }
  }

  lemma ChildRemovedKeepsWellFormed(st: State, key: string)
    requires WellFormed(st)
    ensures WellFormed(ChildRemoved(st, key))
  {
    RemoveFirstKeyKeepsShape(st.pins, key, st.nextElem);
  }

  lemma {:induction false} StepKeepsWellFormed(st: State, e: Event, rule: CreateRule, parseIso: string -> Option<int>)
    requires WellFormed(st)
    ensures WellFormed(Step(st, e, rule, parseIso).state)
  {
    match e
    case ColorChosen(_) =>
    case PinClicked(_) =>
    case ExpiryFired(_, _) =>
    case ImageClicked(c) => CreateKeepsWellFormed(st, c, rule.Intended? && !st.backend);
    case DeleteClicked => DeleteKeepsWellFormed(st);
    case ChildAdded(key, d, clock) => AddPinKeepsWellFormed(st, key, d, clock, parseIso);
    case ChildRemovedEvent(key) => ChildRemovedKeepsWellFormed(st, key);
  }

  lemma {:induction false} RunKeepsWellFormed(st: State, events: seq<Event>, rule: CreateRule, parseIso: string -> Option<int>)
    requires WellFormed(st)
    ensures WellFormed(Run(st, events, rule, parseIso))
    decreases |events|
  {
    if |events| > 0 {
      StepKeepsWellFormed(st, events[0], rule, parseIso);
      RunKeepsWellFormed(Step(st, events[0], rule, parseIso).state, events[1..], rule, parseIso);
    }
  }

  /** Without a backend every pin ever shown was created here, so every key is pending. */
  ghost predicate AllPending(st: State) {
    !st.backend ==> forall i :: 0 <= i < |st.pins| ==> IsTemp(st.pins[i].key)
  }

  /**
   The quota and colour rules as an invariant of a session without a backend: the
   session owns at most 5 pins, no two of one colour.
   */
  ghost predicate LocalQuota(st: State) {
    !st.backend ==>
      var mine := Counted(st.pins, st.id.sessionId, true);
      |mine| <= QuotaPerOwner && DistinctColors(mine)
  }

  lemma CreateKeepsLocalInvariants(st: State, c: Click)
    requires !st.backend && st.id.sessionId != ""
    requires AllPending(st) && LocalQuota(st)
    ensures AllPending(CreateIntended(st, c).state) && LocalQuota(CreateIntended(st, c).state)
  {
    var r := CreateIntended(st, c);
    var sid := st.id.sessionId;
    if r.state != st {
      var p := r.state.pins[|st.pins|];
      assert r.state.pins == st.pins + [p];
      CountedAppend(st.pins, [p], sid, true);
      CountedSingle(p, sid, true);
      assert QuotaPins(st, true) == Counted(st.pins, sid, true);
      DistinctColorsAppend(Counted(st.pins, sid, true), p);
    }
  }

  lemma DeleteKeepsLocalInvariants(st: State)
    requires !st.backend
    requires AllPending(st) && LocalQuota(st)
    ensures AllPending(DeletePressed(st).state) && LocalQuota(DeletePressed(st).state)
  {
    if st.selected.Some? {
      RemoveElemKeepsCounted(st.pins, st.selected.value.elem, st.id.sessionId, true);
    }
  }

  /** With the corrected rule; `Findings.SixLocalPinsAsWritten` shows the rule as written breaks `LocalQuota`. */
  lemma {:induction false} StepKeepsLocalInvariants(st: State, e: Event, parseIso: string -> Option<int>)
    requires st.id.sessionId != ""
    requires AllPending(st) && LocalQuota(st)
    ensures AllPending(Step(st, e, Intended, parseIso).state)
    ensures LocalQuota(Step(st, e, Intended, parseIso).state)
  {
    if !st.backend {
      match e
      case ColorChosen(_) =>
      case PinClicked(_) =>
      case ExpiryFired(_, _) =>
      case ChildAdded(_, _, _) =>
      case ChildRemovedEvent(_) =>
      case ImageClicked(c) => CreateKeepsLocalInvariants(st, c);
      case DeleteClicked => DeleteKeepsLocalInvariants(st);
    }
  }

  lemma {:induction false} RunKeepsLocalInvariants(st: State, events: seq<Event>, parseIso: string -> Option<int>)
    requires st.id.sessionId != ""
    requires AllPending(st) && LocalQuota(st)
    ensures AllPending(Run(st, events, Intended, parseIso)) && LocalQuota(Run(st, events, Intended, parseIso))
    decreases |events|
  {
    if |events| > 0 {
      StepKeepsLocalInvariants(st, events[0], parseIso);
      RunKeepsLocalInvariants(Step(st, events[0], Intended, parseIso).state, events[1..], parseIso);
    }
  }

  /**
   Without a backend, from a fresh page, under the corrected rule, whatever happens the
   session holds at most 5 pins and never two of one colour.
   */
  lemma LocalSessionRespectsQuota(id: Identity, events: seq<Event>, parseIso: string -> Option<int>)
    requires id.sessionId != ""
    ensures var st := Run(Init(false, id), events, Intended, parseIso);
      |Counted(st.pins, id.sessionId, true)| <= QuotaPerOwner
      && DistinctColors(Counted(st.pins, id.sessionId, true))
  {
    RunKeepsLocalInvariants(Init(false, id), events, parseIso);
  }
}
