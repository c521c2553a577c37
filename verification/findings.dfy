/**
 Without a backend, the image-click handler as written never enforces the quota of 5
 or the one-pin-per-colour rule: it counts only confirmed pins, and without a backend
 every pin keeps its "temp-" key for ever. The corrected rule (`Session.CreateIntended`,
 `Machine.Step` under `Intended`) keeps both, as `Machine.LocalSessionRespectsQuota` proves.
 */
module Findings {
  import opened Wrappers
  import opened PinSet
  import opened Session
  import opened Machine

  /** The state after clicking with each of `clicks` in turn, using the handler as written. */
  function CreateAll(st: State, clicks: seq<Click>): (r: State)
    ensures r.backend == st.backend && r.id == st.id && r.currentColor == st.currentColor
    decreases |clicks|
  {
    if |clicks| == 0 then st else CreateAll(Create(st, clicks[0]).state, clicks[1..])
  }

  /** The image-click events for `clicks`, in order. */
  function Clicks(clicks: seq<Click>): (r: seq<Event>)
    ensures |r| == |clicks|
    ensures forall i :: 0 <= i < |clicks| ==> r[i] == ImageClicked(clicks[i])
  {
    seq(|clicks|, i requires 0 <= i < |clicks| => ImageClicked(clicks[i]))
  }

  /** Running the page as written on image clicks alone is clicking with `Create` in turn. */
  lemma {:induction false} RunClicksAsWritten(st: State, clicks: seq<Click>, parseIso: string -> Option<int>)
    ensures Run(st, Clicks(clicks), AsWritten, parseIso) == CreateAll(st, clicks)
    decreases |clicks|
  {
    if |clicks| > 0 {
      assert Clicks(clicks)[1..] == Clicks(clicks[1..]);
      RunClicksAsWritten(Create(st, clicks[0]).state, clicks[1..], parseIso);
    }
  }

  /** All pins of the session's own, pending, and of the current colour. */
  ghost predicate OwnPendingOfColor(st: State) {
    forall i :: 0 <= i < |st.pins| ==>
      IsTemp(st.pins[i].key) && st.pins[i].createdBy == st.id.sessionId && st.pins[i].color == st.currentColor
  }

  /** Without a backend every click on the image is accepted, however many pins the session already has. */
  lemma {:induction false} LocalClicksAlwaysAccepted(st: State, clicks: seq<Click>)
    requires !st.backend && AllPending(st)
    requires forall i :: 0 <= i < |clicks| ==> clicks[i].onImage
    ensures |CreateAll(st, clicks).pins| == |st.pins| + |clicks|
    ensures AllPending(CreateAll(st, clicks))
    decreases |clicks|
  {
    if |clicks| > 0 {
      CountedNone(st.pins, st.id.sessionId, false);
      assert QuotaPins(st, false) == [];
      assert Admits(st, clicks[0], false);
      var next := Create(st, clicks[0]).state;
      assert forall i :: 0 <= i < |st.pins| ==> next.pins[i] == st.pins[i];
      LocalClicksAlwaysAccepted(next, clicks[1..]);
    }
  }

  /** Without a backend, the pins placed by clicks are the session's own and of the current colour. */
  lemma {:induction false} LocalClicksKeepOwnColor(st: State, clicks: seq<Click>)
    requires !st.backend && OwnPendingOfColor(st)
    requires forall i :: 0 <= i < |clicks| ==> clicks[i].onImage
    ensures OwnPendingOfColor(CreateAll(st, clicks))
    decreases |clicks|
  {
    if |clicks| > 0 {
      CountedNone(st.pins, st.id.sessionId, false);
      assert QuotaPins(st, false) == [];
      assert Admits(st, clicks[0], false);
      var next := Create(st, clicks[0]).state;
      assert forall i :: 0 <= i < |st.pins| ==> next.pins[i] == st.pins[i];
      LocalClicksKeepOwnColor(next, clicks[1..]);
    }
  }

  /**
   The discrepancy: on a fresh page without a backend, the page as written, given six
   clicks on the image, leaves the session with six pins, all of one colour, breaking
   both rules the handler's alerts announce.
   */
  lemma SixLocalPinsAsWritten(id: Identity, clicks: seq<Click>, parseIso: string -> Option<int>)
    requires |clicks| == 6
    requires forall i :: 0 <= i < |clicks| ==> clicks[i].onImage
    ensures var st := Run(Init(false, id), Clicks(clicks), AsWritten, parseIso);
      && |Counted(st.pins, id.sessionId, true)| == 6 > QuotaPerOwner
      && !DistinctColors(Counted(st.pins, id.sessionId, true))
      && !LocalQuota(st)
  {
    RunClicksAsWritten(Init(false, id), clicks, parseIso);
    var st := CreateAll(Init(false, id), clicks);
    LocalClicksAlwaysAccepted(Init(false, id), clicks);
    LocalClicksKeepOwnColor(Init(false, id), clicks);
    CountedAll(st.pins, id.sessionId, true);
    assert st.pins[0].color == st.pins[1].color;
  }
}
