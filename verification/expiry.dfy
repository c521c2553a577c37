/**
 Timed fade and auto-delete of a pin (`scheduleFadeAndDelete` in script.js), as
 integer-millisecond arithmetic. Times are epoch milliseconds; None stands for a
 time that is not a finite number (NaN).
 */
module Expiry {
  import opened Wrappers
  import opened PinSet

  /** How long a pin lives, counted from its creation instant. */
  const FadeDurationMs: int := 60000

  /** How long after the fade has finished the delete timer fires. */
  const DeleteSlackMs: int := 100

  /**
   The instant a pin's lifetime is measured from: its integer creation time when it
   is a finite number, otherwise its ISO timestamp as parsed by `parseIso`.
   */
  function CreatedAtTime(ms: Option<int>, iso: string, parseIso: string -> Option<int>): Option<int> {
    if ms.Some? then ms else parseIso(iso)
  }

  /** Milliseconds of the fade window left at `now` for a pin created at `createdAt`. */
  function Remaining(createdAt: int, now: int): int {
    FadeDurationMs - (now - createdAt)
  }

  /** What scheduling does: nothing when the window is already over, else one delete timer. */
  datatype Plan = AlreadyFaded | DeleteAfter(delayMs: int)

  /**
   The decision of `scheduleFadeAndDelete`. The timer is aimed at an absolute instant,
   creation + 60000 + 100 ms, whenever it is scheduled. A NaN creation time makes the
   remaining time NaN: `remaining <= 0` is false and the timer's NaN delay acts as 0.
   */
  function PlanExpiry(createdAt: Option<int>, now: int): (p: Plan)
    ensures createdAt.None? ==> p == DeleteAfter(0)
    ensures createdAt.Some? ==> (p.AlreadyFaded? <==> createdAt.value + FadeDurationMs <= now)
    ensures createdAt.Some? && p.DeleteAfter? ==>
      now + p.delayMs == createdAt.value + FadeDurationMs + DeleteSlackMs
    ensures createdAt.Some? && p.DeleteAfter? ==> DeleteSlackMs < p.delayMs
    ensures createdAt.Some? && createdAt.value <= now && p.DeleteAfter? ==>
      p.delayMs <= FadeDurationMs + DeleteSlackMs
  {
    match createdAt
    case None => DeleteAfter(0)
    case Some(t) =>
      var remaining := Remaining(t, now);
      if remaining <= 0 then AlreadyFaded else DeleteAfter(remaining + DeleteSlackMs)
  }

  /**
   Scheduling later never moves the deadline: two plans for the same pin made at
   different instants fire at the same absolute time, or the later one finds the
   window over.
   */
  lemma {:induction false} PlanDeadlineIsAbsolute(t: int, now1: int, now2: int)
    requires now1 <= now2
    requires PlanExpiry(Some(t), now1).DeleteAfter?
    ensures PlanExpiry(Some(t), now2).DeleteAfter? ==>
      now1 + PlanExpiry(Some(t), now1).delayMs == now2 + PlanExpiry(Some(t), now2).delayMs
    ensures PlanExpiry(Some(t), now2).AlreadyFaded? ==>
      now1 + PlanExpiry(Some(t), now1).delayMs <= now2 + DeleteSlackMs
  {
  }

  /**
   The opacity a pin starts fading from, `elapsed` ms after its creation; a CSS
   transition then takes it linearly to 0 over the remaining window.
   */
  function StartOpacity(elapsed: int): (o: real)
    ensures 0.0 <= o
    ensures o == 0.0 <==> FadeDurationMs <= elapsed
    ensures 0 <= elapsed ==> o <= 1.0
    ensures elapsed < 0 ==> 1.0 < o
  {
    Max(0.0, 1.0 - elapsed as real / FadeDurationMs as real)
  }

  /** The later a pin is looked at, the fainter it starts. */
  lemma StartOpacityNonIncreasing(e1: int, e2: int)
    requires e1 <= e2
    ensures StartOpacity(e2) <= StartOpacity(e1)
  {
    assert e1 as real / FadeDurationMs as real <= e2 as real / FadeDurationMs as real;
  }
}
