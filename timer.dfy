/**
 * The running millisecond counter of the home screen: `timeRef` (the accrued
 * time of the active item), `startTimeRef` (the instant the current accrual
 * period began) and the displayed `time`. `tick` folds clock advances of at
 * least `Threshold` ms into the counter; the activation effect seeds or zeroes
 * it when the active item changes. The clock reading `now` is a parameter.
 */
module Timer {
  import opened Wrappers
  import opened Activities

  /** The smallest clock advance, in ms, that one tick folds into the counter. */
  const Threshold: int := 100

  /** `timeRef.current`, `startTimeRef.current` and the displayed `time`. */
  datatype Counter = Counter(value: int, baseline: int, display: int)

  /**
   * One tick at clock reading `now`. Below the threshold nothing changes;
   * otherwise the whole advance is added, the display shows the counter and
   * the baseline moves to `now`. The counter never decreases, and the
   * difference between counter and baseline is kept, so no advance is lost.
   */
  function Ticked(c: Counter, now: int): (r: Counter)
    ensures r == c <==> now - c.baseline < Threshold
    ensures r.value >= c.value
    ensures r != c ==> r.value >= c.value + Threshold && r.display == r.value && r.baseline == now
    ensures r.value - r.baseline == c.value - c.baseline
    ensures now >= c.baseline ==> 0 <= now - r.baseline < Threshold
  {
    var delta := now - c.baseline;
    if delta >= Threshold then Counter(c.value + delta, now, c.value + delta) else c
  }

  /**
   * `tick` as written: the advance is measured against the first clock
   * reading `now`, but the baseline is reset from a second reading `later`.
   */
  function TickedAsWritten(c: Counter, now: int, later: int): (r: Counter)
    ensures now - c.baseline < Threshold ==> r == c
    ensures now - c.baseline >= Threshold ==>
      r.value == c.value + (now - c.baseline) && r.display == r.value && r.baseline == later
  {
    var delta := now - c.baseline;
    if delta >= Threshold then Counter(c.value + delta, later, c.value + delta) else c
  }

  /** Whenever the second reading is later than the first, a tick that fires loses the gap between them. */
  lemma TickAsWrittenLosesGap(c: Counter, now: int, later: int)
    requires now - c.baseline >= Threshold && later > now
    ensures TickedAsWritten(c, now, later).value - TickedAsWritten(c, now, later).baseline
         == c.value - c.baseline - (later - now)
    ensures TickedAsWritten(c, now, later).value - TickedAsWritten(c, now, later).baseline
          < c.value - c.baseline
  {
  }

  /**
   * The gap shows on a concrete run: with the baseline at 0, a tick reading 100
   * then 101, and a tick reading 201, the counter shows 200 and has nothing
   * pending, although 201 ms passed; the corrected tick shows 201.
   */
  lemma TickAsWrittenCounterexample()
    ensures TickedAsWritten(TickedAsWritten(Counter(0, 0, 0), 100, 101), 201, 201) == Counter(200, 201, 200)
    ensures Ticked(Ticked(Counter(0, 0, 0), 100), 201) == Counter(201, 201, 201)
  {
  }

  /** A run of ticks at the clock readings `nows`, in order. */
  function RunTicks(c: Counter, nows: seq<int>): (r: Counter)
    ensures r.value >= c.value
    ensures r.value - r.baseline == c.value - c.baseline
    decreases |nows|
  {
    if |nows| == 0 then c else Ticked(RunTicks(c, nows[..|nows| - 1]), nows[|nows| - 1])
  }

  /**
   * Accrual is exact up to the threshold: after ticks at non-decreasing clock
   * readings, the counter equals its start value plus the time elapsed since
   * the start baseline, less an unaccounted rest below `Threshold` that lies
   * between the last fired tick and the last reading.
   */
  lemma {:induction false} TicksTrackElapsed(c: Counter, nows: seq<int>)
    requires |nows| > 0 && c.baseline <= nows[0]
    requires forall i, j :: 0 <= i <= j < |nows| ==> nows[i] <= nows[j]
    ensures RunTicks(c, nows).baseline <= nows[|nows| - 1]
    ensures nows[|nows| - 1] - RunTicks(c, nows).baseline < Threshold
    ensures RunTicks(c, nows).value <= c.value + (nows[|nows| - 1] - c.baseline)
                                    < RunTicks(c, nows).value + Threshold
    decreases |nows|
  {
    var n := |nows|;
    if n > 1 {
      TicksTrackElapsed(c, nows[..n - 1]);
      assert nows[..n - 1][n - 2] <= nows[n - 1];
    }
  }

  /**
   * Ticks closer together than the threshold change nothing; the first tick
   * that crosses it makes exactly one update, by the whole advance.
   */
  lemma TickCoalescing(value: int, start: int, display: int)
    ensures Ticked(Counter(value, start, display), start + 40) == Counter(value, start, display)
    ensures Ticked(Counter(value, start, display), start + 80) == Counter(value, start, display)
    ensures Ticked(Counter(value, start, display), start + 120)
         == Counter(value + 120, start + 120, value + 120)
  {
  }

  /**
   * The activation effect, run when the active item changes: with no active
   * item the counter and the display drop to 0; an active item whose id differs
   * from the previous one's seeds the counter with its stored time and moves the
   * baseline to `now` (the tick right after then changes nothing); the same id
   * only ticks.
   */
  function Activation(s: seq<Activity>, prevId: Option<string>, c: Counter, now: int): (r: Counter)
    ensures ActiveItem(s).None? ==> r.value == 0 && r.display == 0 && r.baseline == c.baseline
    ensures ActiveItem(s).Some? && prevId != Some(ActiveItem(s).value.id) ==>
      r == Counter(ActiveItem(s).value.time, now, c.display)
    ensures ActiveItem(s).Some? && prevId == Some(ActiveItem(s).value.id) ==> r == Ticked(c, now)
  {
    match ActiveItem(s)
    case None => Counter(0, c.baseline, 0)
    case Some(a) => Ticked(if prevId == Some(a.id) then c else Counter(a.time, now, c.display), now)
  }
}
