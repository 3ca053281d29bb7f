/**
  Per-LED time accounting. Each cell holds its current brightness, the
  accumulated brightness-times-seconds of the session, and the instant up to
  which that sum already accounts for the current brightness (None while the
  instrument is OFF). The functions here are what the instrument's operations
  do to one cell; the lemmas relate them to the exact time integral of the
  cell's brightness history.
 */
module Accounting {
  import opened Options

  /** A brightness as the brightness dialog allows it: a whole percentage. */
  type Percent = b: int | 0 <= b <= 100

  datatype Cell = Cell(brightness: Percent, sum: real, lut: Option<real>)

  /**
    Brightness `b` held for `dt` seconds, that is `b * dt` (see AreaIsProduct),
    written as b-fold addition so that the proofs below stay linear.
   */
  function Area(b: nat, dt: real): real
    decreases b
  {
    if b == 0 then 0.0 else Area(b - 1, dt) + dt
  }

  /** The interval since `lut` at the current brightness, folded into the sum when `lut` is set and `now - lut > 0`. */
  function Accrue(cell: Cell, now: real): (r: Cell)
    ensures r.brightness == cell.brightness && r.lut == cell.lut && r.sum >= cell.sum
    ensures !(cell.lut.Some? && now - cell.lut.value > 0.0) ==> r == cell
  {
    if cell.lut.Some? && now - cell.lut.value > 0.0 then
      AreaNonnegative(cell.brightness, now - cell.lut.value);
      cell.(sum := cell.sum + Area(cell.brightness, now - cell.lut.value))
    else
      cell
  }

  /** A brightness edit: while ON it first closes the open interval and restarts it at `now`. */
  function Edit(cell: Cell, value: Percent, on: bool, now: real): (r: Cell)
    ensures r.brightness == value && r.sum >= cell.sum
    ensures on ==> r.lut == Some(now)
    ensures !on ==> r.sum == cell.sum && r.lut == cell.lut
    ensures !(cell.lut.Some? && now - cell.lut.value > 0.0) ==> r.sum == cell.sum
  {
    if on then Accrue(cell, now).(lut := Some(now), brightness := value)
    else cell.(brightness := value)
  }

  /** The one-second tick: folds the open interval in and moves `lut` to `now`, only where `now - lut > 0`. */
  function Tick(cell: Cell, now: real): (r: Cell)
    ensures r.brightness == cell.brightness && r.sum >= cell.sum
    ensures r.lut.Some? <==> cell.lut.Some?
    ensures cell.lut.Some? ==> r.lut.value >= cell.lut.value
    ensures !(cell.lut.Some? && now - cell.lut.value > 0.0) ==> r == cell
  {
    if cell.lut.Some? && now - cell.lut.value > 0.0 then Accrue(cell, now).(lut := Some(now))
    else cell
  }

  /** Turning ON: the sum restarts at zero and the interval opens at `now`; the staged brightness stays. */
  function Open(cell: Cell, now: real): (r: Cell)
    ensures r.brightness == cell.brightness && Weight(r, now) == 0.0
  {
    AreaOfNothing(cell.brightness, now - now);
    Cell(cell.brightness, 0.0, Some(now))
  }

  /** Turning OFF, as the closing save sees the cell: last interval folded in, brightness zeroed, `lut` kept. */
  function Close(cell: Cell, now: real): (r: Cell)
    ensures r.brightness == 0 && r.lut == cell.lut && r.sum >= cell.sum
    ensures forall t :: Weight(r, t) == r.sum
  {
    Accrue(cell, now).(brightness := 0)
  }

  /** The still-open interval's contribution as the average computes it (no `dt > 0` test there). */
  function Partial(cell: Cell, now: real): real {
    if cell.lut.Some? then Area(cell.brightness, now - cell.lut.value) else 0.0
  }

  /** Brightness-seconds of the session up to `now`, closed intervals and the open one together. */
  function Weight(cell: Cell, now: real): real {
    cell.sum + Partial(cell, now)
  }

  /** `_calculate_average`: the time-weighted average brightness of a cell at `now`. */
  function Average(on: bool, start: Option<real>, cell: Cell, now: real): (avg: real)
    ensures start.None? && !on ==> avg == 0.0
    ensures on && start.None? ==> avg == cell.brightness as real
    ensures start.Some? && now - start.value <= 0.0 ==> avg == cell.brightness as real
    ensures start.Some? && now - start.value > 0.0 ==> avg * (now - start.value) == Weight(cell, now)
  {
    if start.None? && !on then 0.0
    else
      var total := if start.Some? then now - start.value else 0.0;
      if total <= 0.0 then cell.brightness as real
      else Weight(cell, now) / total
  }

  /** What the instrument keeps true of every cell: the sum is never negative and `lut` is set exactly while ON. */
  predicate Sound(cell: Cell, on: bool) {
    cell.sum >= 0.0 && (cell.lut.Some? <==> on)
  }

  // ---------------------------------------------------------------------------
  // Arithmetic of Area.
  // ---------------------------------------------------------------------------

  lemma {:induction false} AreaIsProduct(b: nat, dt: real)
    ensures Area(b, dt) == b as real * dt
    decreases b
  {
    if b > 0 {
      AreaIsProduct(b - 1, dt);
      OneMore((b - 1) as real, dt);
      assert (b - 1) as real + 1.0 == b as real;
    }
  }

  lemma OneMore(x: real, dt: real)
    ensures (x + 1.0) * dt == x * dt + dt
  {
  }

  lemma {:induction false} AreaOfNothing(b: nat, dt: real)
    requires dt == 0.0
    ensures Area(b, dt) == 0.0
    decreases b
  {
    if b > 0 {
      AreaOfNothing(b - 1, dt);
    }
  }

  lemma {:induction false} AreaNonnegative(b: nat, dt: real)
    requires dt >= 0.0
    ensures Area(b, dt) >= 0.0
    decreases b
  {
    if b > 0 {
      AreaNonnegative(b - 1, dt);
    }
  }

  /** Two consecutive intervals at one brightness add up to the interval they span. */
  lemma {:induction false} AreaConsecutive(b: nat, x: real, y: real, z: real)
    ensures Area(b, y - x) + Area(b, z - y) == Area(b, z - x)
    decreases b
  {
    if b > 0 {
      AreaConsecutive(b - 1, x, y, z);
    }
  }

  lemma {:induction false} AreaMonotone(b: nat, c: nat, dt: real)
    requires b <= c && dt >= 0.0
    ensures Area(b, dt) <= Area(c, dt)
    decreases c - b
  {
    if b < c {
      AreaMonotone(b + 1, c, dt);
    }
  }

  lemma AreaAtMost(b: Percent, dt: real)
    requires dt >= 0.0
    ensures 0.0 <= Area(b, dt) <= 100.0 * dt
  {
    AreaNonnegative(b, dt);
    AreaMonotone(b, 100, dt);
    AreaIsProduct(100, dt);
  }

  lemma AddBounds(first: real, rest: real, x: real, y: real, z: real)
    requires 0.0 <= first <= 100.0 * (y - x) && 0.0 <= rest <= 100.0 * (z - y)
    ensures 0.0 <= first + rest <= 100.0 * (z - x)
  {
  }

  lemma PercentRatio(i: real, d: real)
    requires d > 0.0 && 0.0 <= i <= 100.0 * d
    ensures 0.0 <= i / d <= 100.0
  {
  }

  // ---------------------------------------------------------------------------
  // One operation on one cell.
  // ---------------------------------------------------------------------------

  lemma AccrueKeepsSound(cell: Cell, on: bool, now: real)
    requires Sound(cell, on)
    ensures Sound(Accrue(cell, now), on) && Accrue(cell, now).sum >= cell.sum
  {
    if cell.lut.Some? && now - cell.lut.value > 0.0 {
      AreaNonnegative(cell.brightness, now - cell.lut.value);
    }
  }

  lemma EditKeepsSound(cell: Cell, value: Percent, on: bool, now: real)
    requires Sound(cell, on)
    ensures Sound(Edit(cell, value, on, now), on)
  {
    AccrueKeepsSound(cell, on, now);
  }

  lemma TickKeepsSound(cell: Cell, on: bool, now: real)
    requires Sound(cell, on)
    ensures Sound(Tick(cell, now), on)
  {
    AccrueKeepsSound(cell, on, now);
  }

  /** The cell as the save reads it is sound for a session still ON, and sound for OFF once `lut` is cleared. */
  lemma CloseKeepsSound(cell: Cell, now: real)
    requires Sound(cell, true)
    ensures Sound(Close(cell, now), true)
    ensures Sound(Close(cell, now).(lut := None), false)
  {
    AccrueKeepsSound(cell, true, now);
  }

  /** Folding the open interval in is exact when `lut` is not after `now`: the sum becomes the whole weight. */
  lemma AccrueIsExact(cell: Cell, now: real)
    requires cell.lut.Some? ==> cell.lut.value <= now
    ensures Accrue(cell, now).sum == Weight(cell, now)
  {
    if cell.lut.Some? && now - cell.lut.value <= 0.0 {
      AreaOfNothing(cell.brightness, now - cell.lut.value);
    }
  }

  /** A tick moves brightness-seconds from the open interval into the sum: the weight is the same at every instant. */
  lemma TickPreservesWeight(cell: Cell, at: real, now: real)
    ensures Weight(Tick(cell, at), now) == Weight(cell, now)
  {
    if cell.lut.Some? && at - cell.lut.value > 0.0 {
      AreaConsecutive(cell.brightness, cell.lut.value, at, now);
    }
  }

  /** So a tick never changes a displayed average. */
  lemma TickPreservesAverage(on: bool, start: Option<real>, cell: Cell, at: real, now: real)
    ensures Average(on, start, Tick(cell, at), now) == Average(on, start, cell, now)
  {
    TickPreservesWeight(cell, at, now);
  }

  /**
    An edit while ON at an instant not before `lut` adds the open interval to
    the sum exactly once and opens a new, empty interval at `now`.
   */
  lemma EditAccountsOnce(cell: Cell, value: Percent, now: real)
    requires cell.lut.Some? ==> cell.lut.value <= now
    ensures Edit(cell, value, true, now).sum == Weight(cell, now)
    ensures Partial(Edit(cell, value, true, now), now) == 0.0
  {
    AreaOfNothing(value, now - now);
    AccrueIsExact(cell, now);
  }

  // ---------------------------------------------------------------------------
  // The reference: the exact integral of a cell's brightness over a session.
  // ---------------------------------------------------------------------------

  /** What can happen to one cell while the instrument is ON. */
  datatype Event = Edited(at: real, value: Percent) | Ticked(at: real)

  /** What one event does to the cell. */
  function Step(cell: Cell, event: Event): Cell {
    match event
    case Edited(t, v) => Edit(cell, v, true, t)
    case Ticked(t) => Tick(cell, t)
  }

  /** The cell after the events, in order. */
  function Run(cell: Cell, events: seq<Event>): Cell
    decreases |events|
  {
    if events == [] then cell else Run(Step(cell, events[0]), events[1..])
  }

  /** The brightness from an event on: an edit's value, or unchanged by a tick. */
  function After(b: Percent, event: Event): Percent {
    if event.Edited? then event.value else b
  }

  /** The events happen in order, none before `from`, none after `now`. */
  predicate Chronological(from: real, events: seq<Event>, now: real)
    decreases |events|
  {
    if events == [] then from <= now
    else from <= events[0].at && Chronological(events[0].at, events[1..], now)
  }

  /**
    The integral over [from, now] of the step function that is `b` until the
    first edit and then each edit's value until the next one; ticks change nothing.
   */
  function Integral(b: Percent, from: real, events: seq<Event>, now: real): real
    decreases |events|
  {
    if events == [] then Area(b, now - from)
    else match events[0]
      case Edited(t, v) => Area(b, t - from) + Integral(v, t, events[1..], now)
      case Ticked(_) => Integral(b, from, events[1..], now)
  }

  lemma {:induction false} IntegralShift(b: Percent, from: real, at: real, events: seq<Event>, now: real)
    ensures Integral(b, from, events, now) == Area(b, at - from) + Integral(b, at, events, now)
    decreases |events|
  {
    if events == [] {
      AreaConsecutive(b, from, at, now);
    } else if events[0].Ticked? {
      IntegralShift(b, from, at, events[1..], now);
    } else {
      AreaConsecutive(b, from, at, events[0].at);
    }
  }

  /** An event not before `lut` adds the interval up to it once and opens the next interval at it. */
  lemma StepAccounts(cell: Cell, event: Event)
    requires cell.lut.Some? && cell.lut.value <= event.at
    ensures Step(cell, event).lut == Some(event.at)
    ensures Step(cell, event).brightness == After(cell.brightness, event)
    ensures Step(cell, event).sum == cell.sum + Area(cell.brightness, event.at - cell.lut.value)
  {
    if event.at - cell.lut.value <= 0.0 {
      AreaOfNothing(cell.brightness, event.at - cell.lut.value);
    }
  }

  /** The integral splits at the first event into its first piece and the rest. */
  lemma IntegralStep(b: Percent, from: real, events: seq<Event>, now: real)
    requires events != []
    ensures Integral(b, from, events, now)
         == Area(b, events[0].at - from) + Integral(After(b, events[0]), events[0].at, events[1..], now)
  {
    if events[0].Ticked? {
      IntegralShift(b, from, events[0].at, events[1..], now);
    }
  }

  /**
    During a session the cell's weight at `now` is its sum when the events began
    plus the exact integral of its brightness since `lut`: no interval is
    dropped or counted twice, whatever mix of edits and ticks happened.
   */
  lemma {:induction false} WeightTracksIntegral(cell: Cell, events: seq<Event>, now: real)
    requires cell.lut.Some? && Chronological(cell.lut.value, events, now)
    ensures Run(cell, events).lut.Some? && Run(cell, events).lut.value <= now
    ensures Weight(Run(cell, events), now)
         == cell.sum + Integral(cell.brightness, cell.lut.value, events, now)
    decreases |events|
  {
    if events != [] {
      var next := Step(cell, events[0]);
      StepAccounts(cell, events[0]);
      WeightTracksIntegral(next, events[1..], now);
      IntegralStep(cell.brightness, cell.lut.value, events, now);
    }
  }

  /**
    The live average of a cell, `now` seconds into a session that opened at
    `t0`, is the exact integral of its brightness over [t0, now] divided by the
    session's length.
   */
  lemma AverageIsIntegral(cell: Cell, t0: real, events: seq<Event>, now: real)
    requires Chronological(t0, events, now) && now > t0
    ensures Average(true, Some(t0), Run(Open(cell, t0), events), now)
         == Integral(cell.brightness, t0, events, now) / (now - t0)
  {
    WeightTracksIntegral(Open(cell, t0), events, now);
  }

  /**
    The average the closing save reads at `saveNow`, for a session opened at
    `t0` and closed at `now`: the same integral over [t0, now], divided by the
    time from the start to the save.
   */
  lemma SavedAverageIsIntegral(cell: Cell, t0: real, events: seq<Event>, now: real, saveNow: real)
    requires Chronological(t0, events, now) && saveNow > t0
    ensures Average(true, Some(t0), Close(Run(Open(cell, t0), events), now), saveNow)
         == Integral(cell.brightness, t0, events, now) / (saveNow - t0)
  {
    var last := Run(Open(cell, t0), events);
    WeightTracksIntegral(Open(cell, t0), events, now);
    AccrueIsExact(last, now);
    SavedAverage(last, t0, now, saveNow);
  }

  /**
    The average the closing save reads at `saveNow`: the closed sum over the
    session's length, or 0 (the zeroed brightness, not the brightness before OFF)
    when that length is not positive.
   */
  lemma SavedAverage(cell: Cell, start: real, now: real, saveNow: real)
    ensures Average(true, Some(start), Close(cell, now), saveNow)
         == if saveNow - start <= 0.0 then 0.0 else Accrue(cell, now).sum / (saveNow - start)
  {
  }

  /**
    The integral of a brightness history over [from, now] lies between 0 and
    100 times the length of the interval.
   */
  lemma {:induction false} IntegralBounds(b: Percent, from: real, events: seq<Event>, now: real)
    requires Chronological(from, events, now)
    ensures 0.0 <= Integral(b, from, events, now) <= 100.0 * (now - from)
    decreases |events|
  {
    if events == [] {
      AreaAtMost(b, now - from);
    } else {
      var t := events[0].at;
      var rest := Integral(After(b, events[0]), t, events[1..], now);
      IntegralBounds(After(b, events[0]), t, events[1..], now);
      IntegralStep(b, from, events, now);
      AreaAtMost(b, t - from);
      AddBounds(Area(b, t - from), rest, from, t, now);
    }
  }

  /** A session's live average brightness is always a percentage. */
  lemma AverageIsPercentage(cell: Cell, t0: real, events: seq<Event>, now: real)
    requires Chronological(t0, events, now)
    ensures 0.0 <= Average(true, Some(t0), Run(Open(cell, t0), events), now) <= 100.0
  {
    if now > t0 {
      AverageIsIntegral(cell, t0, events, now);
      IntegralBounds(cell.brightness, t0, events, now);
      PercentRatio(Integral(cell.brightness, t0, events, now), now - t0);
    }
  }
}
