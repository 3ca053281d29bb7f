/**
  Whole sessions driven through the instrument's operations, with the numbers
  they must produce.
 */
module Scenarios {
  import opened Options
  import opened Clock
  import opened Accounting
  import opened InstrumentControl

  /**
    LED (0, 0) is staged at 50 while OFF, the instrument is turned ON at `t0`,
    the LED is set to 100 ten seconds later and the instrument is turned OFF ten
    seconds after that: the saved average is (50 * 10 + 100 * 10) / 20 = 75.
   */
  method WorkedExample(t0: real) returns (avg: real)
    ensures avg == 75.0
  {
    var t1, t2 := t0 + 10.0, t0 + 20.0;
    var instrument := new Instrument();
    instrument.SetBrightness(0, 0, Some(50), t0);
    instrument.TurnOn(t0);
    ghost var started := instrument.CellAt(0, 0);
    assert started == Cell(50, 0.0, Some(t0)) && instrument.isOn;
    instrument.SetBrightness(0, 0, Some(100), t1);
    ghost var edited := instrument.CellAt(0, 0);
    assert edited == Accounting.Edit(started, 100, true, t1);
    FirstInterval(t0, t1);
    ghost var start := instrument.startTime;
    assert start == Some(t0);
    var saved := instrument.TurnOff(t2, t2);
    assert saved.value[0][0] == Average(true, start, Close(edited, t2), t2);
    SecondInterval(t0, t1, t2);
    avg := saved.value[0][0];
  }

  /** Setting 100 ten seconds into an interval at 50 banks 500 brightness-seconds. */
  lemma FirstInterval(t0: real, t1: real)
    requires t1 == t0 + 10.0
    ensures Accounting.Edit(Cell(50, 0.0, Some(t0)), 100, true, t1) == Cell(100, 500.0, Some(t1))
  {
    AreaIsProduct(50, t1 - t0);
  }

  /** Ten more seconds at 100 bring the total to 1500 over a 20-second session. */
  lemma SecondInterval(t0: real, t1: real, t2: real)
    requires t1 == t0 + 10.0 && t2 == t0 + 20.0
    ensures Average(true, Some(t0), Close(Cell(100, 500.0, Some(t1)), t2), t2) == 75.0
  {
    AreaIsProduct(100, t2 - t1);
    assert Close(Cell(100, 500.0, Some(t1)), t2) == Cell(0, 1500.0, Some(t1));
  }

  /**
    Turning OFF in the same instant as turning ON: the session has no length,
    so the average falls back to the brightness, which turning OFF has already
    set to 0 before the save reads it.
   */
  method ImmediateOff(t0: real) returns (avg: real)
    ensures avg == 0.0
  {
    var instrument := new Instrument();
    instrument.SetBrightness(3, 7, Some(30), t0);
    instrument.TurnOn(t0);
    var saved := instrument.TurnOff(t0, t0);
    avg := saved.value[3][7];
  }

  /** A tick one hour, two minutes and five and a half seconds into a session shows `01:02:05`. */
  method TickLabel(t0: real) returns (shown: string)
    ensures shown == Prefix + "01:02:05"
    ensures ReadElapsed(shown) == Some(3725)
  {
    var instrument := new Instrument();
    instrument.TurnOn(t0);
    shown := instrument.Tick(t0 + 3725.5);
    assert Truncate(t0 + 3725.5 - t0) == 3725;
    RunningTimeExample();
    ReadRunningTime(3725);
  }
}
