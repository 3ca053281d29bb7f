/**
  The instrument's session state machine: an 8 x 12 grid of LEDs whose
  brightness the user edits, an ON/OFF session during which each LED's
  brightness-seconds are accumulated, a one-second tick, and the frame handed
  to the device at start-up, after an edit while ON, on turning ON and on
  turning OFF (an edit while OFF and the tick send nothing). Time is passed in
  as `now` (seconds); the matrices handed to the serial sink are recorded in
  the ghost log `sent`.
 */
module InstrumentControl {
  import opened Options
  import opened Matrix
  import opened Text
  import opened Wire
  import opened Clock
  import opened Accounting

  class Instrument {
    var isOn: bool
    var startTime: Option<real>
    var brightness: array2<Percent>
    var timeSum: array2<real>
    var lastUpdate: array2<Option<real>>

    /** Every matrix handed to the serial sink, oldest first; each was encoded as the text `Frame(m)`. */
    ghost var sent: seq<seq<seq<int>>>

    ghost predicate Shaped()
      reads this`brightness, this`timeSum, this`lastUpdate
    {
      && brightness.Length0 == Rows && brightness.Length1 == Cols
      && timeSum.Length0 == Rows && timeSum.Length1 == Cols
      && lastUpdate.Length0 == Rows && lastUpdate.Length1 == Cols
    }

    /** The accounting state of LED (r, c). */
    function CellAt(r: nat, c: nat): Cell
      reads this`brightness, this`timeSum, this`lastUpdate, brightness, timeSum, lastUpdate
      requires Shaped() && InGrid(r, c)
    {
      Cell(brightness[r, c], timeSum[r, c], lastUpdate[r, c])
    }

    /** The brightness matrix as a value. */
    function Snapshot(): (m: seq<seq<int>>)
      reads this`brightness, brightness
      requires brightness.Length0 == Rows && brightness.Length1 == Cols
      ensures IsGrid(m)
      ensures forall r, c :: InGrid(r, c) ==> m[r][c] == brightness[r, c] as int
    {
      var a := brightness;
      seq(Rows, r requires 0 <= r < a.Length0 reads a =>
        seq(Cols, c requires 0 <= c < a.Length1 reads a => a[r, c] as int))
    }

    /** A matrix with every LED dark is the all-zero matrix. */
    lemma DarkIsZero()
      requires Shaped()
      requires forall r, c :: InGrid(r, c) ==> brightness[r, c] == 0
      ensures Snapshot() == Zero()
    {
      var m, z := Snapshot(), Zero();
      forall r | 0 <= r < Rows ensures m[r] == z[r] {
        assert forall c :: 0 <= c < Cols ==> m[r][c] == z[r][c];
      }
    }

    /**
      The session invariant: the instrument is ON exactly when a start time is
      recorded, exactly when every LED has a last-accounted time, and no
      accumulated sum is negative.
     */
    ghost predicate Valid()
      reads this, brightness, timeSum, lastUpdate
    {
      && Shaped()
      && (isOn <==> startTime.Some?)
      && forall r, c :: InGrid(r, c) ==> timeSum[r, c] >= 0.0 && (lastUpdate[r, c].Some? <==> isOn)
    }

    /** Start-up: OFF, no session, every LED at 0, and the all-zero frame sent to set a known state. */
    constructor ()
      ensures Valid() && fresh(brightness) && fresh(timeSum) && fresh(lastUpdate)
      ensures !isOn && startTime == None
      ensures forall r, c :: InGrid(r, c) ==> CellAt(r, c) == Cell(0, 0.0, None)
      ensures sent == [Zero()]
    {
      isOn := false;
      startTime := None;
      brightness := new Percent[Rows, Cols]((_, _) => 0);
      timeSum := new real[Rows, Cols]((_, _) => 0.0);
      lastUpdate := new Option<real>[Rows, Cols]((_, _) => None);
      sent := [];
      new;
      DarkIsZero();
      var _ := SendMatrix();
    }

    /** `send_matrix`'s frame for the current matrix, built column by column. */
    method BuildTransmission() returns (transmission: string)
      requires Shaped()
      ensures transmission == Frame(Snapshot())
    {
      ghost var m := Snapshot();
      var parts: seq<string> := [];
      for col := 0 to Cols
        invariant parts == Fields(m)[..col * Rows]
      {
        NextColumn(col);
        for row := 0 to Rows
          invariant parts == Fields(m)[..col * Rows + row]
        {
          FieldsStep(m, row, col);
          assert m[row][col] == brightness[row, col];
          parts := parts + [Str(brightness[row, col])];
        }
      }
      assert parts == Fields(m);
      transmission := "<" + Join(parts, ',') + ">";
    }

    /** Hands the current matrix to the serial sink as the text `transmission`. */
    method SendMatrix() returns (transmission: string)
      requires Valid()
      modifies this`sent
      ensures Valid()
      ensures sent == old(sent) + [Snapshot()]
      ensures transmission == Frame(Snapshot())
    {
      transmission := BuildTransmission();
      sent := sent + [Snapshot()];
    }

    /**
      A grid button click: `answer` is what the brightness dialog returned
      (None when it was cancelled). While ON the LED's open interval is closed
      at its old brightness and the new matrix is sent; while OFF only the
      brightness is staged.
     */
    method SetBrightness(row: nat, col: nat, answer: Option<Percent>, now: real)
      requires Valid() && InGrid(row, col)
      modifies this`sent, brightness, timeSum, lastUpdate
      ensures Valid()
      ensures forall r, c :: InGrid(r, c) && (r != row || c != col) ==> CellAt(r, c) == old(CellAt(r, c))
      ensures answer.None? ==> CellAt(row, col) == old(CellAt(row, col)) && sent == old(sent)
      ensures answer.Some? ==> CellAt(row, col) == Accounting.Edit(old(CellAt(row, col)), answer.value, isOn, now)
      ensures answer.Some? && isOn ==> sent == old(sent) + [Snapshot()]
      ensures answer.Some? && !isOn ==> sent == old(sent)
    {
      if answer.None? {
        return;
      }
      var value := answer.value;
      ghost var before := CellAt(row, col);
      EditCell(row, col, value, now);
      forall r, c | InGrid(r, c) ensures Sound(CellAt(r, c), isOn) {
        if r == row && c == col {
          EditKeepsSound(before, value, isOn, now);
        } else {
          assert CellAt(r, c) == old(CellAt(r, c));
        }
      }
      if isOn {
        var _ := SendMatrix();
      }
    }

    /** The accounting part of a click on LED (row, col) whose dialog returned `value`. */
    method EditCell(row: nat, col: nat, value: Percent, now: real)
      requires Shaped() && InGrid(row, col)
      modifies brightness, timeSum, lastUpdate
      ensures CellAt(row, col) == Accounting.Edit(old(CellAt(row, col)), value, isOn, now)
      ensures forall r, c :: InGrid(r, c) && (r != row || c != col) ==> CellAt(r, c) == old(CellAt(r, c))
    {
      var oldValue := brightness[row, col];
      if isOn {
        var lut := lastUpdate[row, col];
        if lut.Some? {
          var dt := now - lut.value;
          if dt > 0.0 {
            timeSum[row, col] := timeSum[row, col] + Area(oldValue, dt);
          }
        }
        lastUpdate[row, col] := Some(now);
      }
      brightness[row, col] := value;
    }

    /**
      Turning ON: a session starts at `now`, every sum restarts at 0, every LED's
      interval opens at `now`, and the staged matrix is sent unchanged.
     */
    method TurnOn(now: real)
      requires Valid()
      modifies this, lastUpdate
      ensures Valid() && fresh(timeSum) && brightness == old(brightness) && lastUpdate == old(lastUpdate)
      ensures isOn && startTime == Some(now)
      ensures forall r, c :: InGrid(r, c) ==> CellAt(r, c) == Open(old(CellAt(r, c)), now)
      ensures Snapshot() == old(Snapshot())
      ensures sent == old(sent) + [Snapshot()]
    {
      StartSession(now);
      var _ := SendMatrix();
    }

    /** The state change of turning ON, before the matrix is sent. */
    method StartSession(now: real)
      requires Valid()
      modifies this`isOn, this`startTime, this`timeSum, lastUpdate
      ensures Valid() && fresh(timeSum)
      ensures isOn && startTime == Some(now)
      ensures forall r, c :: InGrid(r, c) ==> CellAt(r, c) == Open(old(CellAt(r, c)), now)
    {
      isOn := true;
      startTime := Some(now);
      timeSum := new real[Rows, Cols]((_, _) => 0.0);
      OpenAll(now);
    }

    /**
      Turning OFF. Already OFF: nothing happens. Otherwise every LED's last
      interval is folded into its sum, the matrix is zeroed and the all-zero
      frame sent, the closing save reads every LED's average at `saveNow`
      (returned as `saved`), and the session is cleared, whatever the save did.
     */
    method TurnOff(now: real, saveNow: real) returns (saved: Option<seq<seq<real>>>)
      requires Valid()
      modifies this, timeSum
      ensures Valid() && !isOn && timeSum == old(timeSum)
      ensures !old(isOn) ==> brightness == old(brightness) && lastUpdate == old(lastUpdate)
      ensures old(isOn) ==> fresh(brightness) && fresh(lastUpdate)
      ensures !old(isOn) ==> saved == None && startTime == old(startTime) && sent == old(sent)
      ensures !old(isOn) ==> forall r, c :: InGrid(r, c) ==> CellAt(r, c) == old(CellAt(r, c))
      ensures old(isOn) ==> startTime == None && sent == old(sent) + [Zero()]
      ensures old(isOn) ==> forall r, c :: InGrid(r, c) ==>
        CellAt(r, c) == Close(old(CellAt(r, c)), now).(lut := None)
      ensures old(isOn) ==> saved.Some? && IsGrid(saved.value)
      ensures old(isOn) ==> forall r, c :: InGrid(r, c) ==>
        saved.value[r][c] == Average(true, old(startTime), Close(old(CellAt(r, c)), now), saveNow)
    {
      if !isOn {
        return None;
      }
      var table := Shutdown(now, saveNow);
      saved := Some(table);
    }

    /** Turning OFF from ON: close, zero and send, save, then clear the session. */
    method Shutdown(now: real, saveNow: real) returns (table: seq<seq<real>>)
      requires Valid() && isOn
      modifies this, timeSum
      ensures Valid() && !isOn && startTime == None && timeSum == old(timeSum)
      ensures fresh(brightness) && fresh(lastUpdate)
      ensures sent == old(sent) + [Zero()]
      ensures forall r, c :: InGrid(r, c) ==> CellAt(r, c) == Close(old(CellAt(r, c)), now).(lut := None)
      ensures IsGrid(table)
      ensures forall r, c :: InGrid(r, c) ==>
        table[r][c] == Average(true, old(startTime), Close(old(CellAt(r, c)), now), saveNow)
    {
      CloseIntervals(now);
      table := SessionAverages(saveNow);
      EndSession();
    }

    /** The first half of turning OFF: each last interval folded in, every LED set to 0 and the dark matrix sent. */
    method CloseIntervals(now: real)
      requires Valid() && isOn
      modifies this`brightness, this`sent, timeSum
      ensures Valid() && fresh(brightness)
      ensures forall r, c :: InGrid(r, c) ==> CellAt(r, c) == Close(old(CellAt(r, c)), now)
      ensures sent == old(sent) + [Zero()]
    {
      AccrueAll(now);
      brightness := new Percent[Rows, Cols]((_, _) => 0);
      forall r, c | InGrid(r, c) ensures Sound(CellAt(r, c), true) {
        CloseKeepsSound(old(CellAt(r, c)), now);
      }
      DarkIsZero();
      var _ := SendMatrix();
    }

    /** The last step of turning OFF: no session and no open interval anywhere. */
    method EndSession()
      requires Valid()
      modifies this`isOn, this`startTime, this`lastUpdate
      ensures Valid() && fresh(lastUpdate)
      ensures !isOn && startTime == None
      ensures forall r, c :: InGrid(r, c) ==> CellAt(r, c) == old(CellAt(r, c)).(lut := None)
    {
      isOn := false;
      startTime := None;
      lastUpdate := new Option<real>[Rows, Cols]((_, _) => None);
    }

    /** The ON/OFF button. */
    method Toggle(now: real, saveNow: real) returns (saved: Option<seq<seq<real>>>)
      requires Valid()
      modifies this, timeSum, lastUpdate
      ensures Valid()
      ensures brightness == old(brightness) || fresh(brightness)
      ensures timeSum == old(timeSum) || fresh(timeSum)
      ensures lastUpdate == old(lastUpdate) || fresh(lastUpdate)
      ensures isOn == !old(isOn)
      ensures !old(isOn) ==> saved == None && startTime == Some(now)
      ensures !old(isOn) ==> forall r, c :: InGrid(r, c) ==> CellAt(r, c) == Open(old(CellAt(r, c)), now)
      ensures !old(isOn) ==> Snapshot() == old(Snapshot()) && sent == old(sent) + [Snapshot()]
      ensures old(isOn) ==> startTime == None && sent == old(sent) + [Zero()]
      ensures old(isOn) ==> forall r, c :: InGrid(r, c) ==>
        CellAt(r, c) == Close(old(CellAt(r, c)), now).(lut := None)
      ensures old(isOn) ==> saved.Some? && IsGrid(saved.value)
      ensures old(isOn) ==> forall r, c :: InGrid(r, c) ==>
        saved.value[r][c] == Average(true, old(startTime), Close(old(CellAt(r, c)), now), saveNow)
    {
      if !isOn {
        TurnOn(now);
        saved := None;
      } else {
        saved := TurnOff(now, saveNow);
      }
    }

    /**
      The one-second timer. While ON every LED's open interval is folded into
      its sum where `now - lut > 0`, and the label shows the whole seconds since
      the session started; while OFF nothing changes and the label is idle.
     */
    method Tick(now: real) returns (shown: string)
      requires Valid()
      modifies timeSum, lastUpdate
      ensures Valid()
      ensures !isOn || startTime.None? ==> shown == Idle
      ensures !isOn || startTime.None? ==> forall r, c :: InGrid(r, c) ==> CellAt(r, c) == old(CellAt(r, c))
      ensures isOn && startTime.Some? ==> shown == RunningTime(Truncate(now - old(startTime).value))
      ensures isOn && startTime.Some? ==> forall r, c :: InGrid(r, c) ==>
        CellAt(r, c) == Accounting.Tick(old(CellAt(r, c)), now)
    {
      if !isOn || startTime.None? {
        shown := Idle;
        return;
      }
      // The label reads only startTime, which the accumulation leaves alone.
      shown := RunningTime(Truncate(now - startTime.value));
      TickAll(now);
      forall r, c | InGrid(r, c) ensures Sound(CellAt(r, c), isOn) {
        TickKeepsSound(old(CellAt(r, c)), isOn, now);
      }
    }

    /** The lut loop of `_turn_on`: every LED's interval opens at `now`. */
    method OpenAll(now: real)
      requires Shaped()
      modifies lastUpdate
      ensures forall r, c :: InGrid(r, c) ==> lastUpdate[r, c] == Some(now)
    {
      for r := 0 to Rows
        invariant forall i, j :: InGrid(i, j) && i < r ==> lastUpdate[i, j] == Some(now)
      {
        for c := 0 to Cols
          invariant forall i, j :: InGrid(i, j) && Before(i, j, r, c) ==> lastUpdate[i, j] == Some(now)
        {
          lastUpdate[r, c] := Some(now);
        }
      }
    }

    /** The accumulation loop of `_turn_off`: each LED's last interval is folded into its sum. */
    method AccrueAll(now: real)
      requires Shaped()
      modifies timeSum
      ensures forall r, c :: InGrid(r, c) ==> CellAt(r, c) == Accrue(old(CellAt(r, c)), now)
    {
      for r := 0 to Rows
        invariant forall i, j :: InGrid(i, j) ==>
          timeSum[i, j] == if i < r then Accrue(old(CellAt(i, j)), now).sum else old(timeSum[i, j])
      {
        for c := 0 to Cols
          invariant forall i, j :: InGrid(i, j) ==>
            timeSum[i, j] == if Before(i, j, r, c) then Accrue(old(CellAt(i, j)), now).sum else old(timeSum[i, j])
        {
          var lut := lastUpdate[r, c];
          if lut.Some? {
            var dt := now - lut.value;
            if dt > 0.0 {
              timeSum[r, c] := timeSum[r, c] + Area(brightness[r, c], dt);
            }
          }
        }
      }
    }

    /** The accumulation loop of `_timer_tick`: intervals are folded in and restarted where `now - lut > 0`. */
    method TickAll(now: real)
      requires Shaped()
      modifies timeSum, lastUpdate
      ensures forall r, c :: InGrid(r, c) ==> CellAt(r, c) == Accounting.Tick(old(CellAt(r, c)), now)
    {
      for r := 0 to Rows
        invariant forall i, j :: InGrid(i, j) ==>
          CellAt(i, j) == if i < r then Accounting.Tick(old(CellAt(i, j)), now) else old(CellAt(i, j))
      {
        for c := 0 to Cols
          invariant forall i, j :: InGrid(i, j) ==>
            CellAt(i, j) == if Before(i, j, r, c) then Accounting.Tick(old(CellAt(i, j)), now) else old(CellAt(i, j))
        {
          var lut := lastUpdate[r, c];
          if lut.Some? {
            var dt := now - lut.value;
            if dt > 0.0 {
              timeSum[r, c] := timeSum[r, c] + Area(brightness[r, c], dt);
              lastUpdate[r, c] := Some(now);
            }
          }
        }
      }
    }

    /** The per-LED averages at instant `t`, row by row, as the session log lists them. */
    method SessionAverages(t: real) returns (table: seq<seq<real>>)
      requires Valid()
      ensures IsGrid(table)
      ensures forall r, c :: InGrid(r, c) ==> table[r][c] == Average(isOn, startTime, CellAt(r, c), t)
    {
      table := [];
      for r := 0 to Rows
        invariant |table| == r
        invariant forall i :: 0 <= i < r ==> |table[i]| == Cols
        invariant forall i, j :: 0 <= i < r && 0 <= j < Cols ==>
          table[i][j] == Average(isOn, startTime, CellAt(i, j), t)
      {
        var line: seq<real> := [];
        for c := 0 to Cols
          invariant |line| == c
          invariant forall j :: 0 <= j < c ==> line[j] == Average(isOn, startTime, CellAt(r, j), t)
        {
          line := line + [Average(isOn, startTime, CellAt(r, c), t)];
        }
        table := table + [line];
      }
    }
  }
}
