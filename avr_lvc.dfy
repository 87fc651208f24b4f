/** The ATtiny84 build of the low-voltage cutoff (tiny84/LVC_code/LVC_C/avr_LVC.c).

    Each pass of `main`'s endless loop takes one ADC sample and, depending on the
    battery status ('a' active, 'd' disabled) and the countdown `time`, keeps the load
    on, cuts it off, counts one more second of depletion, resurrects, or clears the
    regulator's ENABLE pin. Port bits are booleans; the ADC sample is a parameter. */
module Tiny84 {

  /** A 10-bit ADC conversion result. */
  type Adc10 = v: int | 0 <= v < 1024

  /** Cell counts for which `CELLS * 715` still fits avr-gcc's 16-bit signed `int`. */
  type CellCount = c: int | 1 <= c <= 45 witness 2

  const DEFAULT_CELLS: CellCount := 2
  const WAIT_TIME: int := 5000
  const ACTIVE: char := 'a'
  const DISABLED: char := 'd'

  /** LOAD_THRESHOLD: trip point while the load is connected. The result fits in
      16 bits, so the `uint16_t` cast loses nothing. */
  function LoadThreshold(cells: CellCount): (t: int)
    ensures 0 < t < 0x1_0000
  {
    cells * 675 / 3
  }

  /** NO_LOAD_THRESHOLD: recovery point while the load is off. */
  function NoLoadThreshold(cells: CellCount): (t: int)
    ensures 0 < t < 0x1_0000
  {
    cells * 715 / 3
  }

  /** The hysteresis gap: for every admissible cell count the recovery threshold is
      strictly above the trip threshold. */
  lemma Hysteresis(cells: CellCount)
    ensures LoadThreshold(cells) + 13 <= NoLoadThreshold(cells)
  {
  }

  /** With the default two cells the thresholds are 450 and 476. */
  lemma DefaultThresholds()
    ensures LoadThreshold(DEFAULT_CELLS) == 450 && NoLoadThreshold(DEFAULT_CELLS) == 476
  {
  }

  /** The controller's observable state: `battery_status`, `time`, and the port bits
      LOAD (PORTA), ENABLE, GREEN_LED and RED_LED (PORTB). */
  datatype Lvc84 = Lvc84(status: char, time: int, load: bool, green: bool, red: bool, enable: bool)

  /** State on entry to the loop: status 'a', time 0, all port bits still at reset (0). */
  const Init: Lvc84 := Lvc84(ACTIVE, 0, false, false, false, false)

  /** What every pass of the loop preserves. */
  ghost predicate Inv(s: Lvc84)
  {
    && (s.status == ACTIVE || s.status == DISABLED)
    && 0 <= s.time <= WAIT_TIME
    && (s.status == ACTIVE ==> s.time == 0)
    && (s.status == DISABLED ==> !s.load && !s.green && s.red)
    && (s.status == DISABLED && s.time < WAIT_TIME ==> s.enable)
  }

  /** True when the countdown has expired: from here on every pass calls `kill()`. */
  predicate Expired(s: Lvc84)
  {
    s.status == DISABLED && s.time == WAIT_TIME
  }

  /** One pass of the loop on sample `v` (avr_LVC.c lines 75-96). */
  function Next(cells: CellCount, s: Lvc84, v: Adc10): (r: Lvc84)
    ensures Inv(s) ==> Inv(r)
    ensures s.status != ACTIVE ==> r.load == s.load && r.green == s.green && r.red == s.red
    ensures s.status != ACTIVE ==> r.time == s.time || r.time == s.time + 1 || (r.time == 0 && r.status == ACTIVE)
  {
    if s.status == ACTIVE then
      if v > LoadThreshold(cells) then
        s.(enable := true, load := true, green := true, red := false)
      else
        s.(enable := true, load := false, green := false, red := true, status := DISABLED)
    else if s.time < WAIT_TIME then
      if v < NoLoadThreshold(cells) then s.(time := s.time + 1)
      else s.(status := ACTIVE, time := 0)
    else
      s.(enable := false)
  }

  /** The state after the samples `vs`, in order. */
  function Run(cells: CellCount, s: Lvc84, vs: seq<Adc10>): (r: Lvc84)
    ensures Inv(s) ==> Inv(r)
    decreases |vs|
  {
    if vs == [] then s else Next(cells, Run(cells, s, vs[..|vs| - 1]), vs[|vs| - 1])
  }

  /** A charged battery keeps the status active, the load and green LED on and red off. */
  lemma ChargedKeepsLoad(cells: CellCount, s: Lvc84, v: Adc10)
    requires s.status == ACTIVE && v > LoadThreshold(cells)
    ensures var r := Next(cells, s, v);
      r.status == ACTIVE && r.time == s.time && r.load && r.green && !r.red && r.enable
  {
  }

  /** A sample at or below LOAD_THRESHOLD (equality included) halts: status 'd',
      load and green off, red on. */
  lemma DepletedHalts(cells: CellCount, s: Lvc84, v: Adc10)
    requires s.status == ACTIVE && v <= LoadThreshold(cells)
    ensures var r := Next(cells, s, v);
      r.status == DISABLED && r.time == s.time && !r.load && !r.green && r.red && r.enable
  {
  }

  /** While disabled and still depleted, the countdown advances by exactly one. */
  lemma DepletedWaits(cells: CellCount, s: Lvc84, v: Adc10)
    requires s.status == DISABLED && s.time < WAIT_TIME && v < NoLoadThreshold(cells)
    ensures Next(cells, s, v) == s.(time := s.time + 1)
  {
  }

  /** A reading at or above NO_LOAD_THRESHOLD before the countdown expires resurrects:
      status 'a', time 0, and no port bit changes; the load comes back only on a later
      pass through `work()`. */
  lemma RecoveredResurrects(cells: CellCount, s: Lvc84, v: Adc10)
    requires s.status == DISABLED && s.time < WAIT_TIME && v >= NoLoadThreshold(cells)
    ensures Next(cells, s, v) == s.(status := ACTIVE, time := 0)
  {
  }

  /** Running `a` then `b` is running `a + b`. */
  lemma {:induction false} RunAppend(cells: CellCount, s: Lvc84, a: seq<Adc10>, b: seq<Adc10>)
    ensures Run(cells, s, a + b) == Run(cells, Run(cells, s, a), b)
    decreases |b|
  {
    if b == [] {
      assert a + b == a;
    } else {
      var ab := a + b;
      var b' := b[..|b| - 1];
      assert ab[..|ab| - 1] == a + b';
      assert ab[|ab| - 1] == b[|b| - 1];
      RunAppend(cells, s, a, b');
      assert Run(cells, s, ab) == Next(cells, Run(cells, s, a + b'), b[|b| - 1]);
    }
  }

  /** Any run of samples all above LOAD_THRESHOLD keeps a charged controller active,
      and after at least one of them the load is on. */
  lemma {:induction false} ChargedRunKeepsLoad(cells: CellCount, s: Lvc84, vs: seq<Adc10>)
    requires s.status == ACTIVE
    requires forall i :: 0 <= i < |vs| ==> vs[i] > LoadThreshold(cells)
    ensures var r := Run(cells, s, vs);
      r.status == ACTIVE && r.time == s.time && (vs != [] ==> r.load && r.green && !r.red && r.enable)
    decreases |vs|
  {
    if vs != [] {
      ChargedRunKeepsLoad(cells, s, vs[..|vs| - 1]);
    }
  }

  /** While the battery stays depleted, each pass adds exactly one to the countdown. */
  lemma {:induction false} DepletedRunCounts(cells: CellCount, s: Lvc84, vs: seq<Adc10>)
    requires s.status == DISABLED && s.time + |vs| <= WAIT_TIME
    requires forall i :: 0 <= i < |vs| ==> vs[i] < NoLoadThreshold(cells)
    ensures Run(cells, s, vs) == s.(time := s.time + |vs|)
    decreases |vs|
  {
    if vs != [] {
      DepletedRunCounts(cells, s, vs[..|vs| - 1]);
    }
  }

  /** Once the countdown has expired, every further pass only clears ENABLE: status,
      time, LOAD and the LEDs never change again, whatever the samples. */
  lemma {:induction false} ExpiredIsAbsorbing(cells: CellCount, s: Lvc84, vs: seq<Adc10>)
    requires Expired(s)
    ensures Run(cells, s, vs) == if vs == [] then s else s.(enable := false)
    decreases |vs|
  {
    if vs != [] {
      ExpiredIsAbsorbing(cells, s, vs[..|vs| - 1]);
    }
  }

  /** A battery that stays below NO_LOAD_THRESHOLD for the whole countdown ends with
      ENABLE cleared and the load off: `WAIT_TIME - time` waits, then one `kill()`. */
  lemma DepletedBatteryIsKilled(cells: CellCount, s: Lvc84, lows: seq<Adc10>, v: Adc10)
    requires Inv(s) && s.status == DISABLED && |lows| == WAIT_TIME - s.time
    requires forall i :: 0 <= i < |lows| ==> lows[i] < NoLoadThreshold(cells)
    ensures var r := Run(cells, s, lows + [v]);
      Expired(r) && !r.enable && !r.load && !r.green && r.red
  {
    DepletedRunCounts(cells, s, lows);
    RunAppend(cells, s, lows, [v]);
    ExpiredIsAbsorbing(cells, Run(cells, s, lows), [v]);
  }

  /** The firmware's state, updated in place by the helpers of avr_LVC.c. */
  class Controller {
    const cells: CellCount
    var status: char
    var time: int
    var load: bool
    var enable: bool
    var green: bool
    var red: bool

    function Snapshot(): Lvc84
      reads this
    {
      Lvc84(status, time, load, green, red, enable)
    }

    ghost predicate Valid()
      reads this
    {
      Inv(Snapshot())
    }

    /** `main`'s locals before the loop; the port bits are at their reset value. */
    constructor (cells: CellCount)
      ensures this.cells == cells && Snapshot() == Init && Valid()
    {
      this.cells := cells;
      status := ACTIVE;
      time := 0;
      load, enable, green, red := false, false, false, false;
    }

    /** `work()`: load on, green on, red off. */
    method Work()
      modifies this
      ensures load && green && !red
      ensures status == old(status) && time == old(time) && enable == old(enable)
    {
      load := true;
      green := true;
      red := false;
    }

    /** `halt()`: load off, green off, red on, status disabled. */
    method Halt()
      modifies this
      ensures !load && !green && red && status == DISABLED
      ensures time == old(time) && enable == old(enable)
    {
      load := false;
      green := false;
      red := true;
      status := DISABLED;
    }

    /** `wait()`: one more second of depletion. */
    method Wait()
      modifies this`time
      ensures time == old(time) + 1
    {
      time := time + 1;
    }

    /** `resurrect()`: back to active with the countdown reset; no port bit changes. */
    method Resurrect()
      modifies this`status, this`time
      ensures status == ACTIVE && time == 0
    {
      status := ACTIVE;
      time := 0;
    }

    /** `kill()`: clear the regulator's ENABLE pin (ultra low power mode). */
    method Kill()
      modifies this`enable
      ensures !enable
    {
      enable := false;
    }

    /** One pass of `main`'s loop on ADC sample `voltage`. */
    method Iterate(voltage: Adc10)
      requires Valid()
      modifies this
      ensures Valid()
      ensures Snapshot() == Next(cells, old(Snapshot()), voltage)
    {
      if status == ACTIVE {
        enable := true;
        if voltage > LoadThreshold(cells) {
          Work();
        } else {
          Halt();
        }
      } else {
        if time < WAIT_TIME {
          if voltage < NoLoadThreshold(cells) {
            Wait();
          } else {
            Resurrect();
          }
        } else {
          Kill();
        }
      }
    }
  }

  /** `main`: set up the controller, then run the loop over the samples read so far. */
  method RunLoop(cells: CellCount, samples: seq<Adc10>) returns (final: Lvc84)
    ensures final == Run(cells, Init, samples)
    ensures Inv(final)
  {
    var c := new Controller(cells);
    var i := 0;
    while i < |samples|
      invariant 0 <= i <= |samples|
      invariant c.cells == cells && c.Valid()
      invariant c.Snapshot() == Run(cells, Init, samples[..i])
    {
      assert samples[..i + 1][..i] == samples[..i];
      c.Iterate(samples[i]);
      i := i + 1;
    }
    assert samples[..i] == samples;
    final := c.Snapshot();
  }
}
