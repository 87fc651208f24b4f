/** The ATtiny5 build of the low-voltage cutoff (tiny5/code/lvc.c).

    The firmware's `main` is a goto graph with a mode flag `n` (0 active, 1 pending).
    Here it is restructured as one handler per state (`Pass`), with a watchdog
    interrupt (`TickSpec`) that advances the seconds counter `sec`. The class `Lvc5`
    keeps the goto graph's own variables and is proved to follow the handlers. */
module Tiny5 {

  type uint8 = x: int | 0 <= x < 0x100
  type uint16 = x: int | 0 <= x < 0x1_0000

  const LOAD_THRESHOLD: uint8 := 166
  const NO_LOAD_THRESHOLD: uint8 := 174
  /** Cutoffs allowed before the controller kills itself (`cycles == 0xA`). */
  const MAX_CYCLES: uint8 := 10
  /** Seconds added to `sec_read` to form `sec_holder`. */
  const TIMEOUT: uint16 := 5

  /** `uint16_t` addition, wrapping modulo 2^16. */
  function Add16(a: uint16, b: uint16): uint16
  {
    (a + b) % 0x1_0000
  }

  /** `uint8_t` increment, wrapping modulo 2^8. */
  function Inc8(a: uint8): uint8
  {
    (a + 1) % 0x100
  }

  /** Active (n == 0, load on), pending (n == 1, load off, waiting until
      `sec_holder`), or killed (asleep for good). */
  datatype Mode = Active | Pending(secHolder: uint16) | Killed

  /** The controller's state: its mode, the number of cutoffs so far, and the
      LOAD_MOSFET output bit. */
  datatype Ctl = Ctl(mode: Mode, cycles: uint8, loadOn: bool)

  /** At `resurrect:` after power-up: active, no cutoffs, load on. */
  const Init: Ctl := Ctl(Active, 0, true)

  /** What every pass preserves: `cycles` stays below the limit except in the killed
      state, where it is at most the limit; the load is on exactly when active. */
  ghost predicate Inv(c: Ctl)
  {
    match c.mode
    case Active => c.cycles < MAX_CYCLES && c.loadOn
    case Pending(_) => 1 <= c.cycles < MAX_CYCLES && !c.loadOn
    case Killed => 1 <= c.cycles <= MAX_CYCLES && !c.loadOn
  }

  /** One pass of the main loop: one ADC sample `adc`, then, when the graph goes to
      `get_time`, the time read `sec`, then the `time_return_1` test.
      Active: a sample below LOAD_THRESHOLD cuts the load, counts a cycle, kills on
      the tenth, else records `sec_holder = sec + 5` (mod 2^16) and tests it.
      Pending: a sample at or above NO_LOAD_THRESHOLD resurrects; otherwise the time
      is read and `sec > sec_holder` kills. Killed: nothing changes. */
  function Pass(c: Ctl, adc: uint8, sec: uint16): (r: Ctl)
    ensures Inv(c) ==> Inv(r)
    ensures c.mode == Killed ==> r == c
    ensures r.cycles == c.cycles || (c.mode == Active && r.cycles == Inc8(c.cycles))
    ensures r.loadOn && !c.loadOn ==> c.mode.Pending? && adc >= NO_LOAD_THRESHOLD
  {
    match c.mode
    case Killed => c
    case Active =>
      if adc >= LOAD_THRESHOLD then c
      else
        var cycles := Inc8(c.cycles);
        if cycles == MAX_CYCLES then Ctl(Killed, cycles, false)
        else
          var holder := Add16(sec, TIMEOUT);
          Ctl(if sec <= holder then Pending(holder) else Killed, cycles, false)
    case Pending(holder) =>
      if adc >= NO_LOAD_THRESHOLD then Ctl(Active, c.cycles, true)
      else if sec <= holder then c
      else c.(mode := Killed)
  }

  /** A healthy sample keeps an active controller as it is: load on, `cycles` unchanged. */
  lemma HealthySampleKeepsLoad(c: Ctl, adc: uint8, sec: uint16)
    requires Inv(c) && c.mode == Active && adc >= LOAD_THRESHOLD
    ensures Pass(c, adc, sec) == c && c.loadOn
  {
  }

  /** A low sample while active cuts the load and counts one cycle; the tenth cycle
      kills at once, any other records `sec_holder = sec + 5` mod 2^16. */
  lemma LowSampleCutsOff(c: Ctl, adc: uint8, sec: uint16)
    requires Inv(c) && c.mode == Active && adc < LOAD_THRESHOLD
    ensures var r := Pass(c, adc, sec);
      && !r.loadOn && r.cycles == c.cycles + 1
      && (r.cycles == MAX_CYCLES ==> r.mode == Killed)
      && (r.cycles < MAX_CYCLES ==> r.mode == if sec <= Add16(sec, TIMEOUT) then Pending(Add16(sec, TIMEOUT)) else Killed)
  {
  }

  /** Pending, still depleted and not past `sec_holder`: stay pending with the load off. */
  lemma PendingStillLowWaits(c: Ctl, adc: uint8, sec: uint16)
    requires Inv(c) && c.mode.Pending? && adc < NO_LOAD_THRESHOLD && sec <= c.mode.secHolder
    ensures Pass(c, adc, sec) == c && !c.loadOn
  {
  }

  /** Pending and recovered: back to active (n = 0) with the load reconnected;
      the time is not consulted and `cycles` is kept. */
  lemma PendingRecoveredResurrects(c: Ctl, adc: uint8, sec: uint16)
    requires c.mode.Pending? && adc >= NO_LOAD_THRESHOLD
    ensures Pass(c, adc, sec) == Ctl(Active, c.cycles, true)
  {
  }

  /** Pending, still depleted and `sec > sec_holder`: kill. */
  lemma PendingExpiredKills(c: Ctl, adc: uint8, sec: uint16)
    requires c.mode.Pending? && adc < NO_LOAD_THRESHOLD && sec > c.mode.secHolder
    ensures Pass(c, adc, sec) == c.(mode := Killed)
  {
  }

  /** The watchdog's seconds counter and its quarter-second subdivision. */
  datatype Clock = Clock(sec: uint16, frac: uint8)

  /** `ISR(WDT_vect)`: one quarter-second tick; every fourth one advances `sec`. */
  function TickSpec(k: Clock): (r: Clock)
    ensures k.frac < 4 ==> r.frac == (k.frac + 1) % 4
    ensures k.frac < 4 ==> r.sec == if k.frac == 3 then Add16(k.sec, 1) else k.sec
  {
    var frac := Inc8(k.frac);
    if frac == 4 then Clock(Add16(k.sec, 1), 0) else Clock(k.sec, frac)
  }

  /** The clock after `n` ticks. */
  function Ticks(k: Clock, n: nat): Clock
  {
    if n == 0 then k else TickSpec(Ticks(k, n - 1))
  }

  /** Counting one more quarter: the whole-second part grows exactly when the
      quarter count was 3. */
  lemma QuarterStep(m: nat)
    ensures m % 4 == 3 ==> (m + 1) / 4 == m / 4 + 1 && (m + 1) % 4 == 0
    ensures m % 4 != 3 ==> (m + 1) / 4 == m / 4 && (m + 1) % 4 == m % 4 + 1
  {
    assert m / 4 * 4 + m % 4 == m;
  }

  /** Adding one after reducing modulo 2^16 is adding one before. */
  lemma Wrap16Succ(a: nat)
    ensures (a % 0x1_0000 + 1) % 0x1_0000 == (a + 1) % 0x1_0000
  {
    assert a / 0x1_0000 * 0x1_0000 + a % 0x1_0000 == a;
  }

  /** After `n` ticks from `(sec, frac)` the counter has advanced by the number of
      completed seconds, modulo 2^16, and `frac` stays in 0..3. */
  lemma {:induction false} TicksAdvance(k: Clock, n: nat)
    requires k.frac < 4
    ensures Ticks(k, n) == Clock((k.sec + (k.frac + n) / 4) % 0x1_0000, (k.frac + n) % 4)
  {
    if n > 0 {
      TicksAdvance(k, n - 1);
      var m := k.frac + n - 1;
      var prev := Ticks(k, n - 1);
      assert prev == Clock((k.sec + m / 4) % 0x1_0000, m % 4);
      QuarterStep(m);
      Wrap16Succ(k.sec + m / 4);
      assert Ticks(k, n) == TickSpec(prev);
    }
  }

  /** Four ticks advance `sec` by exactly one (mod 2^16) and restore `frac`. */
  lemma FourTicksOneSecond(k: Clock)
    requires k.frac < 4
    ensures Ticks(k, 4) == Clock(Add16(k.sec, 1), k.frac)
  {
    TicksAdvance(k, 4);
    assert (k.frac + 4) / 4 == 1 && (k.frac + 4) % 4 == k.frac;
  }

  /** What can happen next: a watchdog tick, or one main-loop pass with an ADC sample. */
  datatype Event = WatchdogTick | MainPass(adc: uint8)

  /** The whole device: the controller and the clock it reads. */
  datatype System = System(ctl: Ctl, clock: Clock)

  const SysInit: System := System(Init, Clock(0, 0))

  ghost predicate SysInv(s: System)
  {
    Inv(s.ctl) && s.clock.frac < 4
  }

  /** A tick changes only the clock; a pass changes only the controller and reads `sec`. */
  function SysStep(s: System, e: Event): (r: System)
    ensures SysInv(s) ==> SysInv(r)
  {
    match e
    case WatchdogTick => s.(clock := TickSpec(s.clock))
    case MainPass(adc) => s.(ctl := Pass(s.ctl, adc, s.clock.sec))
  }

  function SysRun(s: System, es: seq<Event>): (r: System)
    ensures SysInv(s) ==> SysInv(r)
    decreases |es|
  {
    if es == [] then s else SysStep(SysRun(s, es[..|es| - 1]), es[|es| - 1])
  }

  /** Once killed, no sample and no clock value changes the controller again. */
  lemma {:induction false} KilledIsAbsorbing(s: System, es: seq<Event>)
    requires s.ctl.mode == Killed
    ensures SysRun(s, es).ctl == s.ctl
    decreases |es|
  {
    if es != [] {
      KilledIsAbsorbing(s, es[..|es| - 1]);
    }
  }

  /** True when this event resurrects the controller. */
  predicate Resurrects(c: Ctl, e: Event)
  {
    c.mode.Pending? && e.MainPass? && e.adc >= NO_LOAD_THRESHOLD
  }

  /** The number of resurrections along a run. */
  function Resurrections(s: System, es: seq<Event>): nat
    decreases |es|
  {
    if es == [] then 0
    else
      var before := es[..|es| - 1];
      Resurrections(s, before) + if Resurrects(SysRun(s, before).ctl, es[|es| - 1]) then 1 else 0
  }

  /** How many more resurrections the remaining cycle budget allows. */
  function Budget(c: Ctl): nat
    requires Inv(c)
  {
    match c.mode
    case Active => MAX_CYCLES - 1 - c.cycles
    case Pending(_) => MAX_CYCLES - c.cycles
    case Killed => 0
  }

  /** One event spends a unit of budget when it resurrects and never adds any. */
  lemma StepSpendsBudget(s: System, e: Event)
    requires SysInv(s)
    ensures (if Resurrects(s.ctl, e) then 1 else 0) + Budget(SysStep(s, e).ctl) <= Budget(s.ctl)
  {
  }

  /** Every resurrection spends one unit of the cycle budget. */
  lemma {:induction false} ResurrectionsSpendBudget(s: System, es: seq<Event>)
    requires SysInv(s)
    ensures Resurrections(s, es) + Budget(SysRun(s, es).ctl) <= Budget(s.ctl)
    decreases |es|
  {
    if es != [] {
      var before := es[..|es| - 1];
      var mid := SysRun(s, before);
      ResurrectionsSpendBudget(s, before);
      StepSpendsBudget(mid, es[|es| - 1]);
      assert SysRun(s, es) == SysStep(mid, es[|es| - 1]);
      assert Resurrections(s, es) == Resurrections(s, before) + if Resurrects(mid.ctl, es[|es| - 1]) then 1 else 0;
    }
  }

  /** From power-up, at most nine resurrections happen, whatever the samples and ticks. */
  lemma AtMostNineResurrections(es: seq<Event>)
    ensures Resurrections(SysInit, es) <= 9
  {
    ResurrectionsSpendBudget(SysInit, es);
  }

  /** Samples 170, 165, 168, 172, 176 with the timer standing still: cut off at 165,
      stay pending at 168 and 172, resurrect at 176. */
  lemma ExampleTrace()
    ensures var s := System(Init, Clock(100, 0));
      && SysRun(s, [MainPass(170)]).ctl == Init
      && SysRun(s, [MainPass(170), MainPass(165)]).ctl == Ctl(Pending(105), 1, false)
      && SysRun(s, [MainPass(170), MainPass(165), MainPass(168), MainPass(172)]).ctl == Ctl(Pending(105), 1, false)
      && SysRun(s, [MainPass(170), MainPass(165), MainPass(168), MainPass(172), MainPass(176)]).ctl == Ctl(Active, 1, true)
  {
    var s := System(Init, Clock(100, 0));
    var e1 := [MainPass(170)];
    var e2 := e1 + [MainPass(165)];
    var e3 := e2 + [MainPass(168)];
    var e4 := e3 + [MainPass(172)];
    var e5 := e4 + [MainPass(176)];
    assert e2[..1] == e1 && e3[..2] == e2 && e4[..3] == e3 && e5[..4] == e4;
    assert SysRun(s, e1).ctl == Init;
    assert SysRun(s, e2).ctl == Ctl(Pending(105), 1, false);
    assert SysRun(s, e3).ctl == Ctl(Pending(105), 1, false);
    assert SysRun(s, e4).ctl == Ctl(Pending(105), 1, false);
    assert SysRun(s, e4).clock == s.clock;
    assert e4 == [MainPass(170), MainPass(165), MainPass(168), MainPass(172)];
    assert e5 == [MainPass(170), MainPass(165), MainPass(168), MainPass(172), MainPass(176)];
  }

  /** The firmware's variables: the interrupt's globals `sec` and `sec_frac`, and
      `main`'s locals, with `killed` standing for the sleep at `kill:`. */
  class Lvc5 {
    var sec: uint16
    var secFrac: uint8
    var n: uint8
    var cycles: uint8
    var secHolder: uint16
    var secRead: uint16
    var adcRead: uint8
    var loadOn: bool
    var killed: bool

    function Snapshot(): System
      reads this
    {
      var mode := if killed then Killed else if n == 0 then Active else Pending(secHolder);
      System(Ctl(mode, cycles, loadOn), Clock(sec, secFrac))
    }

    ghost predicate Valid()
      reads this
    {
      n <= 1 && SysInv(Snapshot())
    }

    /** Power-up: `sec`, `sec_frac`, `n` and `cycles` cleared, load switched on. */
    constructor ()
      ensures Valid() && Snapshot() == SysInit
    {
      sec, secFrac := 0, 0;
      n, cycles := 0, 0;
      secHolder, secRead, adcRead := 0, 0, 0;
      loadOn, killed := true, false;
    }

    /** `ISR(WDT_vect)`. */
    method Tick()
      requires Valid()
      modifies this`sec, this`secFrac
      ensures Valid()
      ensures Snapshot() == SysStep(old(Snapshot()), WatchdogTick)
    {
      secFrac := Inc8(secFrac);
      if secFrac == 4 {
        sec := Add16(sec, 1);
        secFrac := 0;
      }
    }

    /** One trip through the goto graph from `get_adc` back to `get_adc`
        (or to the sleep at `kill:`), with `adc` the conversion result. */
    method Step(adc: uint8)
      requires Valid()
      modifies this
      ensures Valid()
      ensures Snapshot() == SysStep(old(Snapshot()), MainPass(adc))
    {
      if killed {
        return;
      }
      adcRead := adc;
      if n == 0 {
        // adc_return_0
        if adcRead >= LOAD_THRESHOLD {
          return;
        }
        loadOn := false;
        cycles := Inc8(cycles);
        if cycles == MAX_CYCLES {
          killed := true;
          return;
        }
        // get_time, time_return_0
        secRead := sec;
        secHolder := Add16(secRead, TIMEOUT);
        n := n + 1;
      } else {
        // adc_return_1
        if adcRead >= NO_LOAD_THRESHOLD {
          n := 0;
          loadOn := true;
          return;
        }
        // get_time
        secRead := sec;
      }
      // time_return_1
      if !(secRead <= secHolder) {
        killed := true;
      }
    }
  }

  /** Power-up followed by the given interleaving of watchdog ticks and main-loop passes. */
  method Simulate(events: seq<Event>) returns (final: System)
    ensures final == SysRun(SysInit, events)
    ensures SysInv(final)
  {
    var dev := new Lvc5();
    var i := 0;
    while i < |events|
      invariant 0 <= i <= |events|
      invariant dev.Valid()
      invariant dev.Snapshot() == SysRun(SysInit, events[..i])
    {
      assert events[..i + 1][..i] == events[..i];
      match events[i] {
        case WatchdogTick => dev.Tick();
        case MainPass(adc) => dev.Step(adc);
      }
      i := i + 1;
    }
    assert events[..i] == events;
    final := dev.Snapshot();
  }
}
