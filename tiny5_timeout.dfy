/** The pending-mode timeout of the ATtiny5 build (tiny5/code/lvc.c lines 98 and 101)
    compares absolute `uint16_t` values: `sec_read <= sec_holder`, where
    `sec_holder = sec_read + 5` wraps modulo 2^16. Near the wrap of `sec` the test
    either fails at once or can never fail. This module shows both, and defines the
    test the "5 second timeout" asks for: the seconds elapsed since the cutoff,
    measured as a wrapping difference, compared with 5. */
module Tiny5Timeout {
  import opened Tiny5

  /** `uint16_t` subtraction, wrapping modulo 2^16. */
  function Sub16(a: uint16, b: uint16): uint16
  {
    (a - b) % 0x1_0000
  }

  /** Seconds from `start` to `now` on the wrapping counter: the unique `d` with
      `start + d == now` modulo 2^16. */
  function Elapsed(start: uint16, now: uint16): (d: uint16)
    ensures Add16(start, d) == now
  {
    Sub16(now, start)
  }

  /** `Elapsed` undoes adding `d` seconds, across the wrap too. */
  lemma ElapsedAfter(start: uint16, d: uint16)
    ensures Elapsed(start, Add16(start, d)) == d
  {
    if start + d >= 0x1_0000 {
      assert Add16(start, d) == start + d - 0x1_0000;
    }
  }

  // ---- As written -------------------------------------------------------------

  /** A cutoff pass (not the tenth) with the original test is killed on the spot
      exactly when it happens in the last five seconds before `sec` wraps: the
      wrapped `sec_holder` is then below `sec_read`, so no recovery sample is ever
      taken. */
  lemma CutoffNearWrapKillsAtOnce(c: Ctl, adc: uint8, sec: uint16)
    requires Inv(c) && c.mode == Active && c.cycles + 1 < MAX_CYCLES && adc < LOAD_THRESHOLD
    ensures Pass(c, adc, sec).mode == Killed <==> sec > 0xFFFF - TIMEOUT
  {
  }

  /** A cutoff at `sec == 65530` leaves `sec_holder == 65535`; every `uint16_t` is
      `<= 65535`, so no later time read ever kills: whatever the ticks, a battery
      that never recovers keeps the controller pending for good. */
  lemma {:induction false} HolderAtTopNeverExpires(s: System, es: seq<Event>)
    requires s.ctl.mode == Pending(0xFFFF)
    requires forall i :: 0 <= i < |es| && es[i].MainPass? ==> es[i].adc < NO_LOAD_THRESHOLD
    ensures SysRun(s, es).ctl == s.ctl
    decreases |es|
  {
    if es != [] {
      HolderAtTopNeverExpires(s, es[..|es| - 1]);
    }
  }

  /** The cutoff that produces that holder. */
  lemma CutoffAt65530NeverExpires(c: Ctl, adc: uint8)
    requires Inv(c) && c.mode == Active && c.cycles + 1 < MAX_CYCLES && adc < LOAD_THRESHOLD
    ensures Pass(c, adc, 0xFFFF - TIMEOUT).mode == Pending(0xFFFF)
  {
  }

  // ---- Corrected ---------------------------------------------------------------

  /** Like `Mode`, but the pending state records the time of the cutoff. */
  datatype FixedMode = Running | WaitingSince(start: uint16) | Asleep

  datatype FixedCtl = FixedCtl(mode: FixedMode, cycles: uint8, loadOn: bool)

  /** The same controller seen with a deadline, as the firmware stores it. */
  function Deadline(f: FixedCtl): Ctl
  {
    var mode := match f.mode
      case Running => Active
      case WaitingSince(start) => Pending(Add16(start, TIMEOUT))
      case Asleep => Killed;
    Ctl(mode, f.cycles, f.loadOn)
  }

  /** One pass with the relative timeout: pending expires once more than TIMEOUT
      seconds have elapsed since the cutoff. Everything else is as in `Pass`. */
  function PassFixed(f: FixedCtl, adc: uint8, sec: uint16): (r: FixedCtl)
    ensures Inv(Deadline(f)) ==> Inv(Deadline(r))
    ensures f.mode == Asleep ==> r == f
    ensures f.mode == Running && adc < LOAD_THRESHOLD && Inc8(f.cycles) != MAX_CYCLES ==>
      r.mode == WaitingSince(sec)
  {
    match f.mode
    case Asleep => f
    case Running =>
      if adc >= LOAD_THRESHOLD then f
      else
        var cycles := Inc8(f.cycles);
        if cycles == MAX_CYCLES then FixedCtl(Asleep, cycles, false)
        else FixedCtl(WaitingSince(sec), cycles, false)
    case WaitingSince(start) =>
      if adc >= NO_LOAD_THRESHOLD then FixedCtl(Running, f.cycles, true)
      else if Elapsed(start, sec) <= TIMEOUT then f
      else f.(mode := Asleep)
  }

  /** The corrected timeout depends only on the time elapsed since the cutoff, for
      every cutoff time, the last seconds before the wrap included: a still-depleted
      pass kills exactly when more than TIMEOUT seconds have elapsed, and leaves the
      controller as it was otherwise. */
  lemma FixedTimeoutIsRelative(f: FixedCtl, adc: uint8, d: uint16)
    requires f.mode.WaitingSince? && adc < NO_LOAD_THRESHOLD
    ensures PassFixed(f, adc, Add16(f.mode.start, d)).mode == Asleep <==> d > TIMEOUT
    ensures d <= TIMEOUT ==> PassFixed(f, adc, Add16(f.mode.start, d)) == f
  {
    ElapsedAfter(f.mode.start, d);
  }

  /** The state after a sequence of passes, each with its ADC sample and the value
      of `sec` it reads. */
  function FixedRun(f: FixedCtl, ps: seq<(uint8, uint16)>): FixedCtl
    decreases |ps|
  {
    if ps == [] then f else PassFixed(FixedRun(f, ps[..|ps| - 1]), ps[|ps| - 1].0, ps[|ps| - 1].1)
  }

  /** True when some pass of `ps` reads a time more than TIMEOUT seconds after `start`. */
  predicate SomeLate(start: uint16, ps: seq<(uint8, uint16)>)
  {
    exists i :: 0 <= i < |ps| && Elapsed(start, ps[i].1) > TIMEOUT
  }

  /** A battery that never recovers, over any run of passes: the corrected controller
      keeps waiting while every pass reads a time within TIMEOUT seconds of the
      cutoff, and is asleep for good once some pass reads a later time, wherever the
      cutoff fell on the wrapping counter. */
  lemma {:induction false} FixedDepletedRunSleepsAfterTimeout(f: FixedCtl, ps: seq<(uint8, uint16)>)
    requires f.mode.WaitingSince?
    requires forall i :: 0 <= i < |ps| ==> ps[i].0 < NO_LOAD_THRESHOLD
    ensures FixedRun(f, ps) == if SomeLate(f.mode.start, ps) then f.(mode := Asleep) else f
    decreases |ps|
  {
    if ps != [] {
      var before := ps[..|ps| - 1];
      var last := ps[|ps| - 1];
      FixedDepletedRunSleepsAfterTimeout(f, before);
      if SomeLate(f.mode.start, before) {
        var i :| 0 <= i < |before| && Elapsed(f.mode.start, before[i].1) > TIMEOUT;
        assert ps[i] == before[i];
      } else if Elapsed(f.mode.start, last.1) > TIMEOUT {
        assert ps[|ps| - 1] == last;
      } else {
        forall i | 0 <= i < |ps|
          ensures Elapsed(f.mode.start, ps[i].1) <= TIMEOUT
        {
          if i < |before| {
            assert ps[i] == before[i];
          }
        }
      }
    }
  }

  /** Away from the wrap the correction changes nothing: when the cutoff happened at
      most at 65530 and the clock has not wrapped since, both tests agree. */
  lemma FixedAgreesAwayFromWrap(f: FixedCtl, adc: uint8, sec: uint16)
    requires f.mode.Running? ==> sec <= 0xFFFF - TIMEOUT
    requires f.mode.WaitingSince? ==> f.mode.start <= 0xFFFF - TIMEOUT && f.mode.start <= sec
    ensures Deadline(PassFixed(f, adc, sec)) == Pass(Deadline(f), adc, sec)
  {
  }
}
