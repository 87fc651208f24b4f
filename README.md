# Low-voltage cutoff controller, modelled in Dafny

The repository holds two firmware builds of one battery low-voltage cutoff (LVC).
Each build samples the battery voltage through a divider. It disconnects the load
when the sample falls to (ATtiny84) or below (ATtiny5) a trip threshold, then waits
for a bounded time. If a sample reaches a higher recovery threshold (hysteresis),
the controller resurrects. The ATtiny5 reconnects the load at once. The ATtiny84
switches it back on at its next pass with a charged sample. Otherwise the controller
enters a terminal state.

- `avr_lvc.dfy`, module `Tiny84`: the ATtiny84 build. The battery status is `'a'`
  or `'d'`. The countdown `time` runs up to `WAIT_TIME` (5000). The thresholds are
  `CELLS * 675 / 3` and `CELLS * 715 / 3`. The terminal action, `kill()`, clears
  the regulator's ENABLE pin.
  `Next` is one pass of `main`'s loop on the record `Lvc84`, and `Run` folds it over
  a sequence of samples. The class `Controller` keeps the firmware's variables and
  port bits as fields. Its methods `Work`, `Halt`, `Wait`, `Resurrect`, `Kill` and
  `Iterate` mirror the C functions and are proved against `Next`. `RunLoop` is
  `main`'s loop over a finite prefix of the samples.
- `tiny5_lvc.dfy`, module `Tiny5`: the ATtiny5 build. The thresholds are 166 and
  174, and the tenth cutoff kills at once. The pending timeout is
  `sec_read <= sec_holder` with `sec_holder = sec_read + 5` on `uint16_t`.
  The firmware's goto graph is restructured into per-state handlers in `Pass`:
  `Active`, `Pending(secHolder)` and `Killed`. `TickSpec` is the watchdog interrupt.
  `SysStep`/`SysRun` interleave interrupt ticks and main-loop passes. The class
  `Lvc5` keeps the graph's own variables (`n`, `cycles`, `sec_holder`, `sec_read`,
  `adc_read`) and the interrupt's globals `sec` and `sec_frac`. Its `Step` follows
  the gotos and is proved to implement `Pass`.
- `tiny5_timeout.dfy`, module `Tiny5Timeout`: the wrap-around defect of the ATtiny5
  timeout test (see Findings), and a corrected relative test with its proofs.

One main-loop pass of the ATtiny5 build is one ADC sample followed by at most one
time read, in the order the goto graph performs them. From `Active`, a low sample
goes to `get_time`, sets `sec_holder`, and tests it against the same `sec_read`.
From `Pending`, a sample below 174 goes to `get_time` and then to the test. An
expired test therefore kills before the next ADC sample is taken.

Points of the firmware's policy that are easy to misread:
- The ATtiny84 build trips at `voltage <= LOAD_THRESHOLD`. Its code keeps the load
  only while the sample is strictly above the threshold.
- The ATtiny5 build enforces its retry limit at the tenth cutoff. It does not refuse
  a recovery sample once the budget is spent.
- The ATtiny5 timeout is an absolute comparison of wrapping counters, not a relative
  difference.
- The ATtiny84 build has no retry limit at all.

The class models follow the code as written, including the absolute timeout test.
The corrected test is a separate transition function, `Tiny5Timeout.PassFixed`,
with its own proofs.

## Model

| member | source | states |
|---|---|---|
| Tiny84.LoadThreshold | tiny84/LVC_code/LVC_C/avr_LVC.c:47 | LOAD_THRESHOLD is positive and fits 16 bits, so the `uint16_t` cast is lossless |
| Tiny84.NoLoadThreshold | tiny84/LVC_code/LVC_C/avr_LVC.c:48 | NO_LOAD_THRESHOLD is positive and fits 16 bits |
| Tiny84.Hysteresis | tiny84/LVC_code/LVC_C/avr_LVC.c:43-48 | for every cell count 1..45 the recovery threshold exceeds the trip threshold by at least 13 |
| Tiny84.DefaultThresholds | tiny84/LVC_code/LVC_C/avr_LVC.c:43-48 | with the default `CELLS = 2` the thresholds are 450 and 476 |
| Tiny84.Next | tiny84/LVC_code/LVC_C/avr_LVC.c:75-96 | one loop pass keeps the invariant (status 'a'/'d', 0 <= time <= WAIT_TIME, disabled means load and green off and red on, enable held until the countdown expires); while disabled no pass changes LOAD or the LEDs, and time only advances by one or resets on resurrection |
| Tiny84.Run | tiny84/LVC_code/LVC_C/avr_LVC.c:74-98 | the invariant holds after any sequence of samples |
| Tiny84.ChargedKeepsLoad | tiny84/LVC_code/LVC_C/avr_LVC.c:76-80 | active and sample > LOAD_THRESHOLD: status stays 'a', LOAD on, green on, red off, ENABLE on |
| Tiny84.DepletedHalts | tiny84/LVC_code/LVC_C/avr_LVC.c:78-83 | active and sample <= LOAD_THRESHOLD, equality included: status 'd', LOAD off, green off, red on |
| Tiny84.DepletedWaits | tiny84/LVC_code/LVC_C/avr_LVC.c:86-88 | disabled, time < WAIT_TIME and sample < NO_LOAD_THRESHOLD: time grows by exactly one and nothing else changes |
| Tiny84.RecoveredResurrects | tiny84/LVC_code/LVC_C/avr_LVC.c:90-92 | disabled, time < WAIT_TIME and sample >= NO_LOAD_THRESHOLD: status 'a', time 0, LOAD still off until a later `work()` |
| Tiny84.ChargedRunKeepsLoad | tiny84/LVC_code/LVC_C/avr_LVC.c:74-80 | any run of samples above LOAD_THRESHOLD keeps an active controller active, with the load on after the first of them |
| Tiny84.DepletedRunCounts | tiny84/LVC_code/LVC_C/avr_LVC.c:85-89 | k depleted samples from the disabled state add exactly k to the countdown while it stays within WAIT_TIME |
| Tiny84.ExpiredIsAbsorbing | tiny84/LVC_code/LVC_C/avr_LVC.c:94-96 | once status is 'd' and time == WAIT_TIME, any further samples only clear ENABLE: status, time, LOAD and LEDs never change again |
| Tiny84.DepletedBatteryIsKilled | tiny84/LVC_code/LVC_C/avr_LVC.c:85-96 | a battery that stays below NO_LOAD_THRESHOLD for the whole countdown ends in the expired state with ENABLE cleared and the load off |
| Tiny84.Controller.constructor | tiny84/LVC_code/LVC_C/avr_LVC.c:62-64 | status 'a', time 0, all port bits at reset |
| Tiny84.Controller.Work | tiny84/LVC_code/LVC_C/avr_LVC.c:116-120 | LOAD on, green on, red off; status, time and ENABLE untouched |
| Tiny84.Controller.Halt | tiny84/LVC_code/LVC_C/avr_LVC.c:122-128 | LOAD off, green off, red on, status 'd'; time and ENABLE untouched |
| Tiny84.Controller.Wait | tiny84/LVC_code/LVC_C/avr_LVC.c:130-133 | time grows by one, nothing else changes |
| Tiny84.Controller.Resurrect | tiny84/LVC_code/LVC_C/avr_LVC.c:135-139 | status 'a' and time 0, no port bit changes |
| Tiny84.Controller.Kill | tiny84/LVC_code/LVC_C/avr_LVC.c:141-143 | ENABLE cleared, nothing else changes |
| Tiny84.Controller.Iterate | tiny84/LVC_code/LVC_C/avr_LVC.c:75-97 | the in-place pass keeps the invariant and leaves exactly the state `Next` gives |
| Tiny84.RunLoop | tiny84/LVC_code/LVC_C/avr_LVC.c:60-100 | `main` over a sequence of samples ends in `Run` of those samples from the initial state, which satisfies the invariant |
| Tiny5.Pass | tiny5/code/lvc.c:84-130 | one pass keeps the invariant (`cycles` below 10 unless killed, at most 10 when killed; load on exactly when active); killed is left unchanged; `cycles` changes only by a cutoff from active; the load is reconnected only by a pending pass with a sample >= 174 |
| Tiny5.HealthySampleKeepsLoad | tiny5/code/lvc.c:89-90 | active and sample >= 166: nothing changes, load on, `cycles` unchanged |
| Tiny5.LowSampleCutsOff | tiny5/code/lvc.c:92-99 | active and sample < 166: load off, `cycles` + 1; the tenth cycle kills, any other records `sec_holder = sec + 5` mod 2^16 and pends unless that holder is below `sec` |
| Tiny5.PendingStillLowWaits | tiny5/code/lvc.c:100-105 | pending, sample < 174 and `sec_read <= sec_holder`: stays pending with the load off |
| Tiny5.PendingRecoveredResurrects | tiny5/code/lvc.c:106-110 | pending and sample >= 174: `n` back to 0, load reconnected, `cycles` kept |
| Tiny5.PendingExpiredKills | tiny5/code/lvc.c:100-112 | pending, sample < 174 and `sec_read > sec_holder`: killed |
| Tiny5.TickSpec | tiny5/code/lvc.c:147-156 | with `sec_frac` in 0..3, one tick moves it to the next value mod 4, and `sec` grows by one (mod 2^16) exactly on the tick that wraps it |
| Tiny5.TicksAdvance | tiny5/code/lvc.c:147-156 | after n ticks `sec` has advanced by the completed quarters / 4 mod 2^16 and `sec_frac` is (frac + n) mod 4 |
| Tiny5.FourTicksOneSecond | tiny5/code/lvc.c:151-155 | four ticks advance `sec` by exactly one mod 2^16 and restore `sec_frac` |
| Tiny5.SysStep | tiny5/code/lvc.c:84-156 | a tick or a pass that reads `sec` keeps the controller invariant and `sec_frac` in 0..3 |
| Tiny5.SysRun | tiny5/code/lvc.c:84-114 | the invariant holds after any interleaving of ticks and passes |
| Tiny5.KilledIsAbsorbing | tiny5/code/lvc.c:131-142 | once killed, no sample and no clock value changes the controller |
| Tiny5.StepSpendsBudget | tiny5/code/lvc.c:94-110 | from any state keeping the invariant, one tick or pass never raises the remaining budget, and a resurrection lowers it by one |
| Tiny5.ResurrectionsSpendBudget | tiny5/code/lvc.c:94-95 | the resurrections along any run plus the remaining budget never exceed the budget at the start |
| Tiny5.AtMostNineResurrections | tiny5/code/lvc.c:61-62 | from power-up, any run resurrects at most nine times |
| Tiny5.ExampleTrace | tiny5/code/lvc.c:84-110 | samples 170, 165, 168, 172, 176 with the timer standing: cut off at 165, pending at 168 and 172, resurrected at 176 |
| Tiny5.Lvc5.constructor | tiny5/code/lvc.c:55-62 | power-up: `sec`, `sec_frac`, `n`, `cycles` zero, load on |
| Tiny5.Lvc5.Tick | tiny5/code/lvc.c:147-156 | the interrupt updates `sec` and `sec_frac` exactly as `TickSpec` and keeps the invariant |
| Tiny5.Lvc5.Step | tiny5/code/lvc.c:84-142 | the goto graph, dispatched on `n`, leaves exactly the state `Pass` gives and keeps the invariant, with `n` in {0, 1} |
| Tiny5.Simulate | tiny5/code/lvc.c:45-145 | power-up followed by any interleaving of ticks and passes ends in `SysRun` of those events, which satisfies the invariant |
| Tiny5Timeout.CutoffNearWrapKillsAtOnce | tiny5/code/lvc.c:97-101 | as written, a non-final cutoff is killed on the spot exactly when `sec > 65530` |
| Tiny5Timeout.CutoffAt65530NeverExpires | tiny5/code/lvc.c:97-99 | as written, a cutoff at `sec == 65530` records `sec_holder == 65535` |
| Tiny5Timeout.HolderAtTopNeverExpires | tiny5/code/lvc.c:100-112 | as written, with `sec_holder == 65535` no run of low samples and ticks ever leaves pending |
| Tiny5Timeout.PassFixed | tiny5/code/lvc.c:92-112 | corrected pass: keeps the invariant, killed is absorbing, and a non-final cutoff always pends since its own time |
| Tiny5Timeout.FixedTimeoutIsRelative | tiny5/code/lvc.c:98-101 | corrected: a depleted pending pass kills exactly when more than 5 seconds have elapsed since the cutoff, for every cutoff time, and otherwise leaves the controller unchanged |
| Tiny5Timeout.FixedDepletedRunSleepsAfterTimeout | tiny5/code/lvc.c:98-112 | corrected, over any run of depleted passes: the controller keeps waiting while every time read is within 5 seconds of the cutoff, and is asleep once some read is later, whatever the cutoff time |
| Tiny5Timeout.FixedAgreesAwayFromWrap | tiny5/code/lvc.c:98-101 | corrected and as-written passes agree whenever the cutoff was at most at 65530 and the clock has not wrapped since |

## Left out

- Register setup is left out: DDR directions, `init_ADC`, `CLKMSR`/`CLKPSR`, `WDTCSR`, `TCCR0A/B`, `OCR0A`, `PRR`, `SMCR`. It is hardware configuration. Port outputs are boolean fields.
- The ADC conversion and its busy-wait (`read_ADC`, `get_adc`) are left out. The conversion result is a parameter: 0..1023 on the ATtiny84, 0..255 on the ATtiny5.
- The `_delay_ms` settle delays change no state, so they are left out. The ATtiny84 countdown counts passes, each about one second.
- The `cli`/`SREG` save-restore around the read of `sec` is left out, and so is ISR/main-loop concurrency. The read is a plain field read, and ticks and passes are separate, sequential events.
- After `kill:` the watchdog interrupt is switched off. The model still lets ticks advance `sec`, which the killed state never reads.
- LED PWM and blink toggling (`COM0A1`, `LED_OUT`) is visual indication only, so it is left out.
- The `sleep` instruction and the trailing `while(1)` become the absorbing `Killed` state. On the ATtiny84, `kill()` is re-entered on every pass, which is the expired state.
- The PROGMEM message constants are data with no behaviour, so they are left out.
- The ATtiny84 cell count is restricted to 1..45. Above that, `CELLS * 715` overflows avr-gcc's 16-bit `int`, which is undefined behaviour in C.
- `sec_holder`, `sec_read` and `adc_read` are uninitialised in the ATtiny5 source. The model starts them at 0. They are never read before they are written.

## Findings

| source | as written | input that shows it | evidently intended | confidence | as-written member | corrected member |
|---|---|---|---|---|---|---|
| tiny5/code/lvc.c:98-101 | `sec_holder = sec_read + 5` wraps modulo 2^16, and the test `sec_read <= sec_holder` then fails on the cutoff pass itself | a cutoff (not the tenth) while `sec` is 65531..65535: killed at once, no recovery sample taken | pending lasts 5 seconds after any cutoff | medium, not executed | Tiny5Timeout.CutoffNearWrapKillsAtOnce | Tiny5Timeout.FixedTimeoutIsRelative |
| tiny5/code/lvc.c:98-112 | with `sec_holder == 65535`, every `uint16_t` satisfies `sec_read <= sec_holder` | a cutoff at `sec == 65530` followed by samples below 174 and any number of ticks: pending forever, the load never reconnected and the controller never killed | kill after 5 seconds without recovery | medium, not executed | Tiny5Timeout.HolderAtTopNeverExpires | Tiny5Timeout.FixedDepletedRunSleepsAfterTimeout |
