/** The decisions of the thermometer's main loop, one pass at a time: when
    to take a reading (every refresh interval in Continue mode, on a
    debounced FIRE press in OnShoot mode), what the laser pin shows, the
    thermostat hook (which commands nothing), how failures and interrupts
    end a pass, and the safe state left by cleanup. The clock readings, the
    button levels, the sensor's bus answers and the configuration after the
    pass's web requests are inputs of each pass. */
module App {
  import opened Wrappers
  import opened Json
  import Config
  import Buttons
  import Mlx90614

  const ContinueMode := Str("Continue")
  const OnShootMode := Str("OnShoot")

  /** `app_state`: the last readings, in hundredths of a degree, and when
      they were taken. */
  datatype Readings = Readings(objectTemp: Option<int>, ambientTemp: Option<int>, lastReading: int)

  /** The output pins the loop drives; a board whose buzzer failed to
      initialise has none. */
  datatype Outputs = Outputs(laser: int, buzzer: Option<int>)

  /** What the loop keeps between passes. */
  datatype Machine = Machine(readings: Readings, lastDisplayUpdate: int, lastPress: int, outputs: Outputs)

  /** The inputs of one pass: whether it is interrupted inside the `try`
      (caught by `except KeyboardInterrupt`), during the beep's pause
      (swallowed by the bare `except:` of `_beep`), or during the one-second
      back-off after a caught exception (outside any handler of the loop);
      the configuration after the web requests it served, the clock
      readings and elapsed times, the FIRE levels read, and what the
      sensor's bus answers. */
  datatype PassInput = PassInput(
    interrupted: bool,
    beepInterrupted: bool,
    backoffInterrupted: bool,
    config: Value,
    now: int,
    sinceDisplay: int,
    pressTick: int,
    sincePress: int,
    fireAtPress: int,
    readTick: int,
    bus: int -> Option<Mlx90614.Frame>,
    fireAtLaser: int)

  /** How a pass ends: normally, with an exception the loop catches, or
      with an interrupt that ends the loop. */
  datatype PassOutcome = Completed(m: Machine) | Failed(m: Machine) | Interrupted(m: Machine)

  /** The state after construction and the start of `run`: no readings,
      both timers at 0, laser and buzzer off. */
  function Start(hasBuzzer: bool): (m: Machine)
    ensures m.readings.objectTemp.None? && m.readings.ambientTemp.None?
    ensures m.lastDisplayUpdate == 0 && m.lastPress == 0
    ensures m.outputs.laser == 0 && (m.outputs.buzzer.Some? <==> hasBuzzer)
  {
    Machine(Readings(None, None, 0), 0, 0, Outputs(0, if hasBuzzer then Some(0) else None))
  }

  // ---------------------------------------------------------------------
  // The decisions
  // ---------------------------------------------------------------------

  /** `ticks_diff(now, last) >= interval`: `None` when the comparison
      raises, i.e. when the interval is not a number. */
  function Due(elapsed: int, interval: Value): (r: Option<bool>)
    ensures r.Some? <==> Number(interval).Some?
    ensures r.Some? ==> (r.value <==> elapsed as real >= Number(interval).value)
  {
    match Number(interval)
    case None => None
    case Some(x) => Some(elapsed as real >= x)
  }

  /** `_read_and_display`: nothing without a sensor; otherwise both
      readings, a failed one included, and the time they were taken. */
  function ReadAndDisplay(r: Readings, hasSensor: bool, bus: int -> Option<Mlx90614.Frame>, tick: int): (r': Readings)
    ensures !hasSensor ==> r' == r
    ensures hasSensor ==> r'.objectTemp == Mlx90614.ReadTemp(bus(Mlx90614.ObjectRegister)) &&
                          r'.ambientTemp == Mlx90614.ReadTemp(bus(Mlx90614.AmbientRegister)) &&
                          r'.lastReading == tick
  {
    if !hasSensor then r
    else
      var (obj, amb) := Mlx90614.ReadBoth(bus);
      Readings(obj, amb, tick)
  }

  /** `_beep`: the buzzer pulses and ends low, unless an interrupt arrives
      during its pause: the bare `except:` swallows it and the buzzer is
      left high. */
  function Beep(o: Outputs, interrupted: bool): (r: Outputs)
    ensures r.laser == o.laser
    ensures r.buzzer.Some? <==> o.buzzer.Some?
    ensures r.buzzer.Some? ==> (r.buzzer.value == 0 <==> !interrupted) && (r.buzzer.value == 1 <==> interrupted)
  {
    if o.buzzer.None? then o
    else if interrupted then o.(buzzer := Some(1))
    else o.(buzzer := Some(0))
  }

  /** `_update_laser`: off when the laser is disabled; otherwise on in
      Continue mode, and in any other mode on exactly while FIRE is held
      down. */
  function LaserLevel(cfg: Value, fire: int): (level: int)
    ensures level == 0 || level == 1
  {
    if !Truthy(Config.Read(cfg, Config.LaserEnabled)) then 0
    else if Config.Read(cfg, Config.ReadingMode) == ContinueMode then 1
    else if fire == Buttons.PressedLevel then 1
    else 0
  }

  /** The laser is lit exactly when it is enabled and either the reading
      mode is Continue or FIRE reads pressed. */
  lemma LaserDecisionTable(cfg: Value, fire: int)
    ensures LaserLevel(cfg, fire) == 1 <==>
            Truthy(Config.Read(cfg, Config.LaserEnabled)) &&
            (Config.Read(cfg, Config.ReadingMode) == ContinueMode || fire == 0)
    ensures !Truthy(Config.Read(cfg, Config.LaserEnabled)) ==> LaserLevel(cfg, fire) == 0
  {
  }

  /** `_handle_thermostat`: it commands nothing, but its comparison
      `obj_temp < target` raises (`false`) on a target that is not a
      number, once there is an object reading. */
  function ThermostatOk(r: Readings, target: Value): (ok: bool)
    ensures ok <==> r.objectTemp.None? || Number(target).Some?
  {
    match r.objectTemp
    case None => true
    case Some(_) =>
      match Number(target)
      case None => false
      case Some(_) => true
  }

  // ---------------------------------------------------------------------
  // One pass
  // ---------------------------------------------------------------------

  /** The reading step of a pass: `None` when it raises. */
  function ReadStep(m: Machine, interval: Value, hasSensor: bool, p: PassInput): (r: Option<Machine>)
    ensures r.None? <==> Config.Read(p.config, Config.ReadingMode) == ContinueMode && Number(interval).None?
    ensures r.Some? ==> r.value.outputs.laser == m.outputs.laser
    ensures r.Some? && !hasSensor ==> r.value.readings == m.readings
    ensures Config.Read(p.config, Config.ReadingMode) !in {ContinueMode, OnShootMode} ==> r == Some(m)
  {
    var mode := Config.Read(p.config, Config.ReadingMode);
    if mode == ContinueMode then
      match Due(p.sinceDisplay, interval)
      case None => None
      case Some(due) =>
        if due then
          Some(m.(readings := ReadAndDisplay(m.readings, hasSensor, p.bus, p.readTick),
                  lastDisplayUpdate := p.now))
        else Some(m)
    else if mode == OnShootMode then
      var press := Buttons.ReadButton(m.lastPress, p.pressTick, p.sincePress, p.fireAtPress);
      if press.pressed then
        Some(m.(readings := ReadAndDisplay(m.readings, hasSensor, p.bus, p.readTick),
                lastPress := press.lastPress,
                outputs := Beep(m.outputs, p.beepInterrupted)))
      else Some(m)
    else Some(m)
  }

  /** The body of the `while` loop of `run`, as a transition. Serving the
      web requests is folded into the pass's configuration. */
  function Pass(m: Machine, interval: Value, hasSensor: bool, p: PassInput): (r: PassOutcome)
    ensures p.interrupted <==> r.Interrupted?
    ensures r.Interrupted? ==> r.m == m
    ensures !p.interrupted && ReadStep(m, interval, hasSensor, p).None? ==> r == Failed(m)
    ensures !p.interrupted && ReadStep(m, interval, hasSensor, p).Some? ==>
              r.m == WithLaser(ReadStep(m, interval, hasSensor, p).value, p) &&
              (r.Failed? <==> Truthy(Config.Read(p.config, Config.ThermostatActive)) &&
                              !ThermostatOk(r.m.readings, Config.Read(p.config, Config.ThermostatTarget)))
  {
    if p.interrupted then Interrupted(m)
    else
      match ReadStep(m, interval, hasSensor, p)
      case None => Failed(m)
      case Some(read) =>
        var lit := WithLaser(read, p);
        if Truthy(Config.Read(p.config, Config.ThermostatActive)) &&
           !ThermostatOk(lit.readings, Config.Read(p.config, Config.ThermostatTarget))
        then Failed(lit)
        else Completed(lit)
  }

  /** The laser update of a pass. */
  function WithLaser(m: Machine, p: PassInput): (r: Machine)
    ensures r.outputs.laser == 1 <==>
              Truthy(Config.Read(p.config, Config.LaserEnabled)) &&
              (Config.Read(p.config, Config.ReadingMode) == ContinueMode || p.fireAtLaser == Buttons.PressedLevel)
    ensures r.outputs.laser == 0 || r.outputs.laser == 1
    ensures r == m.(outputs := m.outputs.(laser := r.outputs.laser))
  {
    m.(outputs := m.outputs.(laser := LaserLevel(p.config, p.fireAtLaser)))
  }

  /** In Continue mode a reading is taken, and the display timer restarted
      at the pass's clock, exactly when the refresh interval has elapsed;
      an interval that is not a number makes the pass fail untouched. */
  lemma ContinueReadsWhenDue(m: Machine, interval: Value, hasSensor: bool, p: PassInput)
    requires !p.interrupted && Config.Read(p.config, Config.ReadingMode) == ContinueMode
    ensures var r := Pass(m, interval, hasSensor, p);
            (Number(interval).None? ==> r == Failed(m)) &&
            (Number(interval).Some? && p.sinceDisplay as real >= Number(interval).value ==>
               r.m.lastDisplayUpdate == p.now &&
               r.m.readings == ReadAndDisplay(m.readings, hasSensor, p.bus, p.readTick)) &&
            (Number(interval).Some? && p.sinceDisplay as real < Number(interval).value ==>
               r.m.lastDisplayUpdate == m.lastDisplayUpdate && r.m.readings == m.readings)
    ensures Pass(m, interval, hasSensor, p).m.lastPress == m.lastPress
  {
  }

  /** In OnShoot mode a reading is taken exactly on a debounced FIRE
      press, which restarts the debounce window; the display timer is
      left alone. */
  lemma OnShootReadsOnPress(m: Machine, interval: Value, hasSensor: bool, p: PassInput)
    requires !p.interrupted && Config.Read(p.config, Config.ReadingMode) == OnShootMode
    ensures var r := Pass(m, interval, hasSensor, p);
            var pressed := p.sincePress >= Buttons.DebounceMs && p.fireAtPress == 0;
            (pressed ==> r.m.readings == ReadAndDisplay(m.readings, hasSensor, p.bus, p.readTick) &&
                         r.m.lastPress == p.pressTick) &&
            (!pressed ==> r.m.readings == m.readings && r.m.lastPress == m.lastPress) &&
            r.m.lastDisplayUpdate == m.lastDisplayUpdate
  {
  }

  /** The thermostat hook changes nothing: a pass leaves the same state
      whether or not it runs, and it only ever makes the pass fail, when
      it is active, there is an object reading and the target is not a
      number. */
  lemma ThermostatCommandsNothing(m: Machine, interval: Value, hasSensor: bool, p: PassInput)
    requires !p.interrupted && ReadStep(m, interval, hasSensor, p).Some?
    ensures Pass(m, interval, hasSensor, p).m == WithLaser(ReadStep(m, interval, hasSensor, p).value, p)
    ensures !Truthy(Config.Read(p.config, Config.ThermostatActive)) ==> Pass(m, interval, hasSensor, p).Completed?
  {
  }

  // ---------------------------------------------------------------------
  // The loop and cleanup
  // ---------------------------------------------------------------------

  /** `cleanup`, on the pins: the laser, and the buzzer if there is one,
      are driven low; nothing else changes. */
  function Cleanup(m: Machine): (r: Machine)
    ensures r.outputs.laser == 0
    ensures r.outputs.buzzer.Some? <==> m.outputs.buzzer.Some?
    ensures r.outputs.buzzer.Some? ==> r.outputs.buzzer.value == 0
    ensures r.readings == m.readings && r.lastPress == m.lastPress && r.lastDisplayUpdate == m.lastDisplayUpdate
  {
    m.(outputs := Outputs(0, if m.outputs.buzzer.Some? then Some(0) else None))
  }

  /** The pins are in the safe state: laser low, and the buzzer, if any,
      low. */
  predicate SafeOff(m: Machine)
  {
    m.outputs.laser == 0 && (m.outputs.buzzer.Some? ==> m.outputs.buzzer.value == 0)
  }

  /** Where the loop is after some passes: still running, stopped by
      `break` and cleaned up, or left by an interrupt that no handler of the
      loop catches, with the pins as they were. */
  datatype Loop = Running(m: Machine) | Stopped(m: Machine) | Escaped(m: Machine)

  /** `run` as written, over a sequence of passes, with the refresh
      interval read once before the first: a failed pass is followed by the
      next one unless an interrupt arrives during its back-off, which leaves
      the loop without reaching cleanup; an interrupt inside the `try` ends
      the loop and runs cleanup. Only the latter stop is safe. */
  function RunAsWritten(m: Machine, interval: Value, hasSensor: bool, passes: seq<PassInput>): (r: Loop)
    ensures r.Stopped? ==> SafeOff(r.m)
    decreases |passes|
  {
    if |passes| == 0 then Running(m)
    else
      match Pass(m, interval, hasSensor, passes[0])
      case Interrupted(next) => Stopped(Cleanup(next))
      case Completed(next) => RunAsWritten(next, interval, hasSensor, passes[1..])
      case Failed(next) =>
        if passes[0].backoffInterrupted then Escaped(next)
        else RunAsWritten(next, interval, hasSensor, passes[1..])
  }

  /** An interrupt during the back-off leaves the laser lit: with the laser
      enabled in Continue mode, an active thermostat whose target is not a
      number (`"abc"`) and an earlier object reading, the pass lights the
      laser and then fails, and the interrupt in its back-off leaves the
      loop with the laser still at 1. */
  lemma BackoffInterruptLeavesLaserOn(m: Machine, interval: Value, hasSensor: bool, p: PassInput)
    requires !p.interrupted && p.backoffInterrupted
    requires Config.Read(p.config, Config.LaserEnabled) == Bool(true)
    requires Config.Read(p.config, Config.ReadingMode) == ContinueMode
    requires Config.Read(p.config, Config.ThermostatActive) == Bool(true)
    requires Config.Read(p.config, Config.ThermostatTarget) == Str("abc")
    requires Number(interval).Some? && (p.sinceDisplay as real) < Number(interval).value
    requires m.readings.objectTemp.Some?
    ensures RunAsWritten(m, interval, hasSensor, [p]).Escaped?
    ensures RunAsWritten(m, interval, hasSensor, [p]).m.outputs.laser == 1
    ensures !SafeOff(RunAsWritten(m, interval, hasSensor, [p]).m)
  {
    assert ReadStep(m, interval, hasSensor, p) == Some(m);
    assert !ThermostatOk(WithLaser(m, p).readings, Str("abc"));
    assert Pass(m, interval, hasSensor, p) == Failed(WithLaser(m, p));
  }

  /** A configuration in that state: the laser enabled in Continue mode
      and the thermostat active with the target `"abc"`, as a POST to
      `/api/target` can store. */
  function TargetTypoConfig(): (cfg: Value)
    ensures cfg.Dict? && "thermostat" in cfg.fields
  {
    Dict(map["preferences" := Dict(map["laser" := Bool(true), "reading" := ContinueMode]),
             "thermostat" := Dict(map["active" := Bool(true), "target" := Str("abc")])])
  }

  /** The concrete case: an object reading of 25.00 degrees kept from an
      earlier pass, a pass 100 ms into a 500 ms refresh interval, and an
      interrupt during the back-off; the loop is left with the laser at 1. */
  lemma BackoffEscapeExample()
    ensures var m := Start(true).(readings := Readings(Some(2500), Some(2400), 0));
            var p := PassInput(false, false, true, TargetTypoConfig(), 100, 100, 100, 100, 1, 100,
                               (_: int) => None, 1);
            RunAsWritten(m, Int(500), true, [p]) == Escaped(m.(outputs := Outputs(1, Some(0))))
  {
    var m := Start(true).(readings := Readings(Some(2500), Some(2400), 0));
    var p := PassInput(false, false, true, TargetTypoConfig(), 100, 100, 100, 100, 1, 100,
                       (_: int) => None, 1);
    var cfg := TargetTypoConfig();
    assert cfg.fields["preferences"].fields["laser"] == Bool(true);
    assert cfg.fields["preferences"].fields["reading"] == ContinueMode;
    assert cfg.fields["thermostat"].fields["active"] == Bool(true);
    assert cfg.fields["thermostat"].fields["target"] == Str("abc");
    BackoffInterruptLeavesLaserOn(m, Int(500), true, p);
  }

  /** `run` with cleanup on every way out of the loop, as a `finally` would
      give: an interrupt during the back-off stops the loop like one inside
      the `try`. Every stop leaves the pins safe, and the loop is never left
      without cleanup. */
  function Run(m: Machine, interval: Value, hasSensor: bool, passes: seq<PassInput>): (r: Loop)
    ensures r.Stopped? ==> SafeOff(r.m)
    ensures !r.Escaped?
    decreases |passes|
  {
    if |passes| == 0 then Running(m)
    else
      match Pass(m, interval, hasSensor, passes[0])
      case Interrupted(next) => Stopped(Cleanup(next))
      case Completed(next) => Run(next, interval, hasSensor, passes[1..])
      case Failed(next) =>
        if passes[0].backoffInterrupted then Stopped(Cleanup(next))
        else Run(next, interval, hasSensor, passes[1..])
  }

  /** The corrected loop differs from the one as written only where the
      latter escapes: there it stops with the same state cleaned up. */
  lemma {:induction false} RunRepairsEscape(m: Machine, interval: Value, hasSensor: bool, passes: seq<PassInput>)
    ensures RunAsWritten(m, interval, hasSensor, passes).Escaped? ==>
              Run(m, interval, hasSensor, passes) == Stopped(Cleanup(RunAsWritten(m, interval, hasSensor, passes).m))
    ensures !RunAsWritten(m, interval, hasSensor, passes).Escaped? ==>
              Run(m, interval, hasSensor, passes) == RunAsWritten(m, interval, hasSensor, passes)
    decreases |passes|
  {
    if |passes| > 0 {
      var first := Pass(m, interval, hasSensor, passes[0]);
      if !first.Interrupted? && !(first.Failed? && passes[0].backoffInterrupted) {
        RunRepairsEscape(first.m, interval, hasSensor, passes[1..]);
      }
    }
  }

  /** An interrupt during the beep's pause does not end the loop: the pass
      goes on and the buzzer is left sounding. */
  lemma BeepInterruptKeepsBuzzerOn(m: Machine, interval: Value, hasSensor: bool, p: PassInput)
    requires !p.interrupted && !p.backoffInterrupted && p.beepInterrupted
    requires Config.Read(p.config, Config.ReadingMode) == OnShootMode
    requires p.sincePress >= Buttons.DebounceMs && p.fireAtPress == Buttons.PressedLevel
    requires m.outputs.buzzer.Some?
    ensures Run(m, interval, hasSensor, [p]).Running?
    ensures Run(m, interval, hasSensor, [p]).m.outputs.buzzer == Some(1)
  {
    assert Run(m, interval, hasSensor, [p]) == Run(Pass(m, interval, hasSensor, p).m, interval, hasSensor, []);
  }

  /** The loop started on the configuration it finds at start-up. */
  function RunFromStart(cfg: Value, hasBuzzer: bool, hasSensor: bool, passes: seq<PassInput>): Loop
  {
    Run(Start(hasBuzzer), Config.Read(cfg, Config.RefreshRate), hasSensor, passes)
  }

  /** Exceptions never end the loop: an interrupt inside some pass stops
      it, and it stops only on an interrupt, inside a pass or during a
      back-off. */
  lemma {:induction false} StopsOnlyOnInterrupt(m: Machine, interval: Value, hasSensor: bool, passes: seq<PassInput>)
    ensures (exists i :: 0 <= i < |passes| && passes[i].interrupted) ==> Run(m, interval, hasSensor, passes).Stopped?
    ensures Run(m, interval, hasSensor, passes).Stopped? ==>
              exists i :: 0 <= i < |passes| && (passes[i].interrupted || passes[i].backoffInterrupted)
    decreases |passes|
  {
    if |passes| > 0 {
      var first := Pass(m, interval, hasSensor, passes[0]);
      if !passes[0].interrupted && !(first.Failed? && passes[0].backoffInterrupted) {
        StopsOnlyOnInterrupt(first.m, interval, hasSensor, passes[1..]);
        assert forall i :: 1 <= i < |passes| ==> passes[i] == passes[1..][i - 1];
        if Run(m, interval, hasSensor, passes).Stopped? {
          var j :| 0 <= j < |passes[1..]| && (passes[1..][j].interrupted || passes[1..][j].backoffInterrupted);
          assert passes[j + 1].interrupted || passes[j + 1].backoffInterrupted;
        }
      }
    }
  }
}
