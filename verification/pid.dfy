/** The PID engine of the thermostat: one step of proportional, integral
    and derivative control with an anti-windup clamp on the integral and a
    0..100 clamp on the output. Arithmetic is over exact reals; time is a
    millisecond tick, and the elapsed milliseconds since the previous step
    (the wraparound-safe tick difference) are an input. */
module Pid {

  const IntegralLimit: real := 100.0
  const OutputLimit: real := 100.0
  /** Seconds used in place of a non-positive elapsed time. */
  const MinDt: real := 0.001

  datatype Controller = Controller(
    kp: real, ki: real, kd: real,
    setpoint: real,
    integral: real,
    lastError: real,
    lastTime: int)

  /** Result of one step: the new controller state and the duty request. */
  datatype Step = Step(state: Controller, output: real)

  /** `max(min(x, hi), lo)`. */
  function Clamp(x: real, lo: real, hi: real): (r: real)
    requires lo <= hi
    ensures lo <= r <= hi
    ensures lo <= x <= hi ==> r == x
    ensures x > hi ==> r == hi
    ensures x < lo ==> r == lo
  {
    var m := if x < hi then x else hi;
    if m > lo then m else lo
  }

  /** A freshly constructed controller: no integral, no previous error,
      last step at `now`. */
  function Init(kp: real, ki: real, kd: real, setpoint: real, now: int): (c: Controller)
    ensures c.integral == 0.0 && c.lastError == 0.0 && c.lastTime == now
    ensures c.kp == kp && c.ki == ki && c.kd == kd && c.setpoint == setpoint
  {
    Controller(kp, ki, kd, setpoint, 0.0, 0.0, now)
  }

  /** The step length in seconds: the elapsed milliseconds divided by 1000,
      replaced by `MinDt` when not positive, so it is always a valid
      divisor. */
  function Dt(elapsedMs: int): (dt: real)
    ensures dt > 0.0
    ensures elapsedMs > 0 ==> dt * 1000.0 == elapsedMs as real
    ensures elapsedMs <= 0 ==> dt == MinDt
  {
    var d := elapsedMs as real / 1000.0;
    if d <= 0.0 then MinDt else d
  }

  /** One control step for the measurement `value` taken at tick `now`,
      `elapsedMs` milliseconds after the previous step. */
  function Update(c: Controller, value: real, now: int, elapsedMs: int): (r: Step)
    ensures -IntegralLimit <= r.state.integral <= IntegralLimit
    ensures 0.0 <= r.output <= OutputLimit
    ensures r.state.lastError == c.setpoint - value
    ensures r.state.lastTime == now
    ensures r.state.kp == c.kp && r.state.ki == c.ki && r.state.kd == c.kd
    ensures r.state.setpoint == c.setpoint
  {
    var dt := Dt(elapsedMs);
    var error := c.setpoint - value;
    var p := c.kp * error;
    var integral := Clamp(c.integral + error * dt, -IntegralLimit, IntegralLimit);
    var i := c.ki * integral;
    // the source keeps a `dt > 0` test here; after the guard it always holds
    var d := if dt > 0.0 then c.kd * (error - c.lastError) / dt else 0.0;
    var output := Clamp(p + i + d, 0.0, OutputLimit);
    Step(c.(integral := integral, lastError := error, lastTime := now), output)
  }

  /** Anti-windup only acts at saturation: below the limits the integral
      accumulates `error * dt` exactly, above them it sticks to the limit. */
  lemma IntegralAccumulates(c: Controller, value: real, now: int, elapsedMs: int)
    ensures var acc := c.integral + (c.setpoint - value) * Dt(elapsedMs);
            var s := Update(c, value, now, elapsedMs).state;
            && (-IntegralLimit <= acc <= IntegralLimit ==> s.integral == acc)
            && (acc > IntegralLimit ==> s.integral == IntegralLimit)
            && (acc < -IntegralLimit ==> s.integral == -IntegralLimit)
  {
  }

  /** With no integral and no derivative gain the controller is a clamped
      proportional controller. */
  lemma ProportionalOnly(c: Controller, value: real, now: int, elapsedMs: int)
    requires c.ki == 0.0 && c.kd == 0.0
    ensures Update(c, value, now, elapsedMs).output
            == Clamp(c.kp * (c.setpoint - value), 0.0, OutputLimit)
  {
    var dt := Dt(elapsedMs);
    var error := c.setpoint - value;
    var p := c.kp * error;
    var integral := Clamp(c.integral + error * dt, -IntegralLimit, IntegralLimit);
    var d := if dt > 0.0 then c.kd * (error - c.lastError) / dt else 0.0;
    assert c.ki * integral == 0.0;
    assert c.kd * (error - c.lastError) == 0.0;
    assert d == 0.0;
    assert Update(c, value, now, elapsedMs).output == Clamp(p + c.ki * integral + d, 0.0, OutputLimit);
    assert p + c.ki * integral + d == p;
  }

  /** A proportional-only controller with a non-negative gain asks for less
      heat the hotter the measurement. */
  lemma ProportionalOnlyIsAntitone(c: Controller, v1: real, v2: real, now: int, elapsedMs: int)
    requires c.ki == 0.0 && c.kd == 0.0 && c.kp >= 0.0
    requires v1 <= v2
    ensures Update(c, v1, now, elapsedMs).output >= Update(c, v2, now, elapsedMs).output
  {
    ProportionalOnly(c, v1, now, elapsedMs);
    ProportionalOnly(c, v2, now, elapsedMs);
    var hot := c.kp * (c.setpoint - v2);
    var cold := c.kp * (c.setpoint - v1);
    ProductNonNegative(c.kp, v2 - v1);
    assert cold - hot == c.kp * (v2 - v1);
    ClampMonotone(hot, cold, 0.0, OutputLimit);
  }

  lemma ProductNonNegative(a: real, b: real)
    requires a >= 0.0 && b >= 0.0
    ensures a * b >= 0.0
  {
  }

  lemma ClampMonotone(x: real, y: real, lo: real, hi: real)
    requires lo <= hi && x <= y
    ensures Clamp(x, lo, hi) <= Clamp(y, lo, hi)
  {
  }

  /** `reset`: history cleared at `now`, gains and setpoint kept. */
  function Reset(c: Controller, now: int): (r: Controller)
    ensures r.integral == 0.0 && r.lastError == 0.0 && r.lastTime == now
    ensures r.kp == c.kp && r.ki == c.ki && r.kd == c.kd && r.setpoint == c.setpoint
  {
    c.(integral := 0.0, lastError := 0.0, lastTime := now)
  }

  /** `set_tunings`: only the gains change. */
  function SetTunings(c: Controller, kp: real, ki: real, kd: real): (r: Controller)
    ensures r.kp == kp && r.ki == ki && r.kd == kd
    ensures r.setpoint == c.setpoint && r.integral == c.integral
    ensures r.lastError == c.lastError && r.lastTime == c.lastTime
  {
    c.(kp := kp, ki := ki, kd := kd)
  }

  /** `set_setpoint`: only the setpoint changes. */
  function SetSetpoint(c: Controller, setpoint: real): (r: Controller)
    ensures r.setpoint == setpoint
    ensures r.kp == c.kp && r.ki == c.ki && r.kd == c.kd && r.integral == c.integral
    ensures r.lastError == c.lastError && r.lastTime == c.lastTime
  {
    c.(setpoint := setpoint)
  }

  /** The first step after a reset, at the setpoint, asks for nothing and
      leaves the integral at zero. */
  lemma AtSetpointAfterReset(c: Controller, now: int, later: int, elapsedMs: int)
    ensures var r := Update(Reset(c, now), c.setpoint, later, elapsedMs);
            r.output == 0.0 && r.state.integral == 0.0 && r.state.lastError == 0.0
  {
  }

  /** One measurement fed to the controller, with its tick and the elapsed
      milliseconds since the previous step. */
  datatype Sample = Sample(value: real, now: int, elapsedMs: int)

  /** Feeding a sequence of samples, in order: the final state and every
      output. Whatever the samples and however the gains change between
      runs, the integral ends inside its limits and every output is a valid
      duty percentage. */
  function Run(c: Controller, samples: seq<Sample>): (r: (Controller, seq<real>))
    ensures |r.1| == |samples|
    ensures forall k :: 0 <= k < |r.1| ==> 0.0 <= r.1[k] <= OutputLimit
    ensures |samples| > 0 ==> -IntegralLimit <= r.0.integral <= IntegralLimit
    ensures |samples| == 0 ==> r.0 == c
    ensures |samples| > 0 ==> r.0.lastTime == samples[|samples| - 1].now
    decreases |samples|
  {
    if |samples| == 0 then (c, [])
    else
      var step := Update(c, samples[0].value, samples[0].now, samples[0].elapsedMs);
      var rest := Run(step.state, samples[1..]);
      (rest.0, [step.output] + rest.1)
  }
}
