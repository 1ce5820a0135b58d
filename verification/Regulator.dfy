/** The current regulator of Oph/src/motor_control.c, `calculate_current`. Floats are modelled as
    reals, the low-pass filtered derivative term is an input, and a conversion to int16 that C leaves
    undefined yields whatever the input says. */
module Regulator {
  import opened Common

  const MOTORSR := 200.0
  const MAX_DI_EL := 20.0
  const MAX_I_EL := 800.0

  datatype Config = Config(velP: real, velI: real, velIDb: real, friction: real,
                           frictionDb: int, maxDelta: int, maxCurrent: int)

  /** What one tick reads: the demand, the measured velocity, the derivative term, and the results
      of the two float-to-int16 conversions where they overflow. */
  datatype Input = Input(vReq: real, pv: real, dTerm: real, undefined1: int16, undefined2: int16)

  newtype int16 = x: int | -0x8000 <= x < 0x8000

  datatype State = State(iTerm: real, prevV: real, lastMilliamp: int16, frictionIn: real, frictionOut: real)

  const POWER_ON := State(0.0, 0.0, 0, 0.0, 0.0)

  /** Assignment of an int to an int16: the low sixteen bits. */
  function Wrap16(x: int): int16 {
    ((x + 0x8000) % 0x1_0000 - 0x8000) as int16
  }

  function FloatTo16(x: real, undefined: int16): int16 {
    var n := Truncate(x);
    if -0x8000 <= n < 0x8000 then n as int16 else undefined
  }

  /** `copysignf(m, x)` when |x| exceeds `m`, else `x`. */
  function Limit(x: real, m: real): real {
    if Abs(x) > m then (if x < 0.0 then -m else m) else x
  }

  function Proportional(c: Config, error: real): real {
    c.velP * error
  }

  function RawIntegralStep(c: Config, error: real): real
    requires c.velI != 0.0
  {
    error * c.velP / (c.velI * MOTORSR)
  }

  function IntegralStep(c: Config, error: real): real
    requires c.velI != 0.0
  {
    var step := RawIntegralStep(c, error);
    Limit(if Abs(step) < c.velIDb then 0.0 else step, MAX_DI_EL)
  }

  function NextIntegral(c: Config, s: State, i: Input): real
    requires c.velI != 0.0
  {
    Limit((if i.vReq != s.prevV then 0.0 else s.iTerm) + IntegralStep(c, i.vReq - i.pv), MAX_I_EL)
  }

  /** The demand before friction compensation. */
  function PidDemand(c: Config, s: State, i: Input): int16
    requires c.velI != 0.0
  {
    FloatTo16(Proportional(c, i.vReq - i.pv) + NextIntegral(c, s, i) + i.dTerm, i.undefined1)
  }

  function FrictionFor(c: Config, demand: int16): real {
    if demand as int > c.frictionDb then c.friction
    else if (demand as int) < -c.frictionDb then -c.friction
    else 0.0
  }

  function NextFriction(c: Config, s: State, demand: int16): real {
    s.frictionIn + FrictionFor(c, demand) / 637.62 + 0.996863 * s.frictionOut
  }

  /** The demand the limits act on. */
  function Demand(c: Config, s: State, i: Input): int16
    requires c.velI != 0.0
  {
    var pid := PidDemand(c, s, i);
    FloatTo16(pid as real + NextFriction(c, s, pid), i.undefined2)
  }

  function SlewLimited(demand: int16, last: int16, maxDelta: int16): int16 {
    var hi, lo := last as int + maxDelta as int, last as int - maxDelta as int;
    if demand as int > hi then Wrap16(hi) else if (demand as int) < lo then Wrap16(lo) else demand
  }

  function Saturated(demand: int16, maxCurrent: int): int16 {
    if demand as int > maxCurrent then Wrap16(maxCurrent)
    else if (demand as int) < -maxCurrent then Wrap16(-maxCurrent)
    else demand
  }

  function Tick(c: Config, s: State, i: Input): State
    requires c.velI != 0.0
  {
    var pid := PidDemand(c, s, i);
    State(NextIntegral(c, s, i), i.vReq,
          Saturated(SlewLimited(Demand(c, s, i), s.lastMilliamp, Wrap16(c.maxDelta)), c.maxCurrent),
          FrictionFor(c, pid) / 637.62, NextFriction(c, s, pid))
  }

  /** The function's static variables. */
  class CurrentRegulator {
    var iTerm: real
    var prevV: real
    var lastMilliamp: int16
    var frictionIn: real
    var frictionOut: real

    ghost function Abstract(): State
      reads this
    {
      State(iTerm, prevV, lastMilliamp, frictionIn, frictionOut)
    }

    constructor ()
      ensures Abstract() == POWER_ON
    {
      iTerm, prevV, lastMilliamp, frictionIn, frictionOut := 0.0, 0.0, 0, 0.0, 0.0;
    }

    method CalculateCurrent(c: Config, i: Input) returns (current: int16)
      requires c.velI != 0.0
      modifies this
      ensures Abstract() == Tick(c, old(Abstract()), i)
      ensures current == lastMilliamp
    {
      hide Proportional, RawIntegralStep, IntegralStep, FloatTo16, Wrap16, Limit;
      var error := i.vReq - i.pv;
      Integrate(c, i);
      current := FloatTo16(Proportional(c, error) + iTerm + i.dTerm, i.undefined1);
      CompensateFriction(c, current);
      current := FloatTo16(current as real + frictionOut, i.undefined2);
      current := Limited(c, current);
      lastMilliamp := current;
    }

    method Integrate(c: Config, i: Input)
      requires c.velI != 0.0
      modifies this`iTerm, this`prevV
      ensures iTerm == NextIntegral(c, old(Abstract()), i) && prevV == i.vReq
    {
      hide RawIntegralStep;
      if i.vReq != prevV {
        iTerm := 0.0;
      }
      prevV := i.vReq;
      var iStep := RawIntegralStep(c, i.vReq - i.pv);
      if Abs(iStep) < c.velIDb {
        iStep := 0.0;
      }
      if Abs(iStep) > MAX_DI_EL {
        iStep := if iStep < 0.0 then -MAX_DI_EL else MAX_DI_EL;
      }
      iTerm := iTerm + iStep;
      if Abs(iTerm) > MAX_I_EL {
        iTerm := if iTerm < 0.0 then -MAX_I_EL else MAX_I_EL;
      }
    }

    method CompensateFriction(c: Config, demand: int16)
      modifies this`frictionIn, this`frictionOut
      ensures frictionIn == FrictionFor(c, demand) / 637.62
      ensures frictionOut == NextFriction(c, old(Abstract()), demand)
    {
      var friction := 0.0;
      if demand as int > c.frictionDb {
        friction := c.friction;
      } else if (demand as int) < -c.frictionDb {
        friction := -c.friction;
      }
      var before := frictionIn;
      frictionIn := friction / 637.62;
      frictionOut := before + frictionIn + 0.996863 * frictionOut;
    }

    method Limited(c: Config, demand: int16) returns (current: int16)
      ensures current == Saturated(SlewLimited(demand, lastMilliamp, Wrap16(c.maxDelta)), c.maxCurrent)
    {
      hide Wrap16;
      current := demand;
      var maxDelta := Wrap16(c.maxDelta);
      if current as int > lastMilliamp as int + maxDelta as int {
        current := Wrap16(lastMilliamp as int + maxDelta as int);
      } else if (current as int) < lastMilliamp as int - maxDelta as int {
        current := Wrap16(lastMilliamp as int - maxDelta as int);
      }
      if current as int > c.maxCurrent {
        current := Wrap16(c.maxCurrent);
      } else if (current as int) < -c.maxCurrent {
        current := Wrap16(-c.maxCurrent);
      }
    }
  }

  // ---------------------------------------------------------------- safety over whole runs

  function Run(c: Config, s: State, inputs: seq<Input>): State
    requires c.velI != 0.0
  {
    if inputs == [] then s else Tick(c, Run(c, s, inputs[..|inputs| - 1]), inputs[|inputs| - 1])
  }

  /** The limits make sense: neither is negative. The slew limit may be wider than the int16 it is stored in. */
  predicate Usable(c: Config) {
    c.velI != 0.0 && c.maxCurrent >= 0 && c.maxDelta >= 0
  }

  predicate Safe(c: Config, s: State) {
    && -c.maxCurrent <= s.lastMilliamp as int <= c.maxCurrent
    && Abs(s.iTerm) <= MAX_I_EL
    && Abs(s.frictionIn) <= Abs(c.friction) / 637.62
    && Abs(s.frictionOut) <= Abs(c.friction)
  }

  /** The currents a tick may command: within the limit, and within one slew step of the last. */
  predicate Admissible(c: Config, last: int16, current: int) {
    && -c.maxCurrent <= current <= c.maxCurrent
    && last as int - c.maxDelta <= current <= last as int + c.maxDelta
  }

  function Gap(x: int, y: int): int {
    if x <= y then y - x else x - y
  }

  /** What an int16 keeps of a number below 2^17. */
  lemma Kept(x: int)
    requires -0x1_0000 <= x < 0x1_0000
    ensures Wrap16(x) as int == if x < -0x8000 then x + 0x1_0000 else if x < 0x8000 then x else x - 0x1_0000
  {}

  /** What an int16 keeps of a nonnegative slew limit: that, or less than 2^15 either way. */
  lemma SlewKept(maxDelta: int)
    requires maxDelta >= 0
    ensures var d := Wrap16(maxDelta) as int;
            && (maxDelta < 0x8000 ==> d == maxDelta)
            && (maxDelta >= 0x8000 && d < 0 ==> d + 0x1_0000 <= maxDelta)
            && (maxDelta >= 0x8000 && d >= 0 ==> maxDelta >= 0x1_0000)
  {
    var q, r := (maxDelta + 0x8000) / 0x1_0000, (maxDelta + 0x8000) % 0x1_0000;
    assert maxDelta + 0x8000 == 0x1_0000 * q + r;
  }

  /** The slew limit moves the demand at most `maxDelta` away from the last current. */
  lemma SlewIsBounded(demand: int16, last: int16, maxDelta: int)
    requires maxDelta >= 0
    ensures Gap(SlewLimited(demand, last, Wrap16(maxDelta)) as int, last as int) <= maxDelta
  {
    SlewKept(maxDelta);
    var d := Wrap16(maxDelta);
    Kept(last as int + d as int);
    Kept(last as int - d as int);
    hide Wrap16;
  }

  lemma SaturationIsExact(demand: int16, maxCurrent: int)
    requires maxCurrent >= 0
    ensures Saturated(demand, maxCurrent) as int
            == if demand as int > maxCurrent then maxCurrent
               else if (demand as int) < -maxCurrent then -maxCurrent
               else demand as int
  {
    if demand as int > maxCurrent {
      Kept(maxCurrent);
    } else if (demand as int) < -maxCurrent {
      Kept(-maxCurrent);
    }
    hide Wrap16;
  }

  /** The limits keep the current and its step within theirs, even where the slew limit wraps. */
  lemma LimitsAreKept(c: Config, demand: int16, last: int16)
    requires Usable(c) && -c.maxCurrent <= last as int <= c.maxCurrent
    ensures Admissible(c, last, Saturated(SlewLimited(demand, last, Wrap16(c.maxDelta)), c.maxCurrent) as int)
  {
    hide Wrap16, SlewLimited, Saturated;
    SlewIsBounded(demand, last, c.maxDelta);
    SaturationIsExact(SlewLimited(demand, last, Wrap16(c.maxDelta)), c.maxCurrent);
  }

  /** Of the currents within both limits the one commanded is nearest the demand. */
  predicate Nearest(c: Config, demand: int16, last: int16, current: int) {
    -c.maxCurrent <= last as int <= c.maxCurrent && Admissible(c, last, current) ==>
      Gap(Saturated(SlewLimited(demand, last, Wrap16(c.maxDelta)), c.maxCurrent) as int, demand as int)
      <= Gap(current, demand as int)
  }

  /** The slew limit survives the int16, or no step is long enough for it to matter. */
  predicate SlewFits(c: Config) {
    c.maxDelta < 0x8000 || c.maxCurrent == 0 || Wrap16(c.maxDelta) as int >= 2 * c.maxCurrent
  }

  lemma SlewIsExact(demand: int16, last: int16, d: int16)
    requires d >= 0
    ensures SlewLimited(demand, last, d) as int
            == if demand as int > last as int + d as int then last as int + d as int
               else if (demand as int) < last as int - d as int then last as int - d as int
               else demand as int
  {
    Kept(last as int + d as int);
    Kept(last as int - d as int);
    hide Wrap16;
  }

  lemma NearestWhenItFits(c: Config, demand: int16, last: int16, current: int)
    requires Usable(c) && SlewFits(c)
    ensures Nearest(c, demand, last, current)
  {
    SlewKept(c.maxDelta);
    var d := Wrap16(c.maxDelta);
    SaturationIsExact(SlewLimited(demand, last, d), c.maxCurrent);
    if d >= 0 {
      SlewIsExact(demand, last, d);
    }
    hide Wrap16, SlewLimited, Saturated;
  }

  /** A demand the limits miss: 0 from 0 when the limit wraps to a negative one, else one end from the other. */
  lemma NotNearestWhenItWraps(c: Config) returns (demand: int16, last: int16)
    requires Usable(c) && !SlewFits(c)
    ensures !Nearest(c, demand, last, demand as int)
  {
    SlewKept(c.maxDelta);
    var d := Wrap16(c.maxDelta);
    if d < 0 {
      demand, last := 0, 0;
      Kept(d as int);
    } else {
      demand := if c.maxCurrent < 0x8000 then c.maxCurrent as int16 else 0x7FFF;
      last := if c.maxCurrent <= 0x8000 then (-c.maxCurrent) as int16 else -0x8000;
      SlewIsExact(demand, last, d);
    }
    SaturationIsExact(SlewLimited(demand, last, d), c.maxCurrent);
    hide Wrap16, Saturated;
  }

  /** The limits return the current nearest the demand among those within both, from every last current
      and for every demand, exactly when the slew limit survives the int16 or never matters. */
  lemma LimitsPickTheNearestIff(c: Config)
    requires Usable(c)
    ensures (forall demand: int16, last: int16, current: int :: Nearest(c, demand, last, current)) <==> SlewFits(c)
  {
    hide Nearest, SlewFits;
    if SlewFits(c) {
      forall demand: int16, last: int16, current: int ensures Nearest(c, demand, last, current) {
        NearestWhenItFits(c, demand, last, current);
      }
    } else {
      var demand, last := NotNearestWhenItWraps(c);
    }
  }

  /** The compensation filter's gain stays below 1. */
  lemma FrictionIsBounded(c: Config, s: State, demand: int16)
    requires Abs(s.frictionIn) <= Abs(c.friction) / 637.62 && Abs(s.frictionOut) <= Abs(c.friction)
    ensures Abs(FrictionFor(c, demand) / 637.62) <= Abs(c.friction) / 637.62
    ensures Abs(NextFriction(c, s, demand)) <= Abs(c.friction)
  {
    var f := Abs(c.friction);
    var x := FrictionFor(c, demand);
    assert -f <= x <= f;
    assert 2.0 * (f / 637.62) + 0.996863 * f <= f;
  }

  /** One tick keeps within the limits of the current and moves the integral by at most MAX_DI_EL
      unless the demand changed. */
  predicate GoodTick(c: Config, s: State, i: Input, t: State) {
    && Admissible(c, s.lastMilliamp, t.lastMilliamp as int)
    && (i.vReq == s.prevV ==> Abs(t.iTerm - s.iTerm) <= MAX_DI_EL)
  }

  lemma TickIsSafe(c: Config, s: State, i: Input)
    requires Usable(c) && Safe(c, s)
    ensures Safe(c, Tick(c, s, i)) && GoodTick(c, s, i, Tick(c, s, i))
  {
    hide IntegralStep, FloatTo16, Proportional, Wrap16;
    LimitsAreKept(c, Demand(c, s, i), s.lastMilliamp);
    FrictionIsBounded(c, s, PidDemand(c, s, i));
    IntegralStepIsBounded(c, i.vReq - i.pv);
  }

  lemma IntegralStepIsBounded(c: Config, error: real)
    requires c.velI != 0.0
    ensures Abs(IntegralStep(c, error)) <= MAX_DI_EL
  {
    hide RawIntegralStep;
  }

  /** Over every run from power on: the commanded current is bounded, each command is within one
      slew step of the one before, the integral and the friction compensation stay within their
      limits, and the integral moves by at most MAX_DI_EL while the demand is unchanged. */
  lemma {:induction false} EveryRunIsSafe(c: Config, inputs: seq<Input>)
    requires Usable(c)
    ensures Safe(c, Run(c, POWER_ON, inputs))
    ensures forall k :: 0 <= k < |inputs| ==>
              GoodTick(c, Run(c, POWER_ON, inputs[..k]), inputs[k], Run(c, POWER_ON, inputs[..k + 1]))
  {
    hide Tick, Safe, GoodTick, Wrap16;
    if inputs == [] {
      PowerOnIsSafe(c);
    } else {
      var n := |inputs| - 1;
      var init, last := inputs[..n], inputs[n];
      EveryRunIsSafe(c, init);
      TickIsSafe(c, Run(c, POWER_ON, init), last);
      assert inputs[..n + 1] == inputs;
      forall k | 0 <= k < n
        ensures GoodTick(c, Run(c, POWER_ON, inputs[..k]), inputs[k], Run(c, POWER_ON, inputs[..k + 1]))
      {
        assert inputs[..k] == init[..k] && inputs[..k + 1] == init[..k + 1];
      }
    }
  }

  lemma PowerOnIsSafe(c: Config)
    requires Usable(c)
    ensures Safe(c, POWER_ON)
  {}
}
