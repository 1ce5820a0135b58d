/** Which current the regulator of Oph/src/motor_control.c asks for: its terms, their signs and constants, and
    how they move with the velocity error. */
module RegulatorLaws {
  import opened Common
  import opened Regulator

  // ---------------------------------------------------------------- truncation

  /** A float becomes the integer next to it on the side of zero. */
  lemma TruncateIsTowardsZero(x: real)
    ensures x >= 0.0 ==> 0 <= Truncate(x) && Truncate(x) as real <= x < (Truncate(x) + 1) as real
    ensures x <= 0.0 ==> Truncate(x) <= 0 && (Truncate(x) - 1) as real < x <= Truncate(x) as real
  {}

  lemma TruncateIsMonotone(x: real, y: real)
    requires x <= y
    ensures Truncate(x) <= Truncate(y)
  {}

  predicate Fits16(x: real) {
    -0x8000 <= Truncate(x) <= 0x7FFF
  }

  // ---------------------------------------------------------------- the terms

  /** The demand before friction: the gain times the velocity error, the integral and the derivative term. */
  function RawDemand(c: Config, s: State, i: Input): real
    requires c.velI != 0.0
  {
    c.velP * (i.vReq - i.pv) + NextIntegral(c, s, i) + i.dTerm
  }

  /** What one tick adds to the integral, before its deadband and its limit. */
  function RawStep(c: Config, i: Input): real
    requires c.velI != 0.0
  {
    (i.vReq - i.pv) * c.velP / (c.velI * 200.0)
  }

  lemma RawDemandIs(c: Config, s: State, i: Input)
    requires c.velI != 0.0 && Fits16(RawDemand(c, s, i))
    ensures PidDemand(c, s, i) as int == Truncate(RawDemand(c, s, i))
  {
    hide Truncate, NextIntegral;
  }

  /** The integral: kept, or started again when the demand changes; plus the step, which is 0 in the deadband
      and 20 at most; and 800 at most. */
  lemma IntegralIs(c: Config, s: State, i: Input)
    requires c.velI != 0.0
    ensures var raw, before := RawStep(c, i), if i.vReq == s.prevV then s.iTerm else 0.0;
            var step := if Abs(raw) < c.velIDb then 0.0
                        else if raw > 20.0 then 20.0 else if raw < -20.0 then -20.0 else raw;
            NextIntegral(c, s, i) ==
            if before + step > 800.0 then 800.0 else if before + step < -800.0 then -800.0 else before + step
  {
    hide RawIntegralStep, RawStep;
    SameStep(c, i);
  }

  lemma SameStep(c: Config, i: Input)
    requires c.velI != 0.0
    ensures RawStep(c, i) == RawIntegralStep(c, i.vReq - i.pv)
  {}

  // ---------------------------------------------------------------- a larger error asks for no less

  lemma Products(a: real, b: real, k: real)
    requires a <= b && k >= 0.0
    ensures k * a <= k * b && a * k <= b * k
  {}

  lemma Quotients(a: real, b: real, k: real)
    requires a <= b && k > 0.0
    ensures a / k <= b / k
  {
    Products(a, b, 1.0 / k);
    assert a / k == a * (1.0 / k) && b / k == b * (1.0 / k);
  }

  /** The same demand and derivative term, and a velocity error no larger in `i` than in `j`. */
  predicate LessError(i: Input, j: Input) {
    i.vReq == j.vReq && i.dTerm == j.dTerm && i.pv >= j.pv
  }

  predicate Positive(c: Config) {
    c.velP >= 0.0 && c.velI > 0.0 && c.friction >= 0.0 && GoodLimits(c)
  }

  lemma IntegralIsMonotone(c: Config, s: State, i: Input, j: Input)
    requires Positive(c) && LessError(i, j)
    ensures NextIntegral(c, s, i) <= NextIntegral(c, s, j)
  {
    hide NextIntegral, RawStep, Abs;
    IntegralIs(c, s, i);
    IntegralIs(c, s, j);
    RawStepsAreMonotone(c, i, j);
    StepsAreMonotone(RawStep(c, i), RawStep(c, j), c.velIDb);
  }

  lemma RawStepsAreMonotone(c: Config, i: Input, j: Input)
    requires Positive(c) && LessError(i, j)
    ensures RawStep(c, i) <= RawStep(c, j)
  {
    var e, f := i.vReq - i.pv, j.vReq - j.pv;
    Products(e, f, c.velP);
    Quotients(e * c.velP, f * c.velP, c.velI * 200.0);
  }

  lemma StepsAreMonotone(x: real, y: real, deadband: real)
    requires x <= y
    ensures (if Abs(x) < deadband then 0.0 else x) <= (if Abs(y) < deadband then 0.0 else y)
  {}

  lemma PidIsMonotone(c: Config, s: State, i: Input, j: Input)
    requires Positive(c) && LessError(i, j) && Fits16(RawDemand(c, s, i)) && Fits16(RawDemand(c, s, j))
    ensures PidDemand(c, s, i) <= PidDemand(c, s, j)
  {
    hide Truncate, PidDemand, RawDemand;
    RawDemandIs(c, s, i);
    RawDemandIs(c, s, j);
    RawDemandIsMonotone(c, s, i, j);
    TruncateIsMonotone(RawDemand(c, s, i), RawDemand(c, s, j));
  }

  lemma RawDemandIsMonotone(c: Config, s: State, i: Input, j: Input)
    requires Positive(c) && LessError(i, j)
    ensures RawDemand(c, s, i) <= RawDemand(c, s, j)
  {
    hide NextIntegral;
    IntegralIsMonotone(c, s, i, j);
    var e, f := i.vReq - i.pv, j.vReq - j.pv;
    Products(e, f, c.velP);
    assert RawDemand(c, s, i) == c.velP * e + NextIntegral(c, s, i) + i.dTerm;
    assert RawDemand(c, s, j) == c.velP * f + NextIntegral(c, s, j) + j.dTerm;
  }

  /** The demand the limits act on, before it becomes an integer. */
  function FullDemand(c: Config, s: State, i: Input): real
    requires c.velI != 0.0
  {
    PidDemand(c, s, i) as real + NextFriction(c, s, PidDemand(c, s, i))
  }

  /** No conversion to an int16 overflows. */
  predicate NoOverflow(c: Config, s: State, i: Input)
    requires c.velI != 0.0
  {
    Fits16(RawDemand(c, s, i)) && Fits16(FullDemand(c, s, i))
  }

  lemma FrictionIsMonotone(c: Config, s: State, d: int16, e: int16)
    requires c.friction >= 0.0 && d <= e
    ensures NextFriction(c, s, d) <= NextFriction(c, s, e)
  {
    assert FrictionFor(c, d) <= FrictionFor(c, e);
  }

  lemma DemandIsMonotone(c: Config, s: State, i: Input, j: Input)
    requires Positive(c) && LessError(i, j) && NoOverflow(c, s, i) && NoOverflow(c, s, j)
    ensures Demand(c, s, i) <= Demand(c, s, j)
  {
    hide Truncate, PidDemand, NextFriction, RawDemand;
    PidIsMonotone(c, s, i, j);
    FrictionIsMonotone(c, s, PidDemand(c, s, i), PidDemand(c, s, j));
    TruncateIsMonotone(FullDemand(c, s, i), FullDemand(c, s, j));
  }

  /** For one state, demand and derivative term, a larger velocity error never gives a smaller current. */
  lemma LargerErrorNeverGivesLess(c: Config, s: State, i: Input, j: Input)
    requires Positive(c) && LessError(i, j) && NoOverflow(c, s, i) && NoOverflow(c, s, j)
    ensures Tick(c, s, i).lastMilliamp <= Tick(c, s, j).lastMilliamp
  {
    DemandIsMonotone(c, s, i, j);
    Kept(c.maxDelta);
    var d := Wrap16(c.maxDelta);
    SlewIsExact(Demand(c, s, i), s.lastMilliamp, d);
    SlewIsExact(Demand(c, s, j), s.lastMilliamp, d);
    SaturationIsExact(SlewLimited(Demand(c, s, i), s.lastMilliamp, d), c.maxCurrent);
    SaturationIsExact(SlewLimited(Demand(c, s, j), s.lastMilliamp, d), c.maxCurrent);
    hide Demand, SlewLimited, Saturated, Wrap16, NextIntegral, PidDemand, NextFriction, FrictionFor;
  }

  // ---------------------------------------------------------------- the current of one tick

  /** The gain times the error, plus the integral as it stands and the derivative term. */
  function PidSum(c: Config, s: State, i: Input): real {
    c.velP * (i.vReq - i.pv) + s.iTerm + i.dTerm
  }

  /** `x`, or the end of the interval it is beyond. */
  function Between(lo: int, x: int, hi: int): int {
    if x < lo then lo else if x > hi then hi else x
  }

  /** The demand moved within the slew limit of the last current, and then within the current limit. */
  function Limited(c: Config, s: State, demand: int): int {
    var last := s.lastMilliamp as int;
    Between(-c.maxCurrent, Between(last - c.maxDelta, demand, last + c.maxDelta), c.maxCurrent)
  }

  predicate GoodLimits(c: Config) {
    c.maxCurrent >= 0 && 0 <= c.maxDelta < 0x8000
  }

  lemma LimitsActOnTheDemand(c: Config, s: State, i: Input)
    requires c.velI != 0.0 && GoodLimits(c)
    ensures Tick(c, s, i).lastMilliamp as int == Limited(c, s, Demand(c, s, i) as int)
  {
    hide Demand, PidDemand, NextIntegral, Wrap16, SlewLimited, Saturated, NextFriction, FrictionFor;
    Kept(c.maxDelta);
    var d := Wrap16(c.maxDelta);
    SlewIsExact(Demand(c, s, i), s.lastMilliamp, d);
    SaturationIsExact(SlewLimited(Demand(c, s, i), s.lastMilliamp, d), c.maxCurrent);
  }

  /** The current is the truncated demand plus the friction compensation, truncated again, within the limits. */
  lemma CurrentIsTheLimitedDemand(c: Config, s: State, i: Input)
    requires c.velI != 0.0 && GoodLimits(c) && NoOverflow(c, s, i)
    ensures var t := Tick(c, s, i);
            t.lastMilliamp as int
            == Limited(c, s, Truncate(Truncate(RawDemand(c, s, i)) as real + t.frictionOut))
  {
    hide Truncate, Limited, RawDemand, NextIntegral, PidDemand, NextFriction, FrictionFor, Wrap16, SlewLimited,
         Saturated, Demand;
    LimitsActOnTheDemand(c, s, i);
    RawDemandIs(c, s, i);
    DemandWithFriction(c, s, i);
  }

  lemma DemandWithFriction(c: Config, s: State, i: Input)
    requires c.velI != 0.0 && Fits16(FullDemand(c, s, i))
    ensures Demand(c, s, i) as int == Truncate(FullDemand(c, s, i))
  {
    hide Truncate, PidDemand, NextFriction;
  }

  /** With the integral step in its deadband and no friction, the current is the gain times the error, plus the
      integral and the derivative term, truncated, within the limits. */
  lemma CurrentIs(c: Config, s: State, i: Input)
    requires c.velI != 0.0 && c.friction == 0.0 && s.frictionIn == 0.0 && s.frictionOut == 0.0
    requires (i.vReq == s.prevV || s.iTerm == 0.0) && Abs(RawStep(c, i)) < c.velIDb && Abs(s.iTerm) <= 800.0
    requires GoodLimits(c) && Fits16(PidSum(c, s, i))
    ensures Tick(c, s, i).lastMilliamp as int == Limited(c, s, Truncate(PidSum(c, s, i)))
  {
    hide Tick, Demand, RawStep, PidSum, Limited, Truncate;
    LimitsActOnTheDemand(c, s, i);
    DemandIs(c, s, i);
  }

  lemma DemandIs(c: Config, s: State, i: Input)
    requires c.velI != 0.0 && c.friction == 0.0 && s.frictionIn == 0.0 && s.frictionOut == 0.0
    requires (i.vReq == s.prevV || s.iTerm == 0.0) && Abs(RawStep(c, i)) < c.velIDb && Abs(s.iTerm) <= 800.0
    requires Fits16(PidSum(c, s, i))
    ensures Demand(c, s, i) as int == Truncate(PidSum(c, s, i))
  {
    hide PidDemand, NextIntegral, RawStep, Truncate, PidSum;
    IntegralStays(c, s, i);
    RawDemandIsPidSum(c, s, i);
    RawDemandIs(c, s, i);
    WholeStays(PidDemand(c, s, i) as int);
  }

  /** A gain of 25, an integral time of 0.5 and a deadband of 10, from power on: an error of 10 asks for 250
      milliamperes, of which the slew limit lets 5 through on the first tick. */
  lemma FirstCurrent(c: Config, i: Input)
    requires c == Config(25.0, 0.5, 10.0, 0.0, c.frictionDb, 5, 3000)
    requires i == Input(10.0, 0.0, 0.0, i.undefined1, i.undefined2)
    ensures PidSum(c, POWER_ON, i) == 250.0 && Tick(c, POWER_ON, i).lastMilliamp == 5
  {
    assert RawStep(c, i) == 2.5;
    WholeStays(250);
    CurrentIs(c, POWER_ON, i);
    hide Tick;
  }

  lemma IntegralStays(c: Config, s: State, i: Input)
    requires c.velI != 0.0 && (i.vReq == s.prevV || s.iTerm == 0.0)
    requires Abs(RawStep(c, i)) < c.velIDb && Abs(s.iTerm) <= 800.0
    ensures NextIntegral(c, s, i) == s.iTerm
  {
    hide NextIntegral, RawStep;
    IntegralIs(c, s, i);
  }

  lemma RawDemandIsPidSum(c: Config, s: State, i: Input)
    requires c.velI != 0.0 && NextIntegral(c, s, i) == s.iTerm
    ensures RawDemand(c, s, i) == PidSum(c, s, i)
  {
    hide NextIntegral;
    var e := i.vReq - i.pv;
    assert RawDemand(c, s, i) == c.velP * e + NextIntegral(c, s, i) + i.dTerm;
    assert PidSum(c, s, i) == c.velP * e + s.iTerm + i.dTerm;
  }

  lemma WholeStays(n: int)
    ensures Truncate(n as real) == n
  {}

  // ---------------------------------------------------------------- the integral over a run

  /** A step outside the deadband and within its limit, and every integral of the run within the other. */
  predicate Unlimited(c: Config, before: real, step: real, ticks: nat) {
    c.velIDb <= Abs(step) <= 20.0 && forall k :: 0 <= k <= ticks ==> Abs(before + Times(k, step)) <= 800.0
  }

  /** Outside the deadband and below both limits, a constant demand and velocity make the integral grow by the
      same step on every tick: the error times the gain, over 200 times the integral time. The demand may be new
      on the first of them when the integral is 0. */
  lemma {:induction false} IntegralGrowsEvenly(c: Config, s: State, inputs: seq<Input>, v: real, pv: real)
    requires c.velI != 0.0 && (s.prevV == v || s.iTerm == 0.0) && forall i <- inputs :: i.vReq == v && i.pv == pv
    requires Unlimited(c, s.iTerm, (v - pv) * c.velP / (c.velI * 200.0), |inputs|)
    ensures inputs != [] ==> Run(c, s, inputs).prevV == v
    ensures Run(c, s, inputs).iTerm == s.iTerm + |inputs| as real * ((v - pv) * c.velP / (c.velI * 200.0))
  {
    hide Tick, Abs, Unlimited, RawStep;
    var step := (v - pv) * c.velP / (c.velI * 200.0);
    forall i <- inputs ensures RawStep(c, i) == step {
      RawStepAt(c, i, v, pv);
    }
    GrowsBy(c, s, inputs, v, pv, step);
    assert Times(|inputs|, step) == |inputs| as real * step;
  }

  lemma RawStepAt(c: Config, i: Input, v: real, pv: real)
    requires c.velI != 0.0 && i.vReq == v && i.pv == pv
    ensures RawStep(c, i) == (v - pv) * c.velP / (c.velI * 200.0)
  {}

  lemma {:induction false} GrowsBy(c: Config, s: State, inputs: seq<Input>, v: real, pv: real, step: real)
    requires c.velI != 0.0 && (s.prevV == v || s.iTerm == 0.0)
    requires forall i <- inputs :: i.vReq == v && i.pv == pv && RawStep(c, i) == step
    requires Unlimited(c, s.iTerm, step, |inputs|)
    ensures inputs != [] ==> Run(c, s, inputs).prevV == v
    ensures Run(c, s, inputs).iTerm == s.iTerm + Times(|inputs|, step)
  {
    hide Tick, Times, RawStep, Abs;
    if inputs == [] {
      NoTimes(step);
    } else {
      var n := |inputs| - 1;
      GrowsBy(c, s, inputs[..n], v, pv, step);
      OnceMore(n, step);
      assert inputs[n] in inputs;
      OneStep(c, Run(c, s, inputs[..n]), inputs[n], step);
    }
  }

  lemma OneStep(c: Config, s: State, i: Input, step: real)
    requires c.velI != 0.0 && (s.prevV == i.vReq || s.iTerm == 0.0) && RawStep(c, i) == step
    requires c.velIDb <= Abs(step) <= 20.0 && Abs(s.iTerm + step) <= 800.0
    ensures Tick(c, s, i).prevV == i.vReq && Tick(c, s, i).iTerm == s.iTerm + step
  {
    hide NextIntegral, RawStep, PidDemand, Demand, NextFriction, FrictionFor, SlewLimited, Saturated, Wrap16;
    IntegralIs(c, s, i);
  }

  function Times(n: int, x: real): real {
    n as real * x
  }

  lemma NoTimes(x: real)
    ensures Times(0, x) == 0.0
  {}

  lemma OnceMore(n: int, x: real)
    ensures Times(n + 1, x) == Times(n, x) + x
  {}

  // ---------------------------------------------------------------- friction

  /** Where the compensation settles while the demand stays on one side: close to the configured friction. */
  function Settled(friction: real): real {
    2.0 * (friction / 637.62) / 0.003137
  }

  lemma SettledIsNearFriction(friction: real)
    requires friction >= 0.0
    ensures 0.999 * friction <= Settled(friction) <= friction
    ensures Settled(-friction) == -Settled(friction)
  {}

  /** The side of the demand: 1 above the deadband, -1 below it, 0 within. */
  function Side(c: Config, demand: int16): real {
    if demand as int > c.frictionDb then 1.0 else if (demand as int) < -c.frictionDb then -1.0 else 0.0
  }

  lemma FrictionIs(c: Config, s: State, i: Input)
    requires c.velI != 0.0
    ensures var t, f := Tick(c, s, i), Side(c, PidDemand(c, s, i)) * c.friction;
            && t.frictionIn == f / 637.62
            && t.frictionOut == s.frictionIn + f / 637.62 + 0.996863 * s.frictionOut
  {
    hide PidDemand, NextIntegral, Demand, SlewLimited, Saturated, Wrap16;
  }

  /** From rest the first tick of a demand beyond the deadband moves the compensation to its side. */
  lemma FrictionSetsOff(c: Config, s: State, i: Input)
    requires c.velI != 0.0 && c.friction > 0.0 && s.frictionIn == 0.0 && s.frictionOut == 0.0
    ensures var t, side := Tick(c, s, i), Side(c, PidDemand(c, s, i));
            (t.frictionOut > 0.0 <==> side > 0.0) && (t.frictionOut < 0.0 <==> side < 0.0)
  {
    hide Tick, Side;
    FrictionIs(c, s, i);
    SideIs(c, PidDemand(c, s, i));
  }

  lemma SideIs(c: Config, demand: int16)
    ensures Side(c, demand) == 1.0 || Side(c, demand) == -1.0 || Side(c, demand) == 0.0
  {}

  /** While the demand stays on its side the distance to the settled value shrinks by the same factor on every
      tick. */
  lemma FrictionSettles(c: Config, s: State, i: Input)
    requires c.velI != 0.0 && s.frictionIn == Side(c, PidDemand(c, s, i)) * c.friction / 637.62
    ensures var t, goal := Tick(c, s, i), Settled(Side(c, PidDemand(c, s, i)) * c.friction);
            && t.frictionOut - goal == 0.996863 * (s.frictionOut - goal)
            && t.frictionIn == s.frictionIn
  {
    hide Tick, Side;
    FrictionIs(c, s, i);
  }

  /** Every demand of the run lies on this side. */
  predicate Sided(c: Config, s: State, inputs: seq<Input>, side: real)
    requires c.velI != 0.0
  {
    forall k :: 0 <= k < |inputs| ==> SideOfTick(c, s, inputs, k) == side
  }

  function SideOfTick(c: Config, s: State, inputs: seq<Input>, k: nat): real
    requires c.velI != 0.0 && k < |inputs|
  {
    Side(c, PidDemand(c, Run(c, s, inputs[..k]), inputs[k]))
  }

  function Power(n: nat): real {
    if n == 0 then 1.0 else 0.996863 * Power(n - 1)
  }

  /** A demand that stays on one side takes the compensation to the settled value of that side. */
  lemma {:induction false} FrictionConverges(c: Config, s: State, inputs: seq<Input>, side: real)
    requires c.velI != 0.0 && Sided(c, s, inputs, side) && s.frictionIn == side * c.friction / 637.62
    ensures var r, goal := Run(c, s, inputs), Settled(side * c.friction);
            && r.frictionOut - goal == Power(|inputs|) * (s.frictionOut - goal)
            && r.frictionIn == s.frictionIn
  {
    hide Tick, Side, Settled, PidDemand;
    if inputs != [] {
      var n := |inputs| - 1;
      forall k | 0 <= k < n ensures SideOfTick(c, s, inputs[..n], k) == side {
        assert inputs[..n][..k] == inputs[..k];
        assert SideOfTick(c, s, inputs, k) == side;
      }
      FrictionConverges(c, s, inputs[..n], side);
      assert SideOfTick(c, s, inputs, n) == side;
      FrictionSettles(c, Run(c, s, inputs[..n]), inputs[n]);
      Regrouped(n, s.frictionOut - Settled(side * c.friction));
    }
  }

  lemma Regrouped(n: nat, x: real)
    ensures Power(n + 1) * x == 0.996863 * (Power(n) * x)
  {}
}
