/** The on/off scan of Oph/src/motor_control.c, `enc_onoff`, with the elevation part of `track` that
    it calls on every tick. */
module OnOffScan {
  import opened Common

  const MAXEL := 53.0
  const MINEL := -0.7
  const ON_TARGET := 0.1

  /** What one tick observes: the clock, the target and telescope angles, and the configuration. */
  datatype Observation = Observation(now: real, lat: real, lon: real, position: real, azimuth: real,
                                     lazisusan: bool, motor: bool)

  datatype State = State(
    axesKind: AxesKind, dest: real, destAz: real, onTarget: bool, onTargetEl: bool, onTargetAz: bool,
    scan: int, onPosition: int, offset: real, time: real,
    onToOff: int, offToOff: int, top: bool, tStart: real)

  /** The elevation `track` asks for. */
  function TrackedEl(o: Observation): real {
    if o.lat > MAXEL then MAXEL else if o.lat < MINEL then 0.0 else o.lat
  }

  function Tracked(s: State, o: Observation): State {
    var t := s.(axesKind := Pos, dest := TrackedEl(o), destAz := if MINEL <= o.lat <= MAXEL then o.lon else s.destAz);
    var el, az := Abs(o.position - t.dest) < ON_TARGET, Abs(t.destAz - o.azimuth) < ON_TARGET;
    if o.lazisusan && o.motor then t.(onTarget := az && el, onTargetEl := el, onTargetAz := az)
    else if !o.lazisusan then t.(onTarget := el, onTargetEl := el)
    else t.(onTarget := az, onTargetAz := az)
  }

  /** `enc_onoff` after its call of `track`. */
  function Scanned(s: State, now: real): State {
    if s.scan == 0 then
      if s.onTargetEl then
        s.(onPosition := 1, tStart := now, onToOff := 0, offToOff := 0, top := false, scan := 1)
      else s.(onPosition := 0)
    else Advanced(s.(dest := s.dest + CommandedOffset(s)), now)
  }

  function Advanced(s: State, now: real): State {
    if now - s.tStart > s.time / 2.0 && s.onPosition != 1 then
      if s.onPosition == -1 then
        if s.top then s.(onPosition := 0, offToOff := 1, top := false)
        else s.(onPosition := 0, onToOff := -1)
      else if s.onTargetEl then
        if s.onToOff == 1 then s.(tStart := now, onPosition := -1, onToOff := 0)
        else if s.offToOff == 1 then s.(tStart := now, onPosition := -1, offToOff := 0)
        else if s.onToOff == -1 then s.(tStart := now, onPosition := 1, onToOff := 0, scan := s.scan + 1)
        else s.(tStart := now)
      else s
    else if now - s.tStart > s.time && s.onPosition == 1 then s.(onToOff := 1, onPosition := 0, top := true)
    else s
  }

  function CommandedOffset(s: State): real {
    if (s.onPosition == -1 || s.onToOff == 1) && s.top then s.offset
    else if s.onPosition == -1 || s.offToOff == 1 then -s.offset
    else 0.0
  }

  function Tick(s: State, o: Observation): State {
    Scanned(Tracked(s, o), o.now)
  }

  /** `axes_mode`, `scan_mode` and the static variables of `enc_onoff`. */
  class Scanner {
    var axesKind: AxesKind
    var dest: real
    var destAz: real
    var onTarget: bool
    var onTargetEl: bool
    var onTargetAz: bool
    var scan: int
    var onPosition: int
    var offset: real
    var time: real
    var onToOff: int
    var offToOff: int
    var top: bool
    var tStart: real

    ghost function Abstract(): State
      reads this
    {
      State(axesKind, dest, destAz, onTarget, onTargetEl, onTargetAz, scan, onPosition, offset, time, onToOff,
            offToOff, top, tStart)
    }

    method Track(o: Observation)
      modifies this`axesKind, this`dest, this`destAz, this`onTarget, this`onTargetEl, this`onTargetAz
      ensures Abstract() == Tracked(old(Abstract()), o)
    {
      axesKind := Pos;
      if o.lat > MAXEL {
        dest := MAXEL;
      } else if o.lat < MINEL {
        dest := 0.0;
      } else {
        dest, destAz := o.lat, o.lon;
      }
      if o.lazisusan && o.motor {
        var elDelta, azDelta := Abs(o.position - dest), Abs(destAz - o.azimuth);
        if azDelta < ON_TARGET && elDelta < ON_TARGET {
          onTarget, onTargetEl, onTargetAz := true, true, true;
        } else {
          onTarget := false;
          if azDelta < ON_TARGET {
            onTargetAz, onTargetEl := true, false;
          } else if elDelta < ON_TARGET {
            onTargetAz, onTargetEl := false, true;
          } else {
            onTargetAz, onTargetEl := false, false;
          }
        }
      } else if !o.lazisusan {
        var elDelta := Abs(o.position - dest);
        onTarget, onTargetEl := elDelta < ON_TARGET, elDelta < ON_TARGET;
      } else {
        var azDelta := Abs(destAz - o.azimuth);
        onTarget, onTargetAz := azDelta < ON_TARGET, azDelta < ON_TARGET;
      }
    }

    method EncOnOff(o: Observation)
      modifies this
      ensures Abstract() == Tick(old(Abstract()), o)
    {
      hide Tracked, Advanced;
      Track(o);
      if scan == 0 {
        onPosition := 0;
        if onTargetEl {
          onPosition, tStart, onToOff, offToOff, top, scan := 1, o.now, 0, 0, false, scan + 1;
        }
      } else {
        if (onPosition == -1 || onToOff == 1) && top {
          dest := dest + offset;
        } else if onPosition == -1 || offToOff == 1 {
          dest := dest - offset;
        }
        Advance(o.now);
      }
    }

    /** The phase changes of `enc_onoff`, on a scan that has begun. */
    method Advance(now: real)
      modifies this`onPosition, this`onToOff, this`offToOff, this`top, this`tStart, this`scan
      ensures Abstract() == Advanced(old(Abstract()), now)
    {
      if now - tStart > time / 2.0 && onPosition != 1 {
        if onPosition == -1 {
          onPosition := 0;
          if top {
            offToOff, top := 1, false;
          } else {
            onToOff := -1;
          }
        } else if onTargetEl {
          tStart := now;
          if onToOff == 1 {
            onPosition, onToOff := -1, 0;
          } else if offToOff == 1 {
            onPosition, offToOff := -1, 0;
          } else if onToOff == -1 {
            onPosition, onToOff, scan := 1, 0, scan + 1;
          }
        }
      } else if now - tStart > time {
        if onPosition == 1 {
          onToOff, onPosition, top := 1, 0, true;
        }
      }
    }
  }

  // ---------------------------------------------------------------- the six phases

  datatype Phase = On | ToTop | OffTop | ToBottom | OffBottom | ToOn

  /** The phase a lap is in after `k` phase changes. */
  function Cycle(k: int): Phase {
    match k % 6
    case 0 => On
    case 1 => ToTop
    case 2 => OffTop
    case 3 => ToBottom
    case 4 => OffBottom
    case _ => ToOn
  }

  predicate InPhase(s: State, p: Phase) {
    s.scan > 0 &&
    match p
    case On => s.onPosition == 1 && s.onToOff == 0 && s.offToOff == 0 && !s.top
    case ToTop => s.onPosition == 0 && s.onToOff == 1 && s.offToOff == 0 && s.top
    case OffTop => s.onPosition == -1 && s.onToOff == 0 && s.offToOff == 0 && s.top
    case ToBottom => s.onPosition == 0 && s.onToOff == 0 && s.offToOff == 1 && !s.top
    case OffBottom => s.onPosition == -1 && s.onToOff == 0 && s.offToOff == 0 && !s.top
    case ToOn => s.onPosition == 0 && s.onToOff == -1 && s.offToOff == 0 && !s.top
  }

  function OffsetIn(p: Phase, offset: real): real {
    match p
    case On => 0.0
    case ToTop => offset
    case OffTop => offset
    case ToBottom => -offset
    case OffBottom => -offset
    case ToOn => 0.0
  }

  /** How long a phase that waits for the clock must have lasted when it is left. */
  function Dwell(p: Phase, time: real): real {
    if p == On then time else time / 2.0
  }

  predicate Dwells(p: Phase) {
    p == On || p == OffTop || p == OffBottom
  }

  /** In phase `Cycle(k)`, entered at `entered` when the clock last read `clock`. */
  ghost predicate Underway(s: State, k: nat, entered: real, clock: real) {
    && InPhase(s, Cycle(k))
    && s.time > 0.0
    && s.scan == 1 + k / 6
    && entered <= clock
    && (Dwells(Cycle(k)) ==> s.tStart == entered)
    && (!Dwells(Cycle(k)) ==> clock - s.tStart > s.time / 2.0)
  }

  /** When the scan moves to the next phase: a dwell waits for the clock, a slew for the target. */
  predicate Leaves(s: State, p: Phase, o: Observation) {
    if Dwells(p) then o.now - s.tStart > Dwell(p, s.time) else Tracked(s, o).onTargetEl
  }

  function NextPhase(p: Phase): Phase {
    match p
    case On => ToTop
    case ToTop => OffTop
    case OffTop => ToBottom
    case ToBottom => OffBottom
    case OffBottom => ToOn
    case ToOn => On
  }

  /** The scan and clock fields after a tick that leaves phase `p`, or stays in it. */
  predicate Entered(s: State, t: State, p: Phase, now: real) {
    && InPhase(t, NextPhase(p)) && t.scan == s.scan + (if p == ToOn then 1 else 0)
    && t.tStart == if Dwells(NextPhase(p)) then now else s.tStart
  }

  predicate Stayed(s: State, t: State, p: Phase) {
    InPhase(t, p) && t.scan == s.scan && t.tStart == s.tStart
  }

  lemma PhaseTick(s: State, p: Phase, o: Observation)
    requires InPhase(s, p) && s.time > 0.0 && (!Dwells(p) ==> o.now - s.tStart > s.time / 2.0)
    ensures var t := Tick(s, o);
            && t.dest == TrackedEl(o) + OffsetIn(p, s.offset) && t.offset == s.offset && t.time == s.time
            && if Leaves(s, p, o) then Entered(s, t, p, o.now) else Stayed(s, t, p)
  {
    hide Abs, TrackedEl;
    match p
    case On =>
    case ToTop =>
    case OffTop =>
    case ToBottom =>
    case OffBottom =>
    case ToOn =>
  }

  lemma NextInCycle(k: nat)
    ensures NextPhase(Cycle(k)) == Cycle(k + 1)
    ensures (k + 1) / 6 == k / 6 + if Cycle(k) == ToOn then 1 else 0
  {
    assert (k + 1) % 6 == (if k % 6 == 5 then 0 else k % 6 + 1);
    assert (k + 1) / 6 == (if k % 6 == 5 then k / 6 + 1 else k / 6);
  }

  /** One tick of a lap: the offset commanded is the phase's, and the scan stays in the phase or
      moves to the next, which it does exactly when `Leaves` says. */
  lemma PhaseStep(s: State, k: nat, entered: real, clock: real, o: Observation)
    requires Underway(s, k, entered, clock) && clock <= o.now
    ensures var t := Tick(s, o);
            && t.dest == TrackedEl(o) + OffsetIn(Cycle(k), s.offset)
            && t.offset == s.offset && t.time == s.time
            && if Leaves(s, Cycle(k), o) then Underway(t, k + 1, o.now, o.now) else Underway(t, k, entered, o.now)
  {
    hide Tick, InPhase, Cycle, OffsetIn, TrackedEl, Tracked;
    PhaseTick(s, Cycle(k), o);
    NextInCycle(k);
  }

  // ---------------------------------------------------------------- whole runs

  /** One completed phase and the clock readings at which it was entered and left. */
  datatype Visit = Visit(phase: Phase, from: real, to: real)

  datatype Run = Run(s: State, visits: seq<Visit>, entered: Option<real>)

  /** What a log of completed phases adds to the state: `None` before the first target acquisition. */
  function After(s: State, obs: seq<Observation>): Run {
    if obs == [] then Run(s, [], None) else Observed(After(s, obs[..|obs| - 1]), obs[|obs| - 1])
  }

  function Observed(r: Run, o: Observation): Run {
    var t := Tick(r.s, o);
    if r.entered.None? then Run(t, [], if t.scan > 0 then Some(o.now) else None)
    else if Leaves(r.s, Cycle(|r.visits|), o) then
      Run(t, r.visits + [Visit(Cycle(|r.visits|), r.entered.value, o.now)], Some(o.now))
    else Run(t, r.visits, r.entered)
  }

  ghost predicate ClockRuns(obs: seq<Observation>) {
    forall i, j :: 0 <= i < j < |obs| ==> obs[i].now <= obs[j].now
  }

  /** A completed phase lasted as long as it had to. */
  predicate LongEnough(v: Visit, time: real) {
    v.from <= v.to && (Dwells(v.phase) ==> v.to - v.from > Dwell(v.phase, time))
  }

  /** The phases completed are those of the cycle, none left too early, each entered when the one before
      was left, the last of them when the present one was entered. */
  predicate Cyclic(visits: seq<Visit>, entered: Option<real>, time: real) {
    && (forall k :: 0 <= k < |visits| ==> visits[k].phase == Cycle(k) && LongEnough(visits[k], time))
    && (forall k :: 0 < k < |visits| ==> visits[k].from == visits[k - 1].to)
    && (visits != [] ==> entered == Some(visits[|visits| - 1].to))
  }

  lemma OneMoreVisit(visits: seq<Visit>, entered: real, now: real, time: real)
    requires Cyclic(visits, Some(entered), time) && LongEnough(Visit(Cycle(|visits|), entered, now), time)
    ensures Cyclic(visits + [Visit(Cycle(|visits|), entered, now)], Some(now), time)
  {
    hide LongEnough, Cycle;
  }

  /** The log before the first acquisition, or of a lap under way when the clock last read `clock`. */
  ghost predicate Orderly(s: State, r: Run, clock: real) {
    && r.s.time == s.time && r.s.offset == s.offset && Cyclic(r.visits, r.entered, s.time)
    && match r.entered
       case None => r.s.scan == 0 && r.visits == []
       case Some(e) => Underway(r.s, |r.visits|, e, clock)
  }

  lemma ObservedIsOrderly(s: State, r: Run, clock: real, o: Observation)
    requires Orderly(s, r, clock) && s.time > 0.0 && (r.entered.Some? ==> clock <= o.now)
    ensures Orderly(s, Observed(r, o), o.now)
  {
    hide Tick, Underway, Leaves, Cycle, Cyclic, LongEnough;
    match r.entered
    case None =>
      FirstAcquisition(r.s, o);
      NoVisits(o.now, s.time);
    case Some(e) =>
      PhaseStep(r.s, |r.visits|, e, clock, o);
      if Leaves(r.s, Cycle(|r.visits|), o) {
        LeavingIsLongEnough(r.s, |r.visits|, e, clock, o);
        OneMoreVisit(r.visits, e, o.now, s.time);
      }
  }

  lemma NoVisits(now: real, time: real)
    ensures Cyclic([], None, time) && Cyclic([], Some(now), time)
  {}

  /** From scan 0, over every run: nothing moves until the target is first acquired; from then on
      the phases completed are On, ToTop, OffTop, ToBottom, OffBottom, ToOn, over and over, each
      entered when the one before was left and none left too early; the flags are those of the
      phase the count of completed ones gives, and so is the scan number. */
  lemma {:induction false} EveryRunCycles(s: State, obs: seq<Observation>)
    requires s.scan == 0 && s.time > 0.0 && ClockRuns(obs)
    ensures Orderly(s, After(s, obs), if obs == [] then 0.0 else obs[|obs| - 1].now)
    ensures After(s, obs).entered.Some? ==> obs != []
  {
    hide Observed;
    if obs == [] {
      NoVisits(0.0, s.time);
    } else {
      var n := |obs| - 1;
      EveryRunCycles(s, obs[..n]);
      ObservedIsOrderly(s, After(s, obs[..n]), if n == 0 then 0.0 else obs[n - 1].now, obs[n]);
    }
  }

  lemma FirstAcquisition(s: State, o: Observation)
    requires s.scan == 0 && s.time > 0.0
    ensures var t := Tick(s, o);
            && t.time == s.time && t.offset == s.offset && t.dest == TrackedEl(o)
            && (t.scan > 0 <==> Tracked(s, o).onTargetEl)
            && (if t.scan > 0 then Underway(t, 0, o.now, o.now) else t.scan == 0 && t.onPosition == 0)
  {}

  lemma LeavingIsLongEnough(s: State, k: nat, entered: real, clock: real, o: Observation)
    requires Underway(s, k, entered, clock) && clock <= o.now && Leaves(s, Cycle(k), o)
    ensures LongEnough(Visit(Cycle(k), entered, o.now), s.time)
  {}

  /** What the target asks for: its elevation, held at 53 degrees above, and at 0 below -0.7. */
  predicate AsksFor(lat: real, el: real) {
    (-0.7 <= lat <= 53.0 ==> el == lat) && (lat > 53.0 ==> el == 53.0) && (lat < -0.7 ==> el == 0.0)
  }

  /** From scan 0 every tick commands the elevation the target asks for: plus the offset from the time the scan
      leaves the target for the upper off position until it leaves that, minus the offset from then until it
      leaves the lower one, and nothing added otherwise. */
  lemma EveryCommandFollowsTheTarget(s: State, obs: seq<Observation>)
    requires s.scan == 0 && s.time > 0.0 && ClockRuns(obs) && obs != []
    ensures var n := |obs| - 1;
            var before, t := After(s, obs[..n]), After(s, obs).s;
            var c := |before.visits| % 6;
            && t.axesKind == Pos
            && AsksFor(obs[n].lat, t.dest - (if c == 1 || c == 2 then s.offset
                                             else if c == 3 || c == 4 then -s.offset else 0.0))
  {
    hide Tick, Observed, Orderly, OffsetIn, Cycle, TrackedEl, AsksFor;
    var n := |obs| - 1;
    var r := After(s, obs[..n]);
    EveryRunCycles(s, obs[..n]);
    CommandAfter(s, r, if n == 0 then 0.0 else obs[n - 1].now, obs[n]);
    TrackedIsAsked(obs[n]);
    OffsetAt(|r.visits|, s.offset);
  }

  lemma CommandAfter(s: State, r: Run, clock: real, o: Observation)
    requires Orderly(s, r, clock) && s.time > 0.0 && (r.entered.Some? ==> clock <= o.now)
    ensures Observed(r, o).s.axesKind == Pos
    ensures Observed(r, o).s.dest == TrackedEl(o) + OffsetIn(Cycle(|r.visits|), s.offset)
  {
    hide Tick, Underway, Leaves, Cycle, Cyclic, OffsetIn;
    TickPositions(r.s, o);
    OffsetAt(|r.visits|, s.offset);
    match r.entered
    case None => FirstAcquisition(r.s, o);
    case Some(e) => PhaseStep(r.s, |r.visits|, e, clock, o);
  }

  lemma OffsetAt(k: nat, offset: real)
    ensures var c := k % 6;
            OffsetIn(Cycle(k), offset)
            == (if c == 1 || c == 2 then offset else if c == 3 || c == 4 then -offset else 0.0)
  {}

  lemma TrackedIsAsked(o: Observation)
    ensures AsksFor(o.lat, TrackedEl(o))
  {}

  lemma TickPositions(s: State, o: Observation)
    ensures Tick(s, o).axesKind == Pos
  {}

  /** The target flags: within a tenth of a degree of what is commanded, on the axes that are being driven; the
      azimuth commanded is the target's while its elevation is in range. */
  lemma TargetFlagsAre(s: State, o: Observation)
    ensures var t := Tracked(s, o);
            && t.destAz == (if -0.7 <= o.lat <= 53.0 then o.lon else s.destAz)
            && (ElevationTracked(o) ==> (t.onTargetEl <==> -0.1 < o.position - TrackedEl(o) < 0.1))
            && (o.lazisusan ==> (t.onTargetAz <==> -0.1 < t.destAz - o.azimuth < 0.1))
            && (!ElevationTracked(o) ==> t.onTargetEl == s.onTargetEl)
            && (!o.lazisusan ==> t.onTargetAz == s.onTargetAz)
            && (t.onTarget <==> (ElevationTracked(o) ==> t.onTargetEl) && (o.lazisusan ==> t.onTargetAz))
  {}

  // ---------------------------------------------------------------- where an off dwell starts

  /** The elevation flag is refreshed on this tick. */
  predicate ElevationTracked(o: Observation) {
    o.motor || !o.lazisusan
  }

  lemma LeavingOnTarget(s: State, p: Phase, o: Observation)
    requires !Dwells(p) && ElevationTracked(o)
    ensures Leaves(s, p, o) <==> Abs(o.position - TrackedEl(o)) < ON_TARGET
  {
    hide Abs, TrackedEl;
  }

  lemma OffTheSource(position: real, el: real, shift: real, offset: real)
    requires Abs(position - el) < ON_TARGET && (shift == offset || shift == -offset)
    ensures Abs(position - (el + shift)) > Abs(offset) - ON_TARGET
  {}

  /** The tick that starts an off dwell finds the telescope on the source, not on the off position
      it commands: the target flag is computed before the offset is added. */
  lemma OffDwellStartsOnTheSource(s: State, k: nat, entered: real, clock: real, o: Observation)
    requires Underway(s, k, entered, clock) && clock <= o.now && ElevationTracked(o)
    requires (Cycle(k) == ToTop || Cycle(k) == ToBottom) && Leaves(s, Cycle(k), o)
    ensures InPhase(Tick(s, o), if Cycle(k) == ToTop then OffTop else OffBottom)
    ensures Abs(o.position - TrackedEl(o)) < ON_TARGET
    ensures Abs(o.position - Tick(s, o).dest) > Abs(s.offset) - ON_TARGET
  {
    hide Tick, InPhase, Cycle, Leaves, Abs, TrackedEl, ElevationTracked;
    PhaseStep(s, k, entered, clock, o);
    NextInCycle(k);
    LeavingOnTarget(s, Cycle(k), o);
    OffTheSource(o.position, TrackedEl(o), OffsetIn(Cycle(k), s.offset), s.offset);
  }

  /** The tick starts the next phase with the telescope on the position it commands. */
  predicate StartsOnPosition(s: State, k: nat, o: Observation) {
    Leaves(s, Cycle(k), o) && Abs(o.position - Tick(s, o).dest) < ON_TARGET
  }

  /** So an off dwell can start within the target tolerance of its own position exactly when the
      offset is less than twice that tolerance. */
  lemma OffDwellOnPositionIff(s: State, k: nat, entered: real, clock: real, o: Observation)
    requires Underway(s, k, entered, clock) && clock <= o.now && ElevationTracked(o)
    requires Cycle(k) == ToTop || Cycle(k) == ToBottom
    ensures (exists p: real :: StartsOnPosition(s, k, o.(position := p)))
            <==> Abs(s.offset) < 2.0 * ON_TARGET
  {
    hide Tick, Underway;
    var shift := OffsetIn(Cycle(k), s.offset);
    forall p: real
      ensures Tick(s, o.(position := p)).dest == TrackedEl(o) + shift
      ensures Leaves(s, Cycle(k), o.(position := p)) <==> Abs(p - TrackedEl(o)) < ON_TARGET
    {
      PhaseStep(s, k, entered, clock, o.(position := p));
    }
    if Abs(s.offset) < 2.0 * ON_TARGET {
      var p := TrackedEl(o) + shift / 2.0;
      assert StartsOnPosition(s, k, o.(position := p));
    }
  }
}
