/** The elevation dither of Oph/src/motor_control.c, `do_enc_dither`, in closed loop with a drive
    that moves the way it is told. */
module Dither {
  import opened Common
  datatype ScanKind = NoScan | EncDither

  /** The fields of `scan_mode` and `axes_mode` that a dither reads or writes. */
  datatype State = State(
    scanKind: ScanKind, firstTime: bool, startEl: real, stopEl: real, vel: real, startToStop: int,
    scan: int, nscans: int, turnaround: bool, scanning: bool,
    axesKind: AxesKind, dest: real, axesVel: real)

  function Velocity(speed: real, direction: int): real {
    speed * direction as real
  }

  /** Before the first sweep: go to the start, then set off toward the stop. */
  function Approach(s: State, pos: real, posTol: real): State {
    if s.startEl > s.stopEl then
      if pos > s.startEl + posTol || pos < s.startEl then s.(axesKind := Pos, dest := s.startEl) else SetOff(s, -1)
    else
      if pos < s.startEl - posTol || pos > s.startEl then s.(axesKind := Pos, dest := s.startEl) else SetOff(s, 1)
  }

  function SetOff(s: State, direction: int): State {
    s.(firstTime := false, axesKind := Vel, scan := 0, startToStop := direction, turnaround := true,
       axesVel := Velocity(s.vel, direction))
  }

  function TurnedAround(s: State, pos: real, posTol: real): State {
    var lo := if s.startEl > s.stopEl then s.stopEl else s.startEl;
    var hi := if s.startEl > s.stopEl then s.startEl else s.stopEl;
    if pos > hi + posTol || pos < lo - posTol then
      if s.turnaround then s else s.(startToStop := -s.startToStop, turnaround := true, scan := s.scan + 1)
    else if lo < pos < hi then s.(turnaround := false)
    else s
  }

  function Commanded(s: State): State {
    if s.scan < s.nscans then s.(axesVel := Velocity(s.vel, s.startToStop))
    else s.(axesVel := 0.0, scanning := false, scan := 0, scanKind := NoScan, firstTime := true)
  }

  /** One call of `do_enc_dither` at position `pos`. */
  function Tick(s: State, pos: real, posTol: real): State {
    if s.firstTime then Approach(s, pos, posTol) else Commanded(TurnedAround(s, pos, posTol))
  }

  /** The globals `scan_mode` and `axes_mode`. */
  class Scanner {
    var scanKind: ScanKind
    var firstTime: bool
    var startEl: real
    var stopEl: real
    var vel: real
    var startToStop: int
    var scan: int
    var nscans: int
    var turnaround: bool
    var scanning: bool
    var axesKind: AxesKind
    var dest: real
    var axesVel: real

    ghost function Abstract(): State
      reads this
    {
      State(scanKind, firstTime, startEl, stopEl, vel, startToStop, scan, nscans, turnaround, scanning,
            axesKind, dest, axesVel)
    }

    method GoToEnc(angle: real)
      modifies this`axesKind, this`dest
      ensures axesKind == Pos && dest == angle
    {
      axesKind, dest := Pos, angle;
    }

    /** The branch on `first_time`: drive to the start, and there set off. */
    method ApproachStart(pos: real, posTol: real)
      modifies this
      ensures Abstract() == Approach(old(Abstract()), pos, posTol)
    {
      hide Velocity;
      if startEl > stopEl {
        if pos > startEl + posTol || pos < startEl {
          GoToEnc(startEl);
        } else {
          firstTime, axesKind, scan, startToStop, turnaround := false, Vel, 0, -1, true;
          axesVel := Velocity(vel, startToStop);
        }
      } else {
        if pos < startEl - posTol || pos > startEl {
          GoToEnc(startEl);
        } else {
          firstTime, axesKind, scan, startToStop, turnaround := false, Vel, 0, 1, true;
          axesVel := Velocity(vel, startToStop);
        }
      }
    }

    /** The branch of the sweeps: reverse once past an end, and arm again between the ends. */
    method TurnAround(pos: real, posTol: real)
      modifies this
      ensures Abstract() == TurnedAround(old(Abstract()), pos, posTol)
    {
      if startEl > stopEl {
        if pos > startEl + posTol || pos < stopEl - posTol {
          if !turnaround {
            startToStop, turnaround, scan := -1 * startToStop, true, scan + 1;
          }
        } else if pos < startEl && pos > stopEl {
          turnaround := false;
        }
      } else {
        if pos < startEl - posTol || pos > stopEl + posTol {
          if !turnaround {
            startToStop, turnaround, scan := -1 * startToStop, true, scan + 1;
          }
        } else if pos > startEl && pos < stopEl {
          turnaround := false;
        }
      }
    }

    method DoEncDither(pos: real, posTol: real)
      modifies this
      ensures Abstract() == Tick(old(Abstract()), pos, posTol)
    {
      hide Velocity, Approach, TurnedAround;
      if firstTime {
        ApproachStart(pos, posTol);
      } else {
        TurnAround(pos, posTol);
        if scan < nscans {
          axesVel := Velocity(vel, startToStop);
        } else {
          axesVel, scanning, scan, scanKind, firstTime := 0.0, false, 0, NoScan, true;
        }
      }
    }
  }

  // ---------------------------------------------------------------- the closed loop

  /** The position after a move of the given length the way `velocity` points. */
  function Moved(pos: real, velocity: real, move: real): real {
    if velocity > 0.0 then pos + move else if velocity < 0.0 then pos - move else pos
  }

  /** A run: where it ends, the positions passed, and the positions of its reversals. */
  datatype Run = Run(s: State, pos: real, visited: seq<real>, reversals: seq<real>)

  /** `command_motor` ticks while the scan is on; between ticks the drive moves by each of `moves` in
      turn, the way `axes_mode.vel` points. */
  function Loop(s: State, pos: real, posTol: real, moves: seq<real>): Run
    decreases |moves|
  {
    if moves == [] || !s.scanning then Run(s, pos, [], [])
    else
      var pos' := Moved(pos, s.axesVel, moves[0]);
      var s' := Tick(s, pos', posTol);
      var r := Loop(s', pos', posTol, moves[1..]);
      r.(visited := [pos'] + r.visited,
         reversals := (if s'.startToStop != s.startToStop then [pos'] else []) + r.reversals)
  }

  /** The drive and the tolerance: each move is at least `dMin` and shorter than the scan. */
  datatype Drive = Drive(posTol: real, dMin: real, dMax: real)

  ghost predicate Fits(d: Drive, s: State) {
    && d.posTol >= 0.0
    && 0.0 < d.dMin <= d.dMax < Length(s)
  }

  ghost predicate MovesWithin(d: Drive, moves: seq<real>) {
    forall k :: 0 <= k < |moves| ==> d.dMin <= moves[k] <= d.dMax
  }

  /** Distance from the start, positive toward the stop. */
  function Along(s: State, pos: real): real {
    if s.startEl > s.stopEl then s.startEl - pos else pos - s.startEl
  }

  function Length(s: State): real {
    Along(s, s.stopEl)
  }

  function Toward(s: State): int {
    if s.startEl > s.stopEl then -1 else 1
  }

  predicate SameScan(s: State, t: State) {
    t.startEl == s.startEl && t.stopEl == s.stopEl && t.vel == s.vel && t.nscans == s.nscans
  }

  predicate Outward(s: State) {
    s.startToStop == Toward(s)
  }

  /** A sweep is under way and the position is where that sweep can have reached. */
  ghost predicate Sweeping(d: Drive, s: State, pos: real) {
    var x, len := Along(s, pos), Length(s);
    && s.scanning && !s.firstTime && s.axesKind == Vel && s.vel > 0.0
    && 0 <= s.scan < s.nscans
    && (s.startToStop == 1 || s.startToStop == -1)
    && s.axesVel == Velocity(s.vel, s.startToStop)
    && (Outward(s) <==> s.scan % 2 == 0)
    && (Outward(s) ==> -d.posTol - d.dMax <= x <= len + d.posTol && (s.turnaround <==> x <= 0.0))
    && (!Outward(s) ==> -d.posTol <= x <= len + d.posTol + d.dMax && (s.turnaround <==> x >= len))
  }

  /** The scan has ended as `do_enc_dither` leaves it. */
  ghost predicate Ended(s: State) {
    !s.scanning && s.axesVel == 0.0 && s.scan == 0 && s.scanKind == NoScan && s.firstTime
  }

  /** Distance left in this sweep before the next reversal. */
  function ToGo(d: Drive, s: State, pos: real): real {
    if Outward(s) then Length(s) + d.posTol - Along(s, pos) else Along(s, pos) + d.posTol
  }

  /** The longest a sweep can be. */
  function SweepLength(d: Drive, s: State): real {
    Length(s) + 2.0 * d.posTol + d.dMax
  }

  /** Bound on the distance still to be driven until the scan ends. */
  function Remaining(d: Drive, s: State, pos: real): real {
    Driven(s.nscans - s.scan - 1, SweepLength(d, s) + d.dMin) + ToGo(d, s, pos)
  }

  lemma SettingOff(d: Drive, s: State, pos: real)
    requires Fits(d, s) && s.firstTime && s.scanning && s.vel > 0.0 && s.nscans >= 1
    ensures var t := Tick(s, pos, d.posTol);
            if -d.posTol <= Along(s, pos) <= 0.0
            then Sweeping(d, t, pos) && t.scan == 0 && Outward(t) && SameScan(s, t)
            else t == s.(axesKind := Pos, dest := s.startEl)
  {}

  lemma MoveDirection(s: State, pos: real, move: real)
    requires s.vel > 0.0 && (s.startToStop == 1 || s.startToStop == -1)
    requires s.axesVel == Velocity(s.vel, s.startToStop)
    ensures Along(s, Moved(pos, s.axesVel, move)) == if Outward(s) then Along(s, pos) + move else Along(s, pos) - move
  {}

  lemma CommandedAs(u: State)
    ensures u.scan < u.nscans ==> Commanded(u) == u.(axesVel := Velocity(u.vel, u.startToStop))
    ensures u.scan >= u.nscans ==>
            Ended(Commanded(u)) && SameScan(u, Commanded(u)) && Commanded(u).startToStop == u.startToStop
  {}

  lemma Turning(d: Drive, s: State, pos: real, move: real)
    requires Fits(d, s) && Sweeping(d, s, pos) && d.dMin <= move <= d.dMax
    requires var pos' := Moved(pos, s.axesVel, move);
             Along(s, pos') == if Outward(s) then Along(s, pos) + move else Along(s, pos) - move
    ensures var pos' := Moved(pos, s.axesVel, move);
            var x := Along(s, pos');
            TurnedAround(s, pos', d.posTol) ==
              if (Outward(s) && x > Length(s) + d.posTol) || (!Outward(s) && x < -d.posTol)
              then s.(startToStop := -s.startToStop, turnaround := true, scan := s.scan + 1)
              else s.(turnaround := if Outward(s) then x <= 0.0 else x >= Length(s))
  {}

  /** What one move and one tick of a sweep can do: go on, turn around, or end the scan. */
  ghost predicate SweepGoesOn(d: Drive, s: State, pos: real, t: State, pos': real) {
    && SameScan(s, t)
    && -d.posTol - d.dMax <= Along(s, pos') <= Length(s) + d.posTol + d.dMax
    && (if t.startToStop == s.startToStop then
          Sweeping(d, t, pos') && t.scan == s.scan && ToGo(d, t, pos') <= ToGo(d, s, pos) - d.dMin
        else
          && (if s.scan % 2 == 0 then Along(s, pos') > Length(s) + d.posTol else Along(s, pos') < -d.posTol)
          && if s.scan + 1 < s.nscans
             then Sweeping(d, t, pos') && t.scan == s.scan + 1 && ToGo(d, t, pos') <= SweepLength(d, s)
             else Ended(t))
  }

  lemma SweepStep(d: Drive, s: State, pos: real, move: real)
    requires Fits(d, s) && Sweeping(d, s, pos) && d.dMin <= move <= d.dMax
    ensures var pos' := Moved(pos, s.axesVel, move); SweepGoesOn(d, s, pos, Tick(s, pos', d.posTol), pos')
  {
    hide Velocity, Commanded;
    var pos' := Moved(pos, s.axesVel, move);
    MoveDirection(s, pos, move);
    var u := TurnedAround(s, pos', d.posTol);
    CommandedAs(u);
    Turning(d, s, pos, move);
  }

  // ---------------------------------------------------------------- whole runs

  /** Every position passed is within the tolerance and one move of the scan interval. */
  ghost predicate NearScan(d: Drive, s: State, visited: seq<real>) {
    forall k :: 0 <= k < |visited| ==>
      -d.posTol - d.dMax <= Along(s, visited[k]) <= Length(s) + d.posTol + d.dMax
  }

  /** Reversals alternate: past the stop end when the scan count was even, past the start end when odd. */
  ghost predicate Alternate(d: Drive, s: State, reversals: seq<real>) {
    forall k :: 0 <= k < |reversals| ==>
      if (s.scan + k) % 2 == 0 then Along(s, reversals[k]) > Length(s) + d.posTol
      else Along(s, reversals[k]) < -d.posTol
  }

  /** The run has made `nscans` reversals in all and ended, or is sweeping with fewer. */
  ghost predicate Accounted(d: Drive, s: State, r: Run) {
    if r.s.scanning then Sweeping(d, r.s, r.pos) && SameScan(s, r.s) && r.s.scan == s.scan + |r.reversals|
    else Ended(r.s) && s.scan + |r.reversals| == s.nscans
  }

  function Driven(n: int, dMin: real): real {
    n as real * dMin
  }

  lemma DrivenStep(n: int, x: real)
    ensures Driven(n + 1, x) == Driven(n, x) + x
  {}

  lemma {:induction false} SweepsRun(d: Drive, s: State, pos: real, moves: seq<real>)
    requires Fits(d, s) && Sweeping(d, s, pos) && MovesWithin(d, moves)
    ensures var r := Loop(s, pos, d.posTol, moves);
            && NearScan(d, s, r.visited) && Alternate(d, s, r.reversals) && Accounted(d, s, r)
            && (r.s.scanning ==> Remaining(d, r.s, r.pos) <= Remaining(d, s, pos) - Driven(|moves|, d.dMin))
    decreases |moves|
  {
    hide Tick, Moved, Remaining, ToGo, Driven, NearScan, Alternate;
    DrivenStep(|moves| - 1, d.dMin);
    if moves == [] {
      EmptyRun(d, s);
    } else {
      var pos' := Moved(pos, s.axesVel, moves[0]);
      var t := Tick(s, pos', d.posTol);
      SweepStep(d, s, pos, moves[0]);
      if t.scanning {
        SweepsRun(d, t, pos', moves[1..]);
        RemainingDrops(d, s, pos, t, pos');
      } else {
        EmptyRun(d, t);
      }
      ShiftedRun(d, s, pos, t, pos', Loop(t, pos', d.posTol, moves[1..]));
    }
  }

  lemma EmptyRun(d: Drive, s: State)
    ensures NearScan(d, s, []) && Alternate(d, s, []) && Driven(0, d.dMin) == 0.0
  {}

  lemma RemainingDrops(d: Drive, s: State, pos: real, t: State, pos': real)
    requires Fits(d, s) && Sweeping(d, s, pos) && SweepGoesOn(d, s, pos, t, pos') && t.scanning
    ensures Remaining(d, t, pos') <= Remaining(d, s, pos) - d.dMin
  {
    assert ToGo(d, s, pos) >= 0.0;
    DrivenStep(s.nscans - s.scan - 2, SweepLength(d, s) + d.dMin);
  }

  /** Puts one step in front of a run. */
  lemma ShiftedRun(d: Drive, s: State, pos: real, t: State, pos': real, r: Run)
    requires Sweeping(d, s, pos) && SweepGoesOn(d, s, pos, t, pos')
    requires NearScan(d, t, r.visited) && Alternate(d, t, r.reversals)
    requires if t.scanning then Accounted(d, t, r) else r.reversals == [] && r.s == t
    ensures var q := r.(visited := [pos'] + r.visited,
                        reversals := (if t.startToStop != s.startToStop then [pos'] else []) + r.reversals);
            NearScan(d, s, q.visited) && Alternate(d, s, q.reversals) && Accounted(d, s, q)
  {
    hide ToGo;
    var q := r.(visited := [pos'] + r.visited,
                reversals := (if t.startToStop != s.startToStop then [pos'] else []) + r.reversals);
    forall k | 0 <= k < |q.visited|
      ensures -d.posTol - d.dMax <= Along(s, q.visited[k]) <= Length(s) + d.posTol + d.dMax
    {
      if k > 0 {
        assert q.visited[k] == r.visited[k - 1];
      }
    }
  }

  /** The dither from the tick it sets off: it stays by the scan interval, its reversals alternate
      ends, beginning with the stop end, every velocity commanded is the scan's own, up or down as the
      sweep goes, and it ends, at rest, after exactly `nscans` reversals, which a long enough run brings
      about. */
  lemma WholeDither(d: Drive, s: State, pos: real, moves: seq<real>)
    requires Fits(d, s) && s.firstTime && s.scanning && s.vel > 0.0 && s.nscans >= 1
    requires -d.posTol <= Along(s, pos) <= 0.0
    requires MovesWithin(d, moves)
    ensures var t := Tick(s, pos, d.posTol);
            var r := Loop(t, pos, d.posTol, moves);
            && SameScan(s, t) && t.scan == 0 && NearScan(d, t, r.visited) && Alternate(d, t, r.reversals)
            && (|r.reversals| == s.nscans <==> !r.s.scanning)
            && (if r.s.scanning then
                  && r.s.scan == |r.reversals| < s.nscans
                  && r.s.axesKind == Vel
                  && r.s.axesVel == (if (|r.reversals| % 2 == 0) == (s.stopEl >= s.startEl) then s.vel else -s.vel)
                else Ended(r.s))
            && (Driven(|moves|, d.dMin) > Driven(s.nscans, SweepLength(d, s) + d.dMin) ==> !r.s.scanning)
  {
    hide Tick, Loop, NearScan, Alternate, Driven;
    SettingOff(d, s, pos);
    var t := Tick(s, pos, d.posTol);
    SweepsRun(d, t, pos, moves);
    var r := Loop(t, pos, d.posTol, moves);
    var w := SweepLength(d, s) + d.dMin;
    DrivenStep(s.nscans - 1, w);
    if r.s.scanning {
      DrivenIsNonnegative(r.s.nscans - r.s.scan - 1, w);
    }
  }

  lemma DrivenIsNonnegative(n: int, x: real)
    requires n >= 0 && x >= 0.0
    ensures Driven(n, x) >= 0.0
  {}
}
