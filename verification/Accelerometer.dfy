/** The receive loop of Oph/src/accelerometer.c: lines cut from a byte stream that arrives in pieces,
    and readings filed per sensor in files of limited duration. */
module Accelerometer {
  import opened Common

  const NUL := '\0'
  const NEWLINE := '\n'
  const SENSORS := 3
  const INCOMPLETE_SIZE := 256

  // ---------------------------------------------------------------- lines

  /** The C string in a buffer: what comes before the first NUL. */
  function CString(s: string): (t: string)
    ensures NUL !in t && t <= s && (|t| < |s| ==> s[|t|] == NUL)
  {
    if s == [] || s[0] == NUL then [] else [s[0]] + CString(s[1..])
  }

  /** Index of the first newline of `s`, -1 if there is none. */
  function FirstNewline(s: string): (k: int)
    ensures -1 <= k < |s|
    ensures k == -1 <==> NEWLINE !in s
    ensures k >= 0 ==> s[k] == NEWLINE && NEWLINE !in s[..k]
  {
    if s == [] then -1
    else if s[0] == NEWLINE then 0
    else
      var k := FirstNewline(s[1..]);
      assert k >= 0 ==> s[..k + 1] == [s[0]] + s[1..][..k];
      if k < 0 then -1 else k + 1
  }

  /** The complete lines of a text, without their newlines, and what follows the last. */
  datatype Text = Text(lines: seq<string>, tail: string)

  function Split(s: string): Text
    decreases |s|
  {
    var k := FirstNewline(s);
    if k < 0 then Text([], s)
    else
      var rest := Split(s[k + 1..]);
      Text([s[..k]] + rest.lines, rest.tail)
  }

  /** A pending fragment is completed by the first line received. */
  predicate Completes(pending: string, c: string) {
    pending != [] && FirstNewline(c) >= 0
  }

  /** The line it makes. */
  function CompletedLine(pending: string, c: string): seq<string> {
    if Completes(pending, c) then [pending + c[..FirstNewline(c)]] else []
  }

  /** Where the lines that follow begin. */
  function Resume(pending: string, c: string): (k: nat)
    ensures k <= |c|
  {
    if Completes(pending, c) then FirstNewline(c) + 1 else 0
  }

  /** What one `recv` makes of the pending fragment and the bytes received: the lines it parses and
      the fragment left pending. */
  function Received(pending: string, bytes: string): Text {
    var c := CString(bytes);
    var t := Split(c[Resume(pending, c)..]);
    Text(CompletedLine(pending, c) + t.lines,
         if t.tail != [] then t.tail else if Completes(pending, c) then [] else pending)
  }

  /** The pending fragment, the line it becomes with its newline, and the fragment left all fit their
      buffer with its NUL. */
  predicate FitsBuffer(pending: string, bytes: string) {
    var c := CString(bytes);
    && |pending| < INCOMPLETE_SIZE
    && (Completes(pending, c) ==> |pending| + FirstNewline(c) + 1 < INCOMPLETE_SIZE)
    && |Received(pending, bytes).tail| < INCOMPLETE_SIZE
  }

  /** The lines parsed and the fragment left by a sequence of `recv` calls; `None` when one of them
      writes past the fragment's buffer. */
  function AfterChunks(chunks: seq<string>): Option<Text> {
    if chunks == [] then Some(Text([], []))
    else
      var n := |chunks| - 1;
      match AfterChunks(chunks[..n])
      case None => None
      case Some(t) =>
        if !FitsBuffer(t.tail, chunks[n]) then None
        else
          var now := Received(t.tail, chunks[n]);
          Some(Text(t.lines + now.lines, now.tail))
  }

  // ---------------------------------------------------------------- files

  datatype Record = Record(t: real, x: real, y: real, z: real)
  datatype Reading = Reading(id: int, record: Record)
  datatype File = File(number: int, start: real, records: seq<Record>)

  /** What the arrays hold for one sensor, and the files written for it; the last is the current one. */
  datatype Sensor = Sensor(isOpen: bool, chunkNumber: int, chunkStart: real, samples: int, files: seq<File>)

  const FRESH := Sensor(false, 1, 0.0, 0, [])

  function Opened(s: Sensor, t: real): Sensor {
    s.(isOpen := true, chunkStart := t, files := s.files + [File(s.chunkNumber, t, [])])
  }

  /** The record written to the current file, the last. */
  function Appended(files: seq<File>, r: Record): seq<File> {
    var n := |files| - 1;
    if n < 0 then [] else files[n := files[n].(records := files[n].records + [r])]
  }

  /** One accepted record: open a file if none is, write, count, and rotate when the file is old enough. */
  function Logged(s: Sensor, r: Record, duration: real): Sensor {
    var a := if s.isOpen then s else Opened(s, r.t);
    var b := a.(samples := a.samples + 1, files := Appended(a.files, r));
    if r.t - b.chunkStart >= duration then Opened(b.(chunkNumber := b.chunkNumber + 1), r.t) else b
  }

  /** The record a line holds for sensor `k`, if it parses and names that sensor. */
  function RecordFor(line: string, k: int, num: int, parse: string -> Option<Reading>): Option<Record> {
    match parse(line)
    case None => None
    case Some(r) => if r.id - 1 == k && 0 <= k < num then Some(r.record) else None
  }

  /** Sensor `k` after a sequence of lines. */
  function Filed(s: Sensor, lines: seq<string>, k: int, num: int, duration: real, parse: string -> Option<Reading>)
    : Sensor
  {
    if lines == [] then s
    else
      var n := |lines| - 1;
      var before := Filed(s, lines[..n], k, num, duration, parse);
      match RecordFor(lines[n], k, num, parse)
      case None => before
      case Some(r) => Logged(before, r, duration)
  }

  /** The sensor after whole `recv` calls. */
  function SensorAfter(chunks: seq<string>, k: int, num: int, duration: real, parse: string -> Option<Reading>): Sensor
    requires AfterChunks(chunks).Some?
  {
    Filed(FRESH, AfterChunks(chunks).value.lines, k, num, duration, parse)
  }

  // ---------------------------------------------------------------- the C loop

  /** The local variables of `accelerometer_run`. The disk is the sequence of files per sensor. */
  class Receiver {
    const parse: string -> Option<Reading>
    const num: int
    const duration: real
    var incompleteLine: string
    const isOpen: array<bool>
    const chunkNumbers: array<int>
    const chunkStartTimes: array<real>
    const samplesReceived: array<int>
    const disk: array<seq<File>>

    ghost predicate Valid()
      reads isOpen, chunkNumbers, chunkStartTimes, samplesReceived, disk
    {
      && 0 <= num <= SENSORS
      && isOpen.Length == chunkNumbers.Length == chunkStartTimes.Length == SENSORS
      && samplesReceived.Length == disk.Length == SENSORS
      && chunkNumbers != samplesReceived
      && (forall k :: 0 <= k < SENSORS && isOpen[k] ==> disk[k] != [])
    }

    ghost function At(k: int): Sensor
      requires 0 <= k < SENSORS && Valid()
      reads isOpen, chunkNumbers, chunkStartTimes, samplesReceived, disk
    {
      Sensor(isOpen[k], chunkNumbers[k], chunkStartTimes[k], samplesReceived[k], disk[k])
    }

    ghost function Sensors(): (s: seq<Sensor>)
      requires Valid()
      reads isOpen, chunkNumbers, chunkStartTimes, samplesReceived, disk
      ensures |s| == SENSORS && forall k :: 0 <= k < SENSORS ==> s[k] == At(k)
    {
      [At(0), At(1), At(2)]
    }

    lemma Unmade(start: seq<Sensor>)
      requires Valid() && start == Sensors()
      ensures Made(start, [])
    {}

    constructor (parse: string -> Option<Reading>, num: int, duration: real)
      requires 0 <= num <= SENSORS
      ensures Valid() && incompleteLine == [] && this.parse == parse && this.num == num && this.duration == duration
      ensures forall k :: 0 <= k < SENSORS ==> At(k) == FRESH
    {
      this.parse, this.num, this.duration, incompleteLine := parse, num, duration, [];
      isOpen, chunkNumbers := new bool[SENSORS](_ => false), new int[SENSORS](_ => 1);
      chunkStartTimes, samplesReceived := new real[SENSORS](_ => 0.0), new int[SENSORS](_ => 0);
      disk := new seq<File>[SENSORS](_ => []);
    }

    method OpenNewFile(k: int, start: real)
      requires Valid() && 0 <= k < SENSORS
      modifies isOpen, chunkStartTimes, disk
      ensures Valid() && At(k) == Opened(old(At(k)), start)
      ensures forall i :: 0 <= i < SENSORS && i != k ==> At(i) == old(At(i))
    {
      disk[k] := disk[k] + [File(chunkNumbers[k], start, [])];
      isOpen[k], chunkStartTimes[k] := true, start;
    }

    method WriteRecord(k: int, r: Record)
      requires Valid() && 0 <= k < SENSORS && isOpen[k]
      modifies disk, samplesReceived
      ensures Valid()
      ensures At(k) == old(At(k)).(samples := old(At(k)).samples + 1, files := Appended(old(At(k)).files, r))
      ensures forall i :: 0 <= i < SENSORS && i != k ==> At(i) == old(At(i))
    {
      var files := disk[k];
      var n := |files| - 1;
      disk[k] := files[n := files[n].(records := files[n].records + [r])];
      samplesReceived[k] := samplesReceived[k] + 1;
    }

    /** The treatment of one line, the same in both places the source has it. */
    method ProcessLine(line: string)
      requires Valid()
      modifies isOpen, chunkNumbers, chunkStartTimes, samplesReceived, disk
      ensures Valid()
      ensures forall k :: 0 <= k < SENSORS ==>
                At(k) == match RecordFor(line, k, num, parse)
                         case None => old(At(k))
                         case Some(r) => Logged(old(At(k)), r, duration)
    {
      match parse(line)
      case None =>
      case Some(r) =>
        var k := r.id - 1;
        if k >= 0 && k < num {
          if !isOpen[k] {
            OpenNewFile(k, r.record.t);
          }
          WriteRecord(k, r.record);
          if r.record.t - chunkStartTimes[k] >= duration {
            chunkNumbers[k] := chunkNumbers[k] + 1;
            OpenNewFile(k, r.record.t);
          }
        }
    }

    static method StrChr(s: string, from: int) returns (k: int)
      requires 0 <= from <= |s|
      ensures k == (if FirstNewline(s[from..]) < 0 then -1 else from + FirstNewline(s[from..]))
    {
      k := from;
      while k < |s| && s[k] != NEWLINE
        invariant from <= k <= |s|
        invariant FirstNewline(s[from..]) == (if FirstNewline(s[k..]) < 0 then -1 else k - from + FirstNewline(s[k..]))
      {
        assert s[k..][1..] == s[k + 1..];
        k := k + 1;
      }
      if k == |s| {
        k := -1;
      }
    }

    /** The sensors are what `done` made of them, from `start` on. */
    ghost predicate Made(start: seq<Sensor>, done: seq<string>)
      requires Valid() && |start| == SENSORS
      reads isOpen, chunkNumbers, chunkStartTimes, samplesReceived, disk
    {
      forall k :: 0 <= k < SENSORS ==> At(k) == Filed(start[k], done, k, num, duration, parse)
    }

    method ProcessNext(line: string, ghost start: seq<Sensor>, ghost done: seq<string>)
      requires Valid() && |start| == SENSORS && Made(start, done)
      modifies isOpen, chunkNumbers, chunkStartTimes, samplesReceived, disk
      ensures Valid() && Made(start, done + [line])
    {
      ProcessLine(line);
      assert (done + [line])[..|done|] == done;
    }

    /** The loop over the lines that are complete in `c`; yields where the tail begins. */
    method ProcessLines(c: string, from: int, ghost start: seq<Sensor>, ghost before: seq<string>)
      returns (lineStart: int)
      requires Valid() && |start| == SENSORS && Made(start, before) && 0 <= from <= |c|
      modifies isOpen, chunkNumbers, chunkStartTimes, samplesReceived, disk
      ensures Valid() && Made(start, before + Split(c[from..]).lines)
      ensures 0 <= lineStart <= |c| && c[lineStart..] == Split(c[from..]).tail
    {
      hide FirstNewline, Made, Split;
      lineStart := from;
      ghost var done := before;
      var lineEnd := StrChr(c, lineStart);
      while lineEnd >= 0
        invariant from <= lineStart <= |c| && Valid()
        invariant lineEnd == (if FirstNewline(c[lineStart..]) < 0 then -1 else lineStart + FirstNewline(c[lineStart..]))
        invariant done + Split(c[lineStart..]).lines == before + Split(c[from..]).lines
        invariant Split(c[lineStart..]).tail == Split(c[from..]).tail
        invariant Made(start, done)
        decreases |c| - lineStart
      {
        ProcessNext(c[lineStart..lineEnd], start, done);
        SplitStep(c, lineStart);
        assert done + ([c[lineStart..lineEnd]] + Split(c[lineEnd + 1..]).lines)
            == done + [c[lineStart..lineEnd]] + Split(c[lineEnd + 1..]).lines;
        done := done + [c[lineStart..lineEnd]];
        lineStart := lineEnd + 1;
        lineEnd := StrChr(c, lineStart);
      }
      SplitEnd(c[lineStart..]);
      assert done + [] == done;
    }

    /** Completes a pending fragment with the first line received; yields where the next line begins. */
    method FinishPending(c: string, ghost start: seq<Sensor>) returns (lineStart: int)
      requires Valid() && start == Sensors()
      modifies this`incompleteLine, isOpen, chunkNumbers, chunkStartTimes, samplesReceived, disk
      ensures Valid() && Made(start, CompletedLine(old(incompleteLine), c))
              && lineStart == Resume(old(incompleteLine), c)
      ensures incompleteLine == if Completes(old(incompleteLine), c) then [] else old(incompleteLine)
    {
      hide FirstNewline, Filed, Made;
      Unmade(start);
      lineStart := 0;
      if incompleteLine != [] {
        assert c[0..] == c;
        var newline := StrChr(c, 0);
        if newline >= 0 {
          assert [] + [incompleteLine + c[..newline]] == [incompleteLine + c[..newline]];
          ProcessNext(incompleteLine + c[..newline], start, []);
          lineStart := newline + 1;
          incompleteLine := [];
        }
      }
    }

    /** One turn of the receive loop. The pending fragment is kept in a buffer of 256 bytes. */
    method Receive(bytes: string)
      requires Valid() && FitsBuffer(incompleteLine, bytes)
      modifies this`incompleteLine, isOpen, chunkNumbers, chunkStartTimes, samplesReceived, disk
      ensures Valid()
      ensures incompleteLine == Received(old(incompleteLine), bytes).tail
      ensures Made(old(Sensors()), Received(old(incompleteLine), bytes).lines)
    {
      hide Split, Made, Completes, CompletedLine, Resume, Sensors;
      ghost var start := Sensors();
      var c := CString(bytes);
      ghost var first := CompletedLine(incompleteLine, c);
      var from := FinishPending(c, start);
      var lineStart := ProcessLines(c, from, start, first);
      if lineStart < |c| {
        incompleteLine := c[lineStart..];
      }
    }

    /** The receive loop, from its initial state, over what the `recv` calls return. */
    method Run(chunks: seq<string>)
      requires Valid() && incompleteLine == [] && AfterChunks(chunks).Some?
      requires forall k :: 0 <= k < SENSORS ==> At(k) == FRESH
      modifies this`incompleteLine, isOpen, chunkNumbers, chunkStartTimes, samplesReceived, disk
      ensures Valid() && incompleteLine == AfterChunks(chunks).value.tail
      ensures forall k :: 0 <= k < SENSORS ==> At(k) == SensorAfter(chunks, k, num, duration, parse)
    {
      hide Received, FitsBuffer, Made, Sensors;
      var i := 0;
      Unmade(Sensors());
      assert chunks[..0] == [];
      while i < |chunks|
        invariant 0 <= i <= |chunks| && Valid()
        invariant AfterChunks(chunks[..i]).Some? && incompleteLine == AfterChunks(chunks[..i]).value.tail
        invariant Made(old(Sensors()), AfterChunks(chunks[..i]).value.lines)
      {
        NextFits(chunks, i);
        ghost var done, now := AfterChunks(chunks[..i]).value.lines, Received(incompleteLine, chunks[i]).lines;
        ghost var mid := Sensors();
        MadeSoFar(old(Sensors()), done, mid);
        Receive(chunks[i]);
        MadeInSteps(old(Sensors()), done, mid, now);
        i := i + 1;
      }
      assert chunks[..i] == chunks;
      MadeOfFresh(old(Sensors()), AfterChunks(chunks).value.lines);
    }

    lemma MadeOfFresh(start: seq<Sensor>, done: seq<string>)
      requires Valid() && |start| == SENSORS && Made(start, done) && forall k :: 0 <= k < SENSORS ==> start[k] == FRESH
      ensures forall k :: 0 <= k < SENSORS ==> At(k) == Filed(FRESH, done, k, num, duration, parse)
    {
      hide Filed;
    }

    /** `mid` is what `done` makes of `start`. */
    ghost predicate Filled(start: seq<Sensor>, done: seq<string>, mid: seq<Sensor>)
    {
      |start| == SENSORS && |mid| == SENSORS
      && forall k :: 0 <= k < SENSORS ==> mid[k] == Filed(start[k], done, k, num, duration, parse)
    }

    lemma MadeSoFar(start: seq<Sensor>, done: seq<string>, mid: seq<Sensor>)
      requires Valid() && |start| == SENSORS && Made(start, done) && mid == Sensors()
      ensures Filled(start, done, mid)
    {
      hide Filed;
    }

    lemma MadeInSteps(start: seq<Sensor>, done: seq<string>, mid: seq<Sensor>, now: seq<string>)
      requires Valid() && Filled(start, done, mid) && Made(mid, now)
      ensures Made(start, done + now)
    {
      forall k | 0 <= k < SENSORS
        ensures At(k) == Filed(start[k], done + now, k, num, duration, parse)
      {
        FiledInSteps(start[k], done, now, k, num, duration, parse);
      }
    }
  }

  /** A run that fits its buffer does so at every turn. */
  lemma {:induction false} NextFits(chunks: seq<string>, i: nat)
    requires AfterChunks(chunks).Some? && i < |chunks|
    ensures AfterChunks(chunks[..i]).Some? && FitsBuffer(AfterChunks(chunks[..i]).value.tail, chunks[i])
    ensures AfterChunks(chunks[..i + 1]) == Some(Text(AfterChunks(chunks[..i]).value.lines
              + Received(AfterChunks(chunks[..i]).value.tail, chunks[i]).lines,
              Received(AfterChunks(chunks[..i]).value.tail, chunks[i]).tail))
    decreases |chunks|
  {
    hide Received, FitsBuffer;
    var n := |chunks| - 1;
    if i < n {
      NextFits(chunks[..n], i);
      assert chunks[..n][..i] == chunks[..i] && chunks[..n][..i + 1] == chunks[..i + 1];
    } else {
      assert chunks[..i + 1] == chunks;
    }
  }

  /** Lines can be filed in two steps. */
  lemma {:induction false} FiledInSteps(s: Sensor, a: seq<string>, b: seq<string>, k: int, num: int, duration: real,
                                        parse: string -> Option<Reading>)
    ensures Filed(s, a + b, k, num, duration, parse)
            == Filed(Filed(s, a, k, num, duration, parse), b, k, num, duration, parse)
  {
    if b == [] {
      assert a + b == a;
    } else {
      var n := |b| - 1;
      FiledInSteps(s, a, b[..n], k, num, duration, parse);
      assert (a + b)[..|a + b| - 1] == a + b[..n];
    }
  }

  lemma SplitAtNewline(s: string)
    requires FirstNewline(s) >= 0
    ensures var k := FirstNewline(s); Split(s) == Text([s[..k]] + Split(s[k + 1..]).lines, Split(s[k + 1..]).tail)
  {
    hide FirstNewline;
  }

  lemma SplitStep(c: string, from: int)
    requires 0 <= from <= |c| && FirstNewline(c[from..]) >= 0
    ensures var k := from + FirstNewline(c[from..]);
            Split(c[from..]) == Text([c[from..k]] + Split(c[k + 1..]).lines, Split(c[k + 1..]).tail)
  {
    hide FirstNewline, Split;
    SplitAtNewline(c[from..]);
    SliceOfSuffix(c, from, FirstNewline(c[from..]));
  }

  lemma SliceOfSuffix(c: string, from: int, k: int)
    requires 0 <= from && 0 <= k && from + k < |c|
    ensures c[from..][..k] == c[from..from + k] && c[from..][k + 1..] == c[from + k + 1..]
  {}

  lemma SplitEnd(s: string)
    requires FirstNewline(s) < 0
    ensures Split(s) == Text([], s)
  {}
}
