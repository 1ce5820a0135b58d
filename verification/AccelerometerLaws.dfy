/** When the framing of the accelerometer stream is independent of how it was cut into packets, and
    what the files hold. */
module AccelerometerLaws {
  import opened Common
  import opened Accelerometer

  // ---------------------------------------------------------------- splitting a concatenation

  lemma {:induction false} FirstNewlineOfSum(a: string, b: string)
    ensures FirstNewline(a) >= 0 ==> FirstNewline(a + b) == FirstNewline(a)
    ensures FirstNewline(a) < 0 && FirstNewline(b) < 0 ==> FirstNewline(a + b) < 0
    ensures FirstNewline(a) < 0 && FirstNewline(b) >= 0 ==> FirstNewline(a + b) == |a| + FirstNewline(b)
  {
    if a == [] {
      assert a + b == b;
    } else {
      assert (a + b)[1..] == a[1..] + b;
      FirstNewlineOfSum(a[1..], b);
    }
  }

  /** Text can be split piece by piece, carrying the tail over. */
  lemma {:induction false} SplitOfSum(a: string, b: string)
    ensures var t, u := Split(a), Split(Split(a).tail + b);
            Split(a + b) == Text(t.lines + u.lines, u.tail)
    decreases |a|
  {
    hide FirstNewline, Split;
    var k := FirstNewline(a);
    FirstNewlineOfSum(a, b);
    if k < 0 {
      SplitEnd(a);
      assert [] + Split(a + b).lines == Split(a + b).lines;
    } else {
      var rest := a[k + 1..];
      SplitOfSum(rest, b);
      SplitAtNewline(a);
      SplitAtNewline(a + b);
      assert (a + b)[..k] == a[..k] && (a + b)[k + 1..] == rest + b by { SliceOfSum(a, b, k); }
      Regroup([a[..k]], Split(rest).lines, Split(Split(rest).tail + b).lines);
    }
  }

  lemma SliceOfSum(a: string, b: string, k: int)
    requires 0 <= k < |a|
    ensures (a + b)[..k] == a[..k] && (a + b)[k + 1..] == a[k + 1..] + b
  {}

  lemma Regroup<T>(a: seq<T>, b: seq<T>, c: seq<T>)
    ensures a + (b + c) == a + b + c
  {}

  lemma {:induction false} TailHasNoNewline(s: string)
    ensures FirstNewline(Split(s).tail) < 0
    decreases |s|
  {
    hide FirstNewline;
    var k := FirstNewline(s);
    if k >= 0 {
      TailHasNoNewline(s[k + 1..]);
    }
  }

  /** The text the lines came from: each with its newline, and the tail. */
  function Joined(t: Text): string
    decreases |t.lines|
  {
    if t.lines == [] then t.tail else t.lines[0] + ['\n'] + Joined(Text(t.lines[1..], t.tail))
  }

  /** Splitting is the one way to write a text as lines without newlines and a tail without one. */
  lemma {:induction false} JoinedOfSplit(s: string)
    ensures Joined(Split(s)) == s
    ensures '\n' !in Split(s).tail && forall l <- Split(s).lines :: '\n' !in l
    decreases |s|
  {
    hide FirstNewline, Split;
    var k := FirstNewline(s);
    if k < 0 {
      SplitEnd(s);
    } else {
      SplitAtNewline(s);
      var rest := Split(s[k + 1..]);
      JoinedOfSplit(s[k + 1..]);
      JoinedStep(s[..k], rest);
      assert s == s[..k] + ['\n'] + s[k + 1..];
      forall l | l in [s[..k]] + rest.lines ensures '\n' !in l {
        assert l == s[..k] || l in rest.lines;
      }
    }
  }

  lemma JoinedStep(line: string, rest: Text)
    ensures Joined(Text([line] + rest.lines, rest.tail)) == line + ['\n'] + Joined(rest)
  {
    assert ([line] + rest.lines)[1..] == rest.lines;
  }

  // ---------------------------------------------------------------- the stream and its cuts

  /** The characters received, each piece up to its first NUL. */
  function Stream(chunks: seq<string>): string {
    if chunks == [] then [] else Stream(chunks[..|chunks| - 1]) + CString(chunks[|chunks| - 1])
  }

  /** The unterminated line the stream so far ends in. */
  function Fragment(s: string): string {
    Split(s).tail
  }

  predicate LineBoundary(s: string) {
    s == [] || s[|s| - 1] == '\n'
  }

  /** Every piece that is not empty has a newline or arrives at the beginning of a line. */
  predicate Aligned(chunks: seq<string>) {
    forall k :: 0 <= k < |chunks| ==> AlignedAt(Stream(chunks[..k]), chunks[k])
  }

  predicate AlignedAt(before: string, bytes: string) {
    CString(bytes) == [] || '\n' in CString(bytes) || LineBoundary(before)
  }

  /** The unterminated line at every cut, and a line completed across a cut with its newline, fit the
      fragment's buffer. */
  predicate FragmentsFit(chunks: seq<string>) {
    && (forall k :: 0 <= k < |chunks| ==> FragmentFits(Fragment(Stream(chunks[..k])), chunks[k]))
    && |Fragment(Stream(chunks))| < 256
  }

  predicate FragmentFits(fragment: string, bytes: string) {
    && |fragment| < 256
    && (Completes(fragment, CString(bytes)) ==> |fragment| + FirstNewline(CString(bytes)) + 1 < 256)
  }

  lemma {:induction false} FragmentIsEmptyIff(s: string)
    ensures Fragment(s) == [] <==> LineBoundary(s)
    decreases |s|
  {
    hide FirstNewline, Split;
    var k := FirstNewline(s);
    if k < 0 {
      SplitEnd(s);
    } else {
      SplitAtNewline(s);
      FragmentIsEmptyIff(s[k + 1..]);
    }
  }

  /** A fragment is pending and a piece without a newline arrives: it is copied over the fragment. */
  predicate Overwrites(pending: string, bytes: string) {
    pending != [] && CString(bytes) != [] && FirstNewline(CString(bytes)) < 0
  }

  lemma AlignedAtIff(before: string, bytes: string)
    ensures AlignedAt(before, bytes) <==> !Overwrites(Fragment(before), bytes)
  {
    hide FirstNewline, CString, Split;
    FragmentIsEmptyIff(before);
  }

  // ---------------------------------------------------------------- one turn

  lemma ReceivedIsSplit(pending: string, bytes: string)
    requires FirstNewline(pending) < 0 && !Overwrites(pending, bytes)
    ensures Received(pending, bytes) == Split(pending + CString(bytes))
  {
    hide FirstNewline, CString, Split, Received;
    var c := CString(bytes);
    if pending == [] {
      NothingPending(bytes);
      assert pending + c == c;
    } else if FirstNewline(c) >= 0 {
      CompletedIsSplit(pending, c);
      PendingCompleted(pending, bytes);
    } else {
      NothingMore(pending, bytes);
      assert pending + c == pending;
    }
  }

  lemma NothingPending(bytes: string)
    ensures Received([], bytes) == Split(CString(bytes))
  {
    hide FirstNewline, CString, Split;
    var c := CString(bytes);
    assert c[0..] == c && [] + Split(c).lines == Split(c).lines;
  }

  lemma PendingCompleted(pending: string, bytes: string)
    requires pending != [] && FirstNewline(CString(bytes)) >= 0
    ensures var c := CString(bytes);
            var k := FirstNewline(c);
            Received(pending, bytes) == Text([pending + c[..k]] + Split(c[k + 1..]).lines, Split(c[k + 1..]).tail)
  {
    hide FirstNewline, CString, Split;
  }

  lemma NothingMore(pending: string, bytes: string)
    requires FirstNewline(pending) < 0 && pending != [] && CString(bytes) == []
    ensures Received(pending, bytes) == Split(pending)
  {
    hide CString;
    assert FirstNewline([]) < 0;
    assert CString(bytes)[0..] == [];
    SplitEnd([]);
    SplitEnd(pending);
  }

  lemma CompletedIsSplit(pending: string, c: string)
    requires FirstNewline(pending) < 0 && FirstNewline(c) >= 0
    ensures var k := FirstNewline(c);
            Split(pending + c) == Text([pending + c[..k]] + Split(c[k + 1..]).lines, Split(c[k + 1..]).tail)
  {
    hide FirstNewline, Split;
    var k := FirstNewline(c);
    FirstNewlineOfSum(pending, c);
    SplitAtNewline(pending + c);
    assert (pending + c)[..|pending| + k] == pending + c[..k];
    assert (pending + c)[|pending| + k + 1..] == c[k + 1..];
  }

  lemma ReceivedTailHasNoNewline(pending: string, bytes: string)
    requires FirstNewline(pending) < 0
    ensures FirstNewline(Received(pending, bytes).tail) < 0
  {
    hide FirstNewline, CString, Split;
    TailHasNoNewline(CString(bytes)[Resume(pending, CString(bytes))..]);
    assert FirstNewline([]) < 0;
  }

  lemma {:induction false} PendingHasNoNewline(chunks: seq<string>)
    ensures AfterChunks(chunks).Some? ==> FirstNewline(AfterChunks(chunks).value.tail) < 0
  {
    hide Received, FitsBuffer, FirstNewline;
    if chunks != [] {
      var n := |chunks| - 1;
      PendingHasNoNewline(chunks[..n]);
      if AfterChunks(chunks[..n]).Some? {
        ReceivedTailHasNoNewline(AfterChunks(chunks[..n]).value.tail, chunks[n]);
      }
    } else {
      assert FirstNewline([]) < 0;
    }
  }

  // ---------------------------------------------------------------- aligned cuts

  lemma SplitOfStream(chunks: seq<string>)
    requires chunks != []
    ensures var before, c := Split(Stream(chunks[..|chunks| - 1])), CString(chunks[|chunks| - 1]);
            Split(Stream(chunks)) == Text(before.lines + Split(before.tail + c).lines, Split(before.tail + c).tail)
  {
    SplitOfSum(Stream(chunks[..|chunks| - 1]), CString(chunks[|chunks| - 1]));
  }

  lemma AlignedPrefix(chunks: seq<string>)
    requires chunks != []
    ensures var n := |chunks| - 1;
            Aligned(chunks) <==> Aligned(chunks[..n]) && AlignedAt(Stream(chunks[..n]), chunks[n])
  {
    hide AlignedAt, Stream;
    var n := |chunks| - 1;
    assert forall k :: 0 <= k < n ==> chunks[..n][..k] == chunks[..k] && chunks[..n][k] == chunks[k];
  }

  lemma FittingPrefix(chunks: seq<string>)
    requires chunks != []
    ensures var n := |chunks| - 1;
            FragmentsFit(chunks) <==> FragmentsFit(chunks[..n])
                                      && FragmentFits(Fragment(Stream(chunks[..n])), chunks[n])
                                      && |Fragment(Stream(chunks))| < 256
  {
    hide FragmentFits, Stream, Fragment;
    var n := |chunks| - 1;
    assert forall k :: 0 <= k < n ==> chunks[..n][..k] == chunks[..k] && chunks[..n][k] == chunks[k];
    FittingFragmentIsShort(Fragment(Stream(chunks[..n])), chunks[n]);
  }

  lemma FittingFragmentIsShort(fragment: string, bytes: string)
    ensures FragmentFits(fragment, bytes) ==> |fragment| < 256
  {}

  /** One more aligned piece that fits is framed as in the whole stream. */
  lemma TurnIsExact(chunks: seq<string>)
    requires chunks != []
    requires var n := |chunks| - 1;
             && AfterChunks(chunks[..n]) == Some(Split(Stream(chunks[..n])))
             && AlignedAt(Stream(chunks[..n]), chunks[n]) && FragmentFits(Fragment(Stream(chunks[..n])), chunks[n])
    requires |Fragment(Stream(chunks))| < 256
    ensures AfterChunks(chunks) == Some(Split(Stream(chunks)))
  {
    hide CString, Split, FirstNewline, Received, AlignedAt, Completes, Stream;
    var n := |chunks| - 1;
    var t := Split(Stream(chunks[..n]));
    SplitOfStream(chunks);
    AlignedAtIff(Stream(chunks[..n]), chunks[n]);
    PendingHasNoNewline(chunks[..n]);
    ReceivedIsSplit(t.tail, chunks[n]);
  }

  lemma {:induction false} AlignedIsExact(chunks: seq<string>)
    requires Aligned(chunks) && FragmentsFit(chunks)
    ensures AfterChunks(chunks) == Some(Split(Stream(chunks)))
  {
    hide AfterChunks, Split, Aligned, FragmentsFit, AlignedAt, FragmentFits;
    if chunks == [] {
      NothingReceived();
    } else {
      AlignedPrefix(chunks);
      FittingPrefix(chunks);
      AlignedIsExact(chunks[..|chunks| - 1]);
      TurnIsExact(chunks);
    }
  }

  lemma NothingReceived()
    ensures AfterChunks([]) == Some(Split(Stream([]))) && FragmentsFit([]) && Aligned([])
  {}

  // ---------------------------------------------------------------- counting characters

  /** Characters accounted for by complete lines, with their newlines. */
  function Size(lines: seq<string>): nat {
    if lines == [] then 0 else Size(lines[..|lines| - 1]) + |lines[|lines| - 1]| + 1
  }

  function TextSize(t: Text): nat {
    Size(t.lines) + |t.tail|
  }

  lemma {:induction false} SizeOfSum(a: seq<string>, b: seq<string>)
    ensures Size(a + b) == Size(a) + Size(b)
  {
    if b == [] {
      assert a + b == a;
    } else {
      var n := |b| - 1;
      SizeOfSum(a, b[..n]);
      assert (a + b)[..|a + b| - 1] == a + b[..n];
    }
  }

  lemma {:induction false} SplitKeepsSize(s: string)
    ensures TextSize(Split(s)) == |s|
    decreases |s|
  {
    hide FirstNewline;
    var k := FirstNewline(s);
    if k >= 0 {
      SplitKeepsSize(s[k + 1..]);
      SizeOfSum([s[..k]], Split(s[k + 1..]).lines);
      assert [s[..k]][..0] == [];
    }
  }

  /** Every turn accounts for the pending and received characters, except a fragment overwritten. */
  lemma ReceivedSize(pending: string, bytes: string)
    requires FirstNewline(pending) < 0
    ensures TextSize(Received(pending, bytes)) + (if Overwrites(pending, bytes) then |pending| else 0)
            == |pending| + |CString(bytes)|
  {
    hide CString, Split, FirstNewline, TextSize;
    var c := CString(bytes);
    if Overwrites(pending, bytes) {
      assert c[0..] == c;
      SplitEnd(c);
      SizeOfTail(CompletedLine(pending, c) + Split(c).lines, c);
    } else {
      ReceivedIsSplit(pending, bytes);
      SplitKeepsSize(pending + c);
    }
  }

  lemma SizeOfTail(lines: seq<string>, tail: string)
    requires lines == []
    ensures TextSize(Text(lines, tail)) == |tail|
  {}

  lemma TextSizeOfSum(t: Text, u: Text)
    ensures TextSize(Text(t.lines + u.lines, u.tail)) == TextSize(t) - |t.tail| + TextSize(u)
  {
    SizeOfSum(t.lines, u.lines);
  }

  /** No turn gains characters, and if all are accounted for in the end, the cuts were aligned and the
      fragments fitted. */
  lemma {:induction false} AccountedMeansAligned(chunks: seq<string>)
    requires AfterChunks(chunks).Some?
    ensures TextSize(AfterChunks(chunks).value) <= |Stream(chunks)|
    ensures TextSize(AfterChunks(chunks).value) == |Stream(chunks)| ==>
              Aligned(chunks) && FragmentsFit(chunks) && AfterChunks(chunks) == Some(Split(Stream(chunks)))
  {
    hide Split, Received, FitsBuffer, TextSize, Aligned, FragmentsFit, CString, FirstNewline, Fragment, AlignedAt,
        Overwrites;
    if chunks == [] {
      NothingReceived();
      SizeOfTail([], []);
    } else {
      var n := |chunks| - 1;
      AccountedMeansAligned(chunks[..n]);
      PendingHasNoNewline(chunks[..n]);
      var t := AfterChunks(chunks[..n]).value;
      ReceivedSize(t.tail, chunks[n]);
      TextSizeOfSum(t, Received(t.tail, chunks[n]));
      OverwritingIsALoss(t.tail, chunks[n]);
      if TextSize(AfterChunks(chunks).value) == |Stream(chunks)| {
        LastTurnAligned(chunks, t);
      }
    }
  }

  lemma OverwritingIsALoss(pending: string, bytes: string)
    ensures Overwrites(pending, bytes) ==> |pending| > 0
  {}

  lemma LastTurnAligned(chunks: seq<string>, t: Text)
    requires chunks != []
    requires var n := |chunks| - 1;
             && AfterChunks(chunks[..n]) == Some(t) && t == Split(Stream(chunks[..n]))
             && Aligned(chunks[..n]) && FragmentsFit(chunks[..n])
             && FitsBuffer(t.tail, chunks[n]) && !Overwrites(t.tail, chunks[n])
    ensures Aligned(chunks) && FragmentsFit(chunks) && AfterChunks(chunks) == Some(Split(Stream(chunks)))
  {
    hide Split, Received, CString, FirstNewline, Aligned, FragmentsFit, AlignedAt, Overwrites, Completes, Stream;
    var n := |chunks| - 1;
    AlignedAtIff(Stream(chunks[..n]), chunks[n]);
    PendingHasNoNewline(chunks[..n]);
    ReceivedIsSplit(t.tail, chunks[n]);
    SplitOfStream(chunks);
    AlignedPrefix(chunks);
    FittingPrefix(chunks);
  }

  /** Framing: the receiver stays within its buffer, the lines it parses are the complete lines of the
      stream, in order, and the fragment pending is its unterminated tail, exactly when the cuts are
      aligned and the fragments fit. Both conditions speak of the stream and its cuts alone. */
  lemma FramingIsExactIff(chunks: seq<string>)
    ensures AfterChunks(chunks) == Some(Split(Stream(chunks))) <==> Aligned(chunks) && FragmentsFit(chunks)
  {
    hide Aligned, FragmentsFit, AfterChunks, Split, TextSize;
    if AfterChunks(chunks) == Some(Split(Stream(chunks))) {
      SplitKeepsSize(Stream(chunks));
      AccountedMeansAligned(chunks);
    } else if Aligned(chunks) && FragmentsFit(chunks) {
      AlignedIsExact(chunks);
    }
  }

  // ---------------------------------------------------------------- short lines fit, long ones need not

  /** Lines of at most 254 characters and a tail of at most 255. */
  predicate ShortLines(t: Text) {
    (forall l <- t.lines :: |l| <= 254) && |t.tail| <= 255
  }

  /** Cut anywhere, a stream of short lines has fragments that fit. */
  lemma {:induction false} ShortLinesFit(chunks: seq<string>)
    requires ShortLines(Split(Stream(chunks)))
    ensures FragmentsFit(chunks)
  {
    hide Split, FragmentsFit, FragmentFits, CString, Stream;
    if chunks == [] {
      NothingReceived();
    } else {
      var n := |chunks| - 1;
      SplitOfStream(chunks);
      var before, c := Split(Stream(chunks[..n])), CString(chunks[n]);
      ShortPiece(before, Split(before.tail + c));
      TailHasNoNewline(Stream(chunks[..n]));
      ShortFragment(before.tail, chunks[n]);
      FittingFragmentIsShort(before.tail, chunks[n]);
      ShortLinesFit(chunks[..n]);
      FittingPrefix(chunks);
    }
  }

  lemma ShortPiece(t: Text, u: Text)
    requires ShortLines(Text(t.lines + u.lines, u.tail))
    ensures ShortLines(u) && (|t.tail| < 256 ==> ShortLines(t))
  {
    forall l | l in t.lines ensures |l| <= 254 {
      assert l in t.lines + u.lines;
    }
    forall l | l in u.lines ensures |l| <= 254 {
      assert l in t.lines + u.lines;
    }
  }

  lemma ShortFragment(fragment: string, bytes: string)
    requires FirstNewline(fragment) < 0 && ShortLines(Split(fragment + CString(bytes)))
    ensures FragmentFits(fragment, bytes)
  {
    hide Split, FirstNewline, CString, ShortLines;
    var c := CString(bytes);
    if FirstNewline(c) >= 0 {
      CompletedIsSplit(fragment, c);
      ShortFirst(fragment + c[..FirstNewline(c)], Split(c[FirstNewline(c) + 1..]));
    } else {
      FirstNewlineOfSum(fragment, c);
      SplitEnd(fragment + c);
      ShortTail(fragment + c);
    }
  }

  lemma ShortFirst(line: string, rest: Text)
    requires ShortLines(Text([line] + rest.lines, rest.tail))
    ensures |line| <= 254
  {
    assert line in [line] + rest.lines;
  }

  lemma ShortTail(tail: string)
    requires ShortLines(Text([], tail))
    ensures |tail| < 256
  {}

  /** A stream of short lines is framed exactly when its cuts are aligned. */
  lemma ShortLinesAreFramedIff(chunks: seq<string>)
    requires ShortLines(Split(Stream(chunks)))
    ensures AfterChunks(chunks) == Some(Split(Stream(chunks))) <==> Aligned(chunks)
  {
    hide Aligned, FragmentsFit, AfterChunks, Split;
    ShortLinesFit(chunks);
    FramingIsExactIff(chunks);
  }

  /** A line cut twice loses its beginning: "1," and "2" leave "2" pending. */
  lemma OverwritingHappens()
    ensures AfterChunks(["1,", "2"]) == Some(Text([], "2"))
    ensures Split(Stream(["1,", "2"])) == Text([], "1,2")
  {
    CStringOf("1,");
    CStringOf("2");
    NoNewlineIn("1,");
    NoNewlineIn("2");
    NoNewlineIn("1,2");
    hide CString, FirstNewline, Split, Completes;
    assert "1," + "2" == "1,2";
    TwoChunks("1,", "2");
    assert Received([], "1,") == Text([], "1,");
    assert Received("1,", "2") == Text([], "2");
  }

  lemma TwoChunks(a: string, b: string)
    ensures Stream([a, b]) == CString(a) + CString(b)
    ensures FitsBuffer([], a) ==> AfterChunks([a]) == Some(Received([], a))
    ensures FitsBuffer([], a) && FitsBuffer(Received([], a).tail, b) ==>
              AfterChunks([a, b]) == Some(Text(Received([], a).lines + Received(Received([], a).tail, b).lines,
                                               Received(Received([], a).tail, b).tail))
  {
    hide FitsBuffer, Received, CString;
    assert [a, b][..1] == [a] && [a][..0] == [];
    assert Stream([a]) == [] + CString(a);
    assert [] + Received([], a).lines == Received([], a).lines;
  }

  lemma {:induction false} CStringOf(s: string)
    requires NUL !in s
    ensures CString(s) == s
  {
    var t := CString(s);
    if |t| < |s| {
      assert false;
    }
  }

  lemma NoNewlineIn(s: string)
    requires NEWLINE !in s
    ensures FirstNewline(s) == -1 && Split(s) == Text([], s)
  {}

  /** A first line of 256 characters or more, cut before its newline, is aligned and overflows. */
  lemma LongFragmentsOverflow(line: string)
    requires |line| >= 256 && '\0' !in line && '\n' !in line
    ensures Aligned([line, ['\n']]) && AfterChunks([line, ['\n']]) == None
  {
    var chunks := [line, ['\n']];
    CStringOf(line);
    CStringOf(['\n']);
    NoNewlineIn(line);
    assert line[0..] == line;
    assert chunks[..1] == [line] && [line][..0] == [];
    assert chunks[..0] == [];
    assert AfterChunks([line]) == None;
  }

  // ---------------------------------------------------------------- files

  function Contents(files: seq<File>): seq<Record> {
    if files == [] then [] else Contents(files[..|files| - 1]) + files[|files| - 1].records
  }

  /** Every record but the last is less than `duration` past the file's start, and the last is not. */
  ghost predicate Full(f: File, duration: real) {
    && f.records != []
    && (forall i :: 0 <= i < |f.records| - 1 ==> f.records[i].t - f.start < duration)
    && f.records[|f.records| - 1].t - f.start >= duration
  }

  ghost predicate Filling(f: File, duration: real) {
    forall i :: 0 <= i < |f.records| ==> f.records[i].t - f.start < duration
  }

  /** Files numbered from 1, each but the last full and followed by one that starts where it ended,
      the last still filling. */
  ghost predicate Rotated(files: seq<File>, duration: real) {
    && (forall k :: 0 <= k < |files| ==> files[k].number == k + 1)
    && (forall k :: 0 <= k < |files| - 1 ==> Full(files[k], duration) && FollowsOn(files[k], files[k + 1]))
    && (files != [] ==> Filling(files[|files| - 1], duration))
  }

  ghost predicate FollowsOn(f: File, g: File) {
    f.records != [] && g.start == f.records[|f.records| - 1].t
  }

  /** The files of a sensor hold exactly `records`, in order. */
  ghost predicate Files(s: Sensor, records: seq<Record>, duration: real) {
    && s.samples == |records|
    && Contents(s.files) == records
    && (s.isOpen <==> records != [])
    && (s.isOpen <==> s.files != [])
    && (if s.isOpen then s.chunkNumber == |s.files| && s.files[|s.files| - 1].start == s.chunkStart
        else s.chunkNumber == 1)
    && Rotated(s.files, duration)
  }

  lemma ContentsOfAppended(files: seq<File>, r: Record)
    requires files != []
    ensures Contents(Appended(files, r)) == Contents(files) + [r]
  {
    var n := |files| - 1;
    assert Appended(files, r)[..n] == files[..n];
  }

  lemma ContentsOfOpened(files: seq<File>, f: File)
    requires f.records == []
    ensures Contents(files + [f]) == Contents(files)
  {
    assert (files + [f])[..|files|] == files;
  }

  /** Writing a record to the last of rotated files and, when it is late enough, starting the next. */
  lemma WritingKeepsRotation(files: seq<File>, r: Record, duration: real)
    requires files != [] && Rotated(files, duration)
    ensures var n, w := |files|, Appended(files, r);
            && |w| == n && w[n - 1].start == files[n - 1].start
            && if r.t - files[n - 1].start >= duration then Rotated(w + [File(n + 1, r.t, [])], duration)
               else Rotated(w, duration)
  {
    var n, w := |files|, Appended(files, r);
    assert forall k :: 0 <= k < n - 1 ==> w[k] == files[k];
    assert w[n - 1].records == files[n - 1].records + [r];
    if r.t - files[n - 1].start >= duration {
      assert Full(w[n - 1], duration);
      var v := w + [File(n + 1, r.t, [])];
      assert forall k :: 0 <= k < n ==> v[k] == w[k];
      forall k | 0 <= k < n ensures Full(v[k], duration) && FollowsOn(v[k], v[k + 1]) {
        if k < n - 1 {
          assert Full(files[k], duration) && FollowsOn(files[k], files[k + 1]);
        }
      }
    } else {
      assert Filling(w[n - 1], duration);
      forall k | 0 <= k < n - 1 ensures Full(w[k], duration) && FollowsOn(w[k], w[k + 1]) {
        assert Full(files[k], duration) && FollowsOn(files[k], files[k + 1]);
      }
    }
  }

  lemma LoggingFiles(s: Sensor, records: seq<Record>, r: Record, duration: real)
    requires Files(s, records, duration)
    ensures Files(Logged(s, r, duration), records + [r], duration)
  {
    hide Rotated;
    FirstFileIsRotated(r.t, duration);
    var a := if s.isOpen then s else Opened(s, r.t);
    ContentsOfOpened(s.files, File(s.chunkNumber, r.t, []));
    ContentsOfAppended(a.files, r);
    WritingKeepsRotation(a.files, r, duration);
    var b := a.(samples := a.samples + 1, files := Appended(a.files, r));
    ContentsOfOpened(b.files, File(b.chunkNumber + 1, r.t, []));
  }

  lemma FirstFileIsRotated(t: real, duration: real)
    ensures Rotated([File(1, t, [])], duration)
  {}

  /** The records of the lines that parse with the given id, in order. */
  function ReadingsOf(lines: seq<string>, id: int, parse: string -> Option<Reading>): seq<Record> {
    if lines == [] then []
    else
      var n := |lines| - 1;
      var before, last := ReadingsOf(lines[..n], id, parse), parse(lines[n]);
      if last.Some? && last.value.id == id then before + [last.value.record] else before
  }

  /** How many lines parse with an id from 1 to `num`. */
  function CountWithin(lines: seq<string>, num: int, parse: string -> Option<Reading>): nat {
    if lines == [] then 0
    else
      var n := |lines| - 1;
      var last := parse(lines[n]);
      CountWithin(lines[..n], num, parse) + if last.Some? && 1 <= last.value.id <= num then 1 else 0
  }

  lemma RecordForIs(line: string, k: int, num: int, parse: string -> Option<Reading>)
    ensures var r := parse(line);
            RecordFor(line, k, num, parse)
            == if r.Some? && r.value.id == k + 1 && 0 <= k < num then Some(r.value.record) else None
  {}

  /** Over every sequence of lines, the files of sensor `k`, for 0 <= k < `num`, hold exactly the records of the
      lines with id k + 1, in order; the other sensors have none. */
  lemma {:induction false} FilesHoldTheAcceptedReadings(lines: seq<string>, k: int, num: int, duration: real,
                                                        parse: string -> Option<Reading>)
    ensures Files(Filed(FRESH, lines, k, num, duration, parse),
                  if 0 <= k < num then ReadingsOf(lines, k + 1, parse) else [], duration)
  {
    hide Files, RecordFor;
    if lines == [] {
      FreshFiles(duration);
    } else {
      var n := |lines| - 1;
      FilesHoldTheAcceptedReadings(lines[..n], k, num, duration, parse);
      RecordForIs(lines[n], k, num, parse);
      match RecordFor(lines[n], k, num, parse)
      case None =>
      case Some(r) =>
        var before := Filed(FRESH, lines[..n], k, num, duration, parse);
        LoggingFiles(before, ReadingsOf(lines[..n], k + 1, parse), r, duration);
    }
  }

  /** A line that does not parse, or whose id is not one of 1, ..., `num`, changes no sensor. */
  lemma OtherIdsChangeNothing(s: Sensor, lines: seq<string>, line: string, k: int, num: int, duration: real,
                              parse: string -> Option<Reading>)
    requires parse(line).None? || !(1 <= parse(line).value.id <= num)
    ensures Filed(s, lines + [line], k, num, duration, parse) == Filed(s, lines, k, num, duration, parse)
  {
    hide Logged;
    assert (lines + [line])[..|lines|] == lines;
  }

  function Samples(lines: seq<string>, k: int, num: int, duration: real, parse: string -> Option<Reading>): int {
    Filed(FRESH, lines, k, num, duration, parse).samples
  }

  lemma OneMoreSample(lines: seq<string>, k: int, num: int, duration: real, parse: string -> Option<Reading>)
    requires lines != []
    ensures var n := |lines| - 1;
            var r := parse(lines[n]);
            Samples(lines, k, num, duration, parse) == Samples(lines[..n], k, num, duration, parse)
              + if r.Some? && r.value.id == k + 1 && 0 <= k < num then 1 else 0
  {
    hide RecordFor;
    RecordForIs(lines[|lines| - 1], k, num, parse);
  }

  /** The sample counts of the three sensors add up to the number of lines with an id from 1 to `num`. */
  lemma {:induction false} SamplesAddUp(lines: seq<string>, num: int, duration: real, parse: string -> Option<Reading>)
    requires 0 <= num <= 3
    ensures Samples(lines, 0, num, duration, parse) + Samples(lines, 1, num, duration, parse)
            + Samples(lines, 2, num, duration, parse) == CountWithin(lines, num, parse)
  {
    if lines != [] {
      OneMoreSample(lines, 0, num, duration, parse);
      OneMoreSample(lines, 1, num, duration, parse);
      OneMoreSample(lines, 2, num, duration, parse);
      hide Samples;
      SamplesAddUp(lines[..|lines| - 1], num, duration, parse);
    }
  }

  lemma FreshFiles(duration: real)
    ensures Files(FRESH, [], duration)
  {}

  /** End to end: however the stream is cut, if the cuts are aligned and the fragments fit, each sensor's
      files hold, in order, exactly the readings accepted for it in the complete lines of the stream. */
  lemma FilesHoldTheStream(chunks: seq<string>, k: int, num: int, duration: real, parse: string -> Option<Reading>)
    requires Aligned(chunks) && FragmentsFit(chunks)
    ensures AfterChunks(chunks).Some?
    ensures Files(SensorAfter(chunks, k, num, duration, parse),
                  if 0 <= k < num then ReadingsOf(Split(Stream(chunks)).lines, k + 1, parse) else [], duration)
  {
    hide Files, Aligned, FragmentsFit, AfterChunks, Split;
    AlignedIsExact(chunks);
    FilesHoldTheAcceptedReadings(Split(Stream(chunks)).lines, k, num, duration, parse);
  }

  /** So two ways of cutting one stream into packets leave the same files. */
  lemma PacketsDoNotMatter(chunks: seq<string>, others: seq<string>, k: int, num: int, duration: real,
                           parse: string -> Option<Reading>)
    requires Aligned(chunks) && FragmentsFit(chunks) && Aligned(others) && FragmentsFit(others)
    requires Stream(chunks) == Stream(others)
    ensures AfterChunks(chunks).Some? && AfterChunks(chunks) == AfterChunks(others)
    ensures SensorAfter(chunks, k, num, duration, parse) == SensorAfter(others, k, num, duration, parse)
  {
    hide Aligned, FragmentsFit, AfterChunks, Split;
    AlignedIsExact(chunks);
    AlignedIsExact(others);
  }
}
