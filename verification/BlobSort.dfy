/** The merge sort of Oph/src/camera.c, `merge` and `part`: brightest first, over three parallel
    arrays, with a zero magnitude as the sentinel that ends each half. */
module BlobSort {
  import opened Common

  datatype Blob = Blob(mag: real, x: real, y: real)

  // ---------------------------------------------------------------- the sort as a function

  function HeadMag(s: seq<Blob>): real {
    if s == [] then 0.0 else s[0].mag
  }

  function Prepend(b: Blob, rest: Option<seq<Blob>>): Option<seq<Blob>> {
    match rest
    case None => None
    case Some(s) => Some([b] + s)
  }

  /** The merge loop from the point where `l` and `r` are left in the halves; `None` when it copies a
      sentinel, whose coordinates were never set. */
  function Merged(l: seq<Blob>, r: seq<Blob>): (m: Option<seq<Blob>>)
    ensures m.Some? ==> |m.value| == |l| + |r|
    decreases |l| + |r|
  {
    if l == [] && r == [] then Some([])
    else if HeadMag(l) >= HeadMag(r) then
      if l == [] then None else Prepend(l[0], Merged(l[1..], r))
    else
      if r == [] then None else Prepend(r[0], Merged(l, r[1..]))
  }

  function Half(s: seq<Blob>): int {
    (|s| + 1) / 2
  }

  /** What `part` makes of a stretch of the arrays. */
  function Parted(s: seq<Blob>): (m: Option<seq<Blob>>)
    ensures m.Some? ==> |m.value| == |s|
    decreases |s|
  {
    if |s| <= 1 then Some(s)
    else
      var l, r := Parted(s[..Half(s)]), Parted(s[Half(s)..]);
      if l.None? || r.None? then None else Merged(l.value, r.value)
  }

  // ---------------------------------------------------------------- the C functions

  /** The three arrays hold `s` from index `lo` on. */
  ghost predicate Hold(a: array<real>, x: array<real>, y: array<real>, lo: int, s: seq<Blob>)
    requires x.Length == y.Length == a.Length && 0 <= lo <= lo + |s| <= a.Length
    reads a, x, y
  {
    forall k :: 0 <= k < |s| ==> a[lo + k] == s[k].mag && x[lo + k] == s[k].x && y[lo + k] == s[k].y
  }

  /** A half copied out: n entries and one more whose magnitude is the sentinel. */
  method CopyHalf(a: array<real>, x: array<real>, y: array<real>, from: int, ghost s: seq<Blob>, n: int)
    returns (hm: array<real>, hx: array<real>, hy: array<real>)
    requires n == |s| && 0 <= from && from + n <= a.Length && x.Length == y.Length == a.Length
    requires Hold(a, x, y, from, s)
    ensures fresh(hm) && fresh(hx) && fresh(hy)
    ensures hm.Length == hx.Length == hy.Length == n + 1
    ensures hm[n] == 0.0 && Hold(hm, hx, hy, 0, s)
  {
    hm, hx, hy := new real[n + 1], new real[n + 1], new real[n + 1];
    hm[n] := 0.0;
    var i := 0;
    while i < n
      invariant 0 <= i <= n
      invariant hm[n] == 0.0
      invariant forall k :: 0 <= k < i ==> hm[k] == s[k].mag && hx[k] == s[k].x && hy[k] == s[k].y
    {
      hm[i], hx[i], hy[i] := a[from + i], x[from + i], y[from + i];
      i := i + 1;
    }
  }

  method Put(a: array<real>, x: array<real>, y: array<real>, p: int, k: int, mag: real, xc: real, yc: real,
             ghost out: seq<Blob>, ghost b: Blob)
    requires 0 <= p <= k < a.Length && x.Length == y.Length == a.Length
    requires a != x && a != y && x != y
    requires k == p + |out| && b == Blob(mag, xc, yc) && Hold(a, x, y, p, out)
    modifies a, x, y
    ensures Hold(a, x, y, p, out + [b])
    ensures forall t :: 0 <= t < a.Length && t != k ==> a[t] == old(a[t]) && x[t] == old(x[t]) && y[t] == old(y[t])
  {
    a[k], x[k], y[k] := mag, xc, yc;
  }

  method Merge(a: array<real>, p: int, q: int, r: int, x: array<real>, y: array<real>,
               ghost left: seq<Blob>, ghost right: seq<Blob>)
    requires 0 <= p <= q < r < a.Length && x.Length == y.Length == a.Length
    requires a != x && a != y && x != y
    requires |left| == q - p + 1 && |right| == r - q
    requires Hold(a, x, y, p, left) && Hold(a, x, y, q + 1, right)
    requires Merged(left, right).Some?
    modifies a, x, y
    ensures Hold(a, x, y, p, Merged(left, right).value)
    ensures forall k :: 0 <= k < p || r < k < a.Length ==> a[k] == old(a[k]) && x[k] == old(x[k]) && y[k] == old(y[k])
  {
    hide Merged;
    var lm, lx, ly := CopyHalf(a, x, y, p, left, q - p + 1);
    var rm, rx, ry := CopyHalf(a, x, y, q + 1, right, r - q);
    MergeHalves(a, p, r, x, y, lm, lx, ly, rm, rx, ry, left, right);
  }

  /** The merge loop, from the copied halves back into the arrays. */
  method MergeHalves(a: array<real>, p: int, r: int, x: array<real>, y: array<real>,
                     lm: array<real>, lx: array<real>, ly: array<real>,
                     rm: array<real>, rx: array<real>, ry: array<real>,
                     ghost left: seq<Blob>, ghost right: seq<Blob>)
    requires 0 <= p <= r < a.Length && x.Length == y.Length == a.Length && r - p + 1 == |left| + |right|
    requires a != x && a != y && x != y
    requires {a, x, y} !! {lm, lx, ly, rm, rx, ry}
    requires lm.Length == lx.Length == ly.Length == |left| + 1
    requires rm.Length == rx.Length == ry.Length == |right| + 1
    requires lm[|left|] == 0.0 && Hold(lm, lx, ly, 0, left)
    requires rm[|right|] == 0.0 && Hold(rm, rx, ry, 0, right)
    requires Merged(left, right).Some?
    modifies a, x, y
    ensures Hold(a, x, y, p, Merged(left, right).value)
    ensures forall k :: 0 <= k < p || r < k < a.Length ==> a[k] == old(a[k]) && x[k] == old(x[k]) && y[k] == old(y[k])
  {
    hide Merged;
    var i, j, k := 0, 0, p;
    ghost var out := [];
    while k <= r
      invariant 0 <= i <= |left| && 0 <= j <= |right| && k == p + i + j == p + |out|
      invariant Merged(left[i..], right[j..]).Some?
      invariant Merged(left, right).value == out + Merged(left[i..], right[j..]).value
      invariant Hold(a, x, y, p, out)
      invariant forall k :: 0 <= k < p || r < k < a.Length ==>
                a[k] == old(a[k]) && x[k] == old(x[k]) && y[k] == old(y[k])
    {
      MergedStep(left, right, i, j, out);
      if lm[i] >= rm[j] {
        Put(a, x, y, p, k, lm[i], lx[i], ly[i], out, left[i]);
        out := out + [left[i]];
        i := i + 1;
      } else {
        Put(a, x, y, p, k, rm[j], rx[j], ry[j], out, right[j]);
        out := out + [right[j]];
        j := j + 1;
      }
      k := k + 1;
    }
  }

  lemma MergedUnfolds(l: seq<Blob>, r: seq<Blob>)
    requires Merged(l, r).Some? && |l| + |r| > 0
    ensures if HeadMag(l) >= HeadMag(r) then
              l != [] && Merged(l[1..], r).Some? && Merged(l, r).value == [l[0]] + Merged(l[1..], r).value
            else
              r != [] && Merged(l, r[1..]).Some? && Merged(l, r).value == [r[0]] + Merged(l, r[1..]).value
  {}

  lemma MergedStep(left: seq<Blob>, right: seq<Blob>, i: int, j: int, out: seq<Blob>)
    requires 0 <= i <= |left| && 0 <= j <= |right| && i + j < |left| + |right|
    requires Merged(left, right).Some? && Merged(left[i..], right[j..]).Some?
    requires Merged(left, right).value == out + Merged(left[i..], right[j..]).value
    ensures var lm, rm := if i < |left| then left[i].mag else 0.0, if j < |right| then right[j].mag else 0.0;
            if lm >= rm then
              && i < |left| && Merged(left[i + 1..], right[j..]).Some?
              && Merged(left, right).value == out + [left[i]] + Merged(left[i + 1..], right[j..]).value
            else
              && j < |right| && Merged(left[i..], right[j + 1..]).Some?
              && Merged(left, right).value == out + [right[j]] + Merged(left[i..], right[j + 1..]).value
  {
    hide Merged;
    var l, r := left[i..], right[j..];
    MergedUnfolds(l, r);
    if HeadMag(l) >= HeadMag(r) {
      assert l[1..] == left[i + 1..] && l[0] == left[i];
      Regroup(out, left[i], Merged(l[1..], r).value);
    } else {
      assert r[1..] == right[j + 1..] && r[0] == right[j];
      Regroup(out, right[j], Merged(l, r[1..]).value);
    }
  }

  lemma Regroup(out: seq<Blob>, b: Blob, rest: seq<Blob>)
    ensures out + ([b] + rest) == out + [b] + rest
  {}

  method Part(a: array<real>, p: int, r: int, x: array<real>, y: array<real>, ghost s: seq<Blob>)
    requires 0 <= p <= r + 1 <= a.Length && x.Length == y.Length == a.Length
    requires a != x && a != y && x != y
    requires |s| == r + 1 - p && Hold(a, x, y, p, s)
    requires Parted(s).Some?
    modifies a, x, y
    ensures Hold(a, x, y, p, Parted(s).value)
    ensures forall k :: 0 <= k < p || r < k < a.Length ==> a[k] == old(a[k]) && x[k] == old(x[k]) && y[k] == old(y[k])
    decreases r - p
  {
    hide Merged;
    if p < r {
      var q := (p + r) / 2;
      ghost var left, right := s[..Half(s)], s[Half(s)..];
      assert |left| == q - p + 1 && |right| == r - q;
      assert Hold(a, x, y, p, left) && Hold(a, x, y, q + 1, right);
      Part(a, p, q, x, y, left);
      Part(a, q + 1, r, x, y, right);
      Merge(a, p, q, r, x, y, Parted(left).value, Parted(right).value);
    }
  }
}
