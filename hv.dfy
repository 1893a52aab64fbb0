/** H/V elimination: every absolute horizontal or vertical lineto becomes an
    absolute lineto, its missing coordinate taken from a tracked pair of
    numbers. As written, the tracked pair is the previous command's first two
    values (from index 4 on for a cubic curve), which is its end point only
    for M, L, T, C and the linetos this pass emits. */
module HV {
  import opened PathData
  import opened Geometry
  import opened Absolute

  const AbsH := Letter(HorizontalLineTo, false)
  const AbsV := Letter(VerticalLineTo, false)
  const AbsL := Letter(LineTo, false)
  const AbsC := Letter(CurveTo, false)

  /** What the pass remembers after emitting `out`: the values from index 4
      on for C (`values.slice(4)`), all the values otherwise. */
  function Tracked(out: Command): seq<real>
  {
    if out.letter == AbsC then (if |out.values| >= 4 then out.values[4..] else []) else out.values
  }

  /** The pass can rewrite `c`: an H reads its first value and the second
      tracked one, a V its first value and the first tracked one. */
  predicate StepReady(c: Command, tracked: seq<real>)
  {
    if c.letter == AbsH then |c.values| >= 1 && |tracked| >= 2
    else if c.letter == AbsV then |c.values| >= 1 && |tracked| >= 1
    else true
  }

  /** One command rewritten. */
  function HVStep(c: Command, tracked: seq<real>): Command
    requires StepReady(c, tracked)
  {
    if c.letter == AbsH then Command(AbsL, [c.values[0], tracked[1]])
    else if c.letter == AbsV then Command(AbsL, [tracked[0], c.values[0]])
    else c
  }

  /** Every H and V of `p` finds what it reads, walking from `tracked`. */
  predicate HVReady(p: Path, tracked: seq<real>)
    decreases |p|
  {
    |p| == 0 || (StepReady(p[0], tracked) && HVReady(p[1..], Tracked(HVStep(p[0], tracked))))
  }

  /** The tracked numbers in force when command `i` of the output is made. */
  function TrackedBefore(r: Path, tracked: seq<real>, i: nat): seq<real>
    requires i <= |r|
  {
    if i == 0 then tracked else Tracked(r[i - 1])
  }

  /** `normalizeHVObj(p, tracked)`: one output command per input command, no
      H or V left, and each command rewritten with the numbers tracked from
      the output command before it. */
  function NormalizeHV(p: Path, tracked: seq<real>): (r: Path)
    requires HVReady(p, tracked)
    ensures |r| == |p|
    ensures forall i :: 0 <= i < |r| ==> r[i].letter != AbsH && r[i].letter != AbsV
    ensures forall i :: 0 <= i < |p| ==>
      StepReady(p[i], TrackedBefore(r, tracked, i)) && r[i] == HVStep(p[i], TrackedBefore(r, tracked, i))
    decreases |p|
  {
    if |p| == 0 then []
    else
      var out := HVStep(p[0], tracked);
      var rest := NormalizeHV(p[1..], Tracked(out));
      var r := [out] + rest;
      assert forall i :: 1 <= i < |r| ==> TrackedBefore(r, tracked, i) == TrackedBefore(rest, Tracked(out), i - 1) by {
        forall i | 1 <= i < |r| ensures TrackedBefore(r, tracked, i) == TrackedBefore(rest, Tracked(out), i - 1) {
          if i > 1 {
            assert r[i - 1] == rest[i - 2];
          }
        }
      }
      r
  }

  // ------------------------------------------------ the corrected pass

  /** H/V elimination tracking the pen: the missing coordinate is the current
      point's. */
  function NormalizeHVFixed(p: Path, pen: Pen): (r: Path)
    requires AllSingle(p)
    ensures |r| == |p| && AllSingle(r)
    ensures forall i :: 0 <= i < |r| ==> r[i].letter != AbsH && r[i].letter != AbsV
    ensures forall i :: 0 <= i < |p| && p[i].letter != AbsH && p[i].letter != AbsV ==> r[i] == p[i]
    decreases |p|
  {
    if |p| == 0 then []
    else
      var c := p[0];
      var out :=
        if c.letter == AbsH then Command(AbsL, [c.values[0], pen.cur.y])
        else if c.letter == AbsV then Command(AbsL, [pen.cur.x, c.values[0]])
        else c;
      [out] + NormalizeHVFixed(p[1..], Advance(c, pen))
  }

  /** The corrected pass moves no end point and no subpath start. */
  lemma {:induction false} NormalizeHVFixedKeepsTrace(p: Path, pen: Pen)
    requires AllSingle(p)
    ensures Walkable(p) && Walkable(NormalizeHVFixed(p, pen))
    ensures Trace(NormalizeHVFixed(p, pen), pen) == Trace(p, pen)
    decreases |p|
  {
    var r := NormalizeHVFixed(p, pen);
    if |p| > 0 {
      var next := Advance(p[0], pen);
      assert Advance(r[0], pen) == next;
      NormalizeHVFixedKeepsTrace(p[1..], next);
      assert r[1..] == NormalizeHVFixed(p[1..], next);
    }
  }

  /** A command after which the tracked numbers are the end point: an
      absolute M, L, T, C, H or V with one parameter group. */
  predicate TracksEndPoint(c: Command)
  {
    !c.letter.relative && Single(c)
    && c.letter.kind in {MoveTo, LineTo, SmoothQuadraticCurveTo, CurveTo, HorizontalLineTo, VerticalLineTo}
  }

  /** On paths made only of such commands, the pass as written is the
      corrected one. */
  lemma {:induction false} NormalizeHVAgrees(p: Path, pen: Pen)
    requires forall i :: 0 <= i < |p| ==> TracksEndPoint(p[i])
    ensures AllSingle(p) && HVReady(p, [pen.cur.x, pen.cur.y])
    ensures NormalizeHV(p, [pen.cur.x, pen.cur.y]) == NormalizeHVFixed(p, pen)
    decreases |p|
  {
    if |p| > 0 {
      var t := [pen.cur.x, pen.cur.y];
      var out := HVStep(p[0], t);
      var next := Advance(p[0], pen);
      if p[0].letter.kind == CurveTo {
        assert p[0].values[4..] == [p[0].values[4], p[0].values[5]];
      }
      assert Tracked(out) == [next.cur.x, next.cur.y];
      NormalizeHVAgrees(p[1..], next);
    }
  }

  /** `M 0 0 Q 1 2 3 4 H 5`: a horizontal lineto after a quadratic curve. */
  function QuadraticThenH(): (p: Path)
    ensures |p| == 3 && AllSingle(p)
  {
    [Command(Letter(MoveTo, false), [0.0, 0.0]),
     Command(Letter(QuadraticCurveTo, false), [1.0, 2.0, 3.0, 4.0]),
     Command(AbsH, [5.0])]
  }

  /** The pens after each of three commands. */
  lemma TraceOfThree(r: Path, pen: Pen)
    requires |r| == 3 && Walkable(r)
    ensures Trace(r, pen)[2] == Advance(r[2], Advance(r[1], Advance(r[0], pen)))
  {
    var pen1 := Advance(r[0], pen);
    var pen2 := Advance(r[1], pen1);
    assert r[1..][0] == r[1] && r[1..][1..] == [r[2]];
    assert Trace([r[2]], pen2)[0] == Advance(r[2], pen2);
    assert Trace(r[1..], pen1)[1] == Advance(r[2], pen2);
  }

  /** As written, the H takes the curve's control point y, 2. */
  lemma QuadraticThenHAsWritten()
    ensures HVReady(QuadraticThenH(), [0.0, 0.0])
    ensures NormalizeHV(QuadraticThenH(), [0.0, 0.0]) == QuadraticThenH()[..2] + [Command(AbsL, [5.0, 2.0])]
  {
    var p := QuadraticThenH();
    var t := [0.0, 0.0];
    assert p[1..][1..] == [p[2]] && [p[2]][1..] == [];
    assert HVReady(p[1..], Tracked(HVStep(p[0], t)));
    var r := NormalizeHV(p, t);
    assert r[1] == HVStep(p[1], TrackedBefore(r, t, 1));
    assert r[2] == HVStep(p[2], TrackedBefore(r, t, 2));
  }

  /** Walked, the path ends its H at (5, 4). */
  lemma QuadraticThenHTrace()
    ensures Walkable(QuadraticThenH()) && Trace(QuadraticThenH(), Pen(Origin, Origin))[2].cur == Point(5.0, 4.0)
  {
    TraceOfThree(QuadraticThenH(), Pen(Origin, Origin));
  }

  /** Walked, the output of the pass as written ends its lineto at (5, 2). */
  lemma QuadraticThenHAsWrittenTrace()
    ensures HVReady(QuadraticThenH(), [0.0, 0.0])
    ensures Walkable(NormalizeHV(QuadraticThenH(), [0.0, 0.0]))
    ensures Trace(NormalizeHV(QuadraticThenH(), [0.0, 0.0]), Pen(Origin, Origin))[2].cur == Point(5.0, 2.0)
  {
    QuadraticThenHAsWritten();
    TraceOfThree(NormalizeHV(QuadraticThenH(), [0.0, 0.0]), Pen(Origin, Origin));
  }

  /** The corrected pass makes the H a lineto to (5, 4). */
  lemma QuadraticThenHCorrected()
    ensures NormalizeHVFixed(QuadraticThenH(), Pen(Origin, Origin))[2] == Command(AbsL, [5.0, 4.0])
  {
    var p := QuadraticThenH();
    var pen1 := Advance(p[0], Pen(Origin, Origin));
    var pen2 := Advance(p[1], pen1);
    assert NormalizeHVFixed(p, Pen(Origin, Origin))[1..][1..] == NormalizeHVFixed(p[1..][1..], pen2);
    assert p[1..][1..] == [p[2]];
  }

  /** After a quadratic curve the pass as written takes the control point's
      y for a following H: `M 0 0 Q 1 2 3 4 H 5` ends its H at (5, 2), while
      the curve ends at (3, 4) and the H at (5, 4). */
  lemma HVAfterQuadratic()
    ensures HVReady(QuadraticThenH(), [0.0, 0.0])
    ensures NormalizeHV(QuadraticThenH(), [0.0, 0.0])[2] == Command(AbsL, [5.0, 2.0])
    ensures NormalizeHVFixed(QuadraticThenH(), Pen(Origin, Origin))[2] == Command(AbsL, [5.0, 4.0])
    ensures Walkable(QuadraticThenH()) && Trace(QuadraticThenH(), Pen(Origin, Origin))[2].cur == Point(5.0, 4.0)
    ensures Walkable(NormalizeHV(QuadraticThenH(), [0.0, 0.0]))
    ensures Trace(NormalizeHV(QuadraticThenH(), [0.0, 0.0]), Pen(Origin, Origin))[2].cur == Point(5.0, 2.0)
  {
    QuadraticThenHAsWritten();
    QuadraticThenHCorrected();
    QuadraticThenHTrace();
    QuadraticThenHAsWrittenTrace();
  }
}
