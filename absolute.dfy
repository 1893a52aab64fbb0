/** Relative-to-absolute conversion. The walk carries the current point and
    the start of the current subpath; each step expands the remaining path,
    rewrites its first command in absolute coordinates and moves the pen. */
module Absolute {
  import opened PathData
  import opened Implicit
  import opened Geometry

  /** The pen: the current point and the start of the current subpath. */
  datatype Pen = Pen(cur: Point, start: Point)

  /** What a relative coordinate of the given part is offset by. */
  function Offset(a: Axis, cur: Point): real
  {
    match a
    case XAxis => cur.x
    case YAxis => cur.y
    case _ => 0.0
  }

  /** `c` in absolute coordinates, given the current point: a relative
      command has its x coordinates shifted by `cur.x` and its y coordinates
      by `cur.y`, while arc radii, rotations and flags are kept. */
  function AbsoluteCommand(c: Command, cur: Point): (r: Command)
    ensures r.letter == ToUpper(c.letter)
    ensures |r.values| == |c.values|
    ensures forall i :: 0 <= i < |c.values| ==>
      r.values[i] == c.values[i] + (if c.letter.relative then Offset(Role(c.letter.kind, i), cur) else 0.0)
  {
    Command(ToUpper(c.letter),
            if IsRelative(c) then ApplyXY(x => x + cur.x, y => y + cur.y, None, None, c) else c.values)
  }

  /** The pen after `c`: it moves to the end point, and a moveto also starts
      a new subpath there. */
  function Advance(c: Command, pen: Pen): Pen
    requires HasEndPoint(c)
  {
    var e := EndPoint(c, pen.cur, pen.start);
    Pen(e, if c.letter.kind == MoveTo then e else pen.start)
  }

  predicate Walkable(p: Path)
  {
    forall i :: 0 <= i < |p| ==> HasEndPoint(p[i])
  }

  lemma SingleIsWalkable(p: Path)
    requires AllSingle(p)
    ensures Walkable(p)
  {
  }

  /** The pens a path passes through, one per command: the meaning of the
      path as far as its end points go. */
  function Trace(p: Path, pen: Pen): (r: seq<Pen>)
    requires Walkable(p)
    ensures |r| == |p|
  {
    if |p| == 0 then [] else var next := Advance(p[0], pen); [next] + Trace(p[1..], next)
  }

  /** The pen after the whole path. */
  function Final(p: Path, pen: Pen): Pen
    requires Walkable(p)
  {
    if |p| == 0 then pen else Final(p[1..], Advance(p[0], pen))
  }

  /** Converting one command does not move its end point. */
  lemma EndPointOfAbsolute(c: Command, cur: Point, start: Point)
    requires Single(c)
    ensures HasEndPoint(c) && HasEndPoint(AbsoluteCommand(c, cur))
    ensures EndPoint(AbsoluteCommand(c, cur), cur, start) == EndPoint(c, cur, start)
  {
    var a := AbsoluteCommand(c, cur);
    var n := |c.values|;
    if c.letter.kind != ClosePath && c.letter.relative {
      if c.letter.kind == HorizontalLineTo || c.letter.kind == VerticalLineTo {
        assert a.values[n - 1] == c.values[n - 1] + Offset(Role(c.letter.kind, n - 1), cur);
      } else {
        assert a.values[n - 2] == c.values[n - 2] + Offset(Role(c.letter.kind, n - 2), cur);
        assert a.values[n - 1] == c.values[n - 1] + Offset(Role(c.letter.kind, n - 1), cur);
      }
    }
  }

  /** The absolute form of a path, walked from current point `last` and
      subpath start `initial`. */
  function ToAbsolute(p: Path, last: Point, initial: Point): (r: Path)
    requires AllGrouped(p)
    ensures |r| == |ExpandImplicit(p)|
    decreases |ExpandImplicit(p)|
  {
    if |p| == 0 then []
    else
      var e := ExpandImplicit(p);
      var first := e[0];
      var rest := e[1..];
      var newFirst := AbsoluteCommand(first, last);
      var last' := EndPoint(newFirst, last, initial);
      var initial' := if newFirst.letter.kind == MoveTo then last' else initial;
      ExpandFixpoint(rest);
      SingleIsGrouped(rest);
      [newFirst] + ToAbsolute(rest, last', initial')
  }

  /** The conversion of a path of single commands, one command at a time:
      each is rewritten at the current pen, which then advances over it. */
  function AbsoluteWalk(x: Path, pen: Pen): (r: Path)
    requires AllSingle(x)
    ensures |r| == |x|
  {
    if |x| == 0 then [] else [AbsoluteCommand(x[0], pen.cur)] + AbsoluteWalk(x[1..], Advance(x[0], pen))
  }

  /** Re-expanding the rest at every step, as the conversion does, is
      walking the once-expanded path. */
  lemma {:induction false} ToAbsoluteIsWalk(p: Path, pen: Pen)
    requires AllGrouped(p)
    ensures AllSingle(ExpandImplicit(p))
    ensures ToAbsolute(p, pen.cur, pen.start) == AbsoluteWalk(ExpandImplicit(p), pen)
    decreases |ExpandImplicit(p)|
  {
    var e := ExpandImplicit(p);
    if |p| > 0 {
      EndPointOfAbsolute(e[0], pen.cur, pen.start);
      var next := Advance(e[0], pen);
      ExpandFixpoint(e[1..]);
      SingleIsGrouped(e[1..]);
      ToAbsoluteIsWalk(e[1..], next);
      assert ToAbsolute(p, pen.cur, pen.start) == [AbsoluteCommand(e[0], pen.cur)] + ToAbsolute(e[1..], next.cur, next.start);
    }
  }

  lemma {:induction false} WalkShape(x: Path, pen: Pen)
    requires AllSingle(x)
    ensures forall i :: 0 <= i < |x| ==>
      AbsoluteWalk(x, pen)[i].letter == ToUpper(x[i].letter) && Single(AbsoluteWalk(x, pen)[i])
  {
    if |x| > 0 {
      WalkShape(x[1..], Advance(x[0], pen));
    }
  }

  lemma {:induction false} WalkKeepsTrace(x: Path, pen: Pen)
    requires AllSingle(x)
    ensures Walkable(x) && Walkable(AbsoluteWalk(x, pen))
    ensures Trace(AbsoluteWalk(x, pen), pen) == Trace(x, pen)
  {
    WalkShape(x, pen);
    if |x| > 0 {
      EndPointOfAbsolute(x[0], pen.cur, pen.start);
      var next := Advance(x[0], pen);
      WalkKeepsTrace(x[1..], next);
      assert AbsoluteWalk(x, pen)[1..] == AbsoluteWalk(x[1..], next);
    }
  }

  lemma {:induction false} WalkOfAbsolute(x: Path, pen: Pen)
    requires AllSingle(x)
    requires forall i :: 0 <= i < |x| ==> !x[i].letter.relative
    ensures AbsoluteWalk(x, pen) == x
  {
    if |x| > 0 {
      WalkOfAbsolute(x[1..], Advance(x[0], pen));
      assert x == [x[0]] + x[1..];
    }
  }

  lemma AllSingleAppend(x: Path, y: Path)
    requires AllSingle(x) && AllSingle(y)
    ensures AllSingle(x + y)
  {
    forall i | 0 <= i < |x + y| ensures Single((x + y)[i]) {
      if i >= |x| {
        assert (x + y)[i] == y[i - |x|];
      }
    }
  }

  lemma {:induction false} WalkAppend(x: Path, y: Path, pen: Pen)
    requires AllSingle(x) && AllSingle(y)
    ensures AllSingle(x + y) && Walkable(x)
    ensures AbsoluteWalk(x + y, pen) == AbsoluteWalk(x, pen) + AbsoluteWalk(y, Final(x, pen))
  {
    AllSingleAppend(x, y);
    if |x| == 0 {
      assert x + y == y;
    } else {
      assert (x + y)[0] == x[0] && (x + y)[1..] == x[1..] + y;
      WalkAppend(x[1..], y, Advance(x[0], pen));
    }
  }

  /** Every output command is absolute, carries exactly one parameter group
      and has the kind of the expanded input command it comes from. */
  lemma ToAbsoluteShape(p: Path, last: Point, initial: Point)
    requires AllGrouped(p)
    ensures forall i :: 0 <= i < |ToAbsolute(p, last, initial)| ==>
      var r := ToAbsolute(p, last, initial);
      !r[i].letter.relative && Single(r[i]) && r[i].letter.kind == ExpandImplicit(p)[i].letter.kind
  {
    ToAbsoluteIsWalk(p, Pen(last, initial));
    WalkShape(ExpandImplicit(p), Pen(last, initial));
  }

  /** Expanding first changes nothing: the walk expands anyway. */
  lemma ToAbsoluteOfExpanded(p: Path, last: Point, initial: Point)
    requires AllGrouped(p)
    ensures AllGrouped(ExpandImplicit(p))
    ensures ToAbsolute(ExpandImplicit(p), last, initial) == ToAbsolute(p, last, initial)
  {
    SingleIsGrouped(ExpandImplicit(p));
    ExpandIdempotent(p);
  }

  /** Converting to absolute keeps every end point and subpath start: the
      output walks through the same pens as the expanded input. */
  lemma ToAbsoluteKeepsTrace(p: Path, pen: Pen)
    requires AllGrouped(p)
    ensures Walkable(ExpandImplicit(p)) && Walkable(ToAbsolute(p, pen.cur, pen.start))
    ensures Trace(ToAbsolute(p, pen.cur, pen.start), pen) == Trace(ExpandImplicit(p), pen)
  {
    ToAbsoluteIsWalk(p, pen);
    WalkKeepsTrace(ExpandImplicit(p), pen);
  }

  /** A path already absolute only gets expanded. */
  lemma ToAbsoluteOfAbsolute(p: Path, last: Point, initial: Point)
    requires AllGrouped(p)
    requires forall i :: 0 <= i < |p| ==> !p[i].letter.relative
    ensures ToAbsolute(p, last, initial) == ExpandImplicit(p)
  {
    ToAbsoluteIsWalk(p, Pen(last, initial));
    AbsoluteExpands(p);
    WalkOfAbsolute(ExpandImplicit(p), Pen(last, initial));
  }

  /** Expansion keeps the case of every letter. */
  lemma {:induction false} AbsoluteExpands(p: Path)
    requires forall i :: 0 <= i < |p| ==> !p[i].letter.relative
    ensures forall i :: 0 <= i < |ExpandImplicit(p)| ==> !ExpandImplicit(p)[i].letter.relative
  {
    if |p| > 0 {
      AbsoluteExpands(p[1..]);
      var a := ExpandOne(p[0]);
      var b := ExpandImplicit(p[1..]);
      assert forall i :: 0 <= i < |a| ==> !a[i].letter.relative;
      assert forall i :: 0 <= i < |a + b| ==> (a + b)[i] == if i < |a| then a[i] else b[i - |a|];
    }
  }

  /** Applied to its own output, the conversion changes nothing, whatever
      pen it starts from. */
  lemma ToAbsoluteIdempotent(p: Path, last: Point, initial: Point, last2: Point, initial2: Point)
    requires AllGrouped(p)
    ensures AllGrouped(ToAbsolute(p, last, initial))
    ensures ToAbsolute(ToAbsolute(p, last, initial), last2, initial2) == ToAbsolute(p, last, initial)
  {
    var r := ToAbsolute(p, last, initial);
    ToAbsoluteShape(p, last, initial);
    SingleIsGrouped(r);
    ToAbsoluteOfAbsolute(r, last2, initial2);
    ExpandFixpoint(r);
  }

  /** The conversion works path by path: the second part is converted from
      the pen the first part leaves. */
  lemma ToAbsoluteAppend(a: Path, b: Path, pen: Pen)
    requires AllGrouped(a) && AllGrouped(b)
    ensures AllGrouped(a + b) && Walkable(ExpandImplicit(a))
    ensures var f := Final(ExpandImplicit(a), pen);
      ToAbsolute(a + b, pen.cur, pen.start) == ToAbsolute(a, pen.cur, pen.start) + ToAbsolute(b, f.cur, f.start)
  {
    assert AllGrouped(a + b) by {
      forall i | 0 <= i < |a + b| ensures Grouped((a + b)[i]) {
        if i >= |a| {
          assert (a + b)[i] == b[i - |a|];
        }
      }
    }
    var ea, eb := ExpandImplicit(a), ExpandImplicit(b);
    ExpandAppend(a, b);
    ToAbsoluteIsWalk(a + b, pen);
    ToAbsoluteIsWalk(a, pen);
    WalkAppend(ea, eb, pen);
    ToAbsoluteIsWalk(b, Final(ea, pen));
  }

  /** Each pen of the trace is the one before it advanced over its command. */
  lemma {:induction false} TraceAt(p: Path, pen: Pen, i: nat)
    requires Walkable(p) && i < |p|
    ensures Trace(p, pen)[i] == Advance(p[i], if i == 0 then pen else Trace(p, pen)[i - 1])
  {
    if i > 0 {
      TraceAt(p[1..], Advance(p[0], pen), i - 1);
    }
  }

  /** The walk command by command: the i-th command is rewritten at the
      point the pen has reached after the i commands before it. */
  lemma {:induction false} WalkAt(x: Path, pen: Pen, i: nat)
    requires AllSingle(x) && i < |x|
    ensures Walkable(x[..i])
    ensures AbsoluteWalk(x, pen)[i] == AbsoluteCommand(x[i], Final(x[..i], pen).cur)
  {
    if i > 0 {
      var next := Advance(x[0], pen);
      WalkAt(x[1..], next, i - 1);
      assert x[..i][0] == x[0] && x[..i][1..] == x[1..][..i - 1];
    }
  }

  /** From a moveto on, as long as no other moveto comes, the subpath start
      stays where that moveto ended. */
  lemma {:induction false} StartKept(p: Path, pen: Pen, k: nat, m: nat)
    requires Walkable(p) && k <= m < |p|
    requires p[k].letter.kind == MoveTo
    requires forall n :: k < n <= m ==> p[n].letter.kind != MoveTo
    ensures Trace(p, pen)[m].start == Trace(p, pen)[k].cur
    decreases m - k
  {
    TraceAt(p, pen, m);
    if m > k {
      StartKept(p, pen, k, m - 1);
    }
  }

  /** A close-path returns the pen to where the last moveto before it ended. */
  lemma ClosePathReturns(p: Path, pen: Pen, k: nat, j: nat)
    requires Walkable(p) && k < j < |p|
    requires p[k].letter.kind == MoveTo && p[j].letter.kind == ClosePath
    requires forall n :: k < n < j ==> p[n].letter.kind != MoveTo
    ensures Trace(p, pen)[j].cur == Trace(p, pen)[k].cur
  {
    StartKept(p, pen, k, j - 1);
    TraceAt(p, pen, j);
  }
}
