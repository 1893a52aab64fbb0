/** Combining several paths into one. A path's leading moveto is absolute
    even when written `m` (SVG 1.1, section 8.3.2), but once the path follows
    another it would be read relative to that path's end; so `combine` turns a
    leading `m` into `M`, handing any further coordinate pairs (implicit
    relative linetos) to an explicit `l`, and concatenates the texts. */
module Combine {
  import opened PathData
  import opened Implicit
  import opened Geometry
  import opened Absolute
  import opened Serializer

  const RelMove := Letter(MoveTo, true)
  const AbsMove := Letter(MoveTo, false)
  const RelLine := Letter(LineTo, true)

  /** What replaces a leading `m` with the numbers `v`: `M` of the first pair
      and `l` of the rest when there is more than one pair, `M` of all of
      them otherwise. */
  function RewrittenMove(v: seq<real>): (r: Path)
    ensures |r| >= 1 && r[0].letter == AbsMove
  {
    if |v| > 2 then [Command(AbsMove, v[..2]), Command(RelLine, v[2..])] else [Command(AbsMove, v)]
  }

  /** The per-path rewrite of `combine`. It only touches a leading `m`, which
      no longer leads the result, and keeps the rest of the path as it is. */
  function FixLeadingMove(p: Path): (r: Path)
    ensures |p| == 0 || p[0].letter != RelMove ==> r == p
    ensures |p| > 0 ==> |r| >= |p| && r[|r| - |p| + 1..] == p[1..]
    ensures |p| > 0 ==> |r| > 0 && r[0].letter.kind == p[0].letter.kind && r[0].letter != RelMove
  {
    if |p| > 0 && p[0].letter == RelMove then RewrittenMove(p[0].values) + p[1..] else p
  }

  /** The numbers of two command lists one after the other. */
  lemma ValuesOfAppend(a: Path, b: Path)
    ensures ValuesOf(a + b) == ValuesOf(a) + ValuesOf(b)
  {
    var x := ValuesOf(a + b);
    var y := ValuesOf(a) + ValuesOf(b);
    forall i | 0 <= i < |x| ensures x[i] == y[i] {
      if i < |a| {
        assert (a + b)[i] == a[i];
      } else {
        assert (a + b)[i] == b[i - |a|];
      }
    }
  }

  /** The commands that replace a leading `m` hold its numbers, in order. */
  lemma RewrittenMoveValues(v: seq<real>)
    ensures Flatten(ValuesOf(RewrittenMove(v))) == v
  {
    if |v| > 2 {
      assert ValuesOf(RewrittenMove(v)) == [v[..2], v[2..]];
      assert Flatten([v[2..]]) == v[2..];
      assert v[..2] + v[2..] == v;
    } else {
      assert ValuesOf(RewrittenMove(v)) == [v];
    }
  }

  /** Replacing the first command by commands holding its numbers keeps the
      numbers of the path. */
  lemma ReplaceHeadValues(head: Path, p: Path)
    requires |p| > 0 && Flatten(ValuesOf(head)) == p[0].values
    ensures Flatten(ValuesOf(head + p[1..])) == Flatten(ValuesOf(p))
  {
    ValuesOfAppend(head, p[1..]);
    FlattenAppend(ValuesOf(head), ValuesOf(p[1..]));
    assert p == [p[0]] + p[1..];
    ValuesOfAppend([p[0]], p[1..]);
    assert ValuesOf([p[0]]) == [p[0].values];
    FlattenAppend([p[0].values], ValuesOf(p[1..]));
  }

  /** The rewrite keeps every number, in order. */
  lemma FixLeadingMoveKeepsValues(p: Path)
    ensures Flatten(ValuesOf(FixLeadingMove(p))) == Flatten(ValuesOf(p))
  {
    if |p| > 0 && p[0].letter == RelMove {
      RewrittenMoveValues(p[0].values);
      ReplaceHeadValues(RewrittenMove(p[0].values), p);
    }
  }

  /** A moveto with more than one pair stands for the moveto of its first pair
      followed by the linetos of the others. */
  lemma ExpandMoveSplit(c: Command)
    requires c.letter == RelMove && |c.values| > 2
    ensures ExpandOne(c) == [Command(RelMove, c.values[..2])] + ExpandOne(Command(RelLine, c.values[2..]))
  {
    var v := c.values;
    var l := Command(RelLine, v[2..]);
    var chunks := Chunks(v, 2);
    var rest := Chunks(v[2..], 2);
    assert chunks == [v[..2]] + rest;
    var a := ExpandOne(c);
    var b := [Command(c.letter, v[..2])] + ExpandOne(l);
    assert |a| == |b|;
    forall i | 0 <= i < |a| ensures a[i] == b[i] {
      if i > 0 {
        assert a[i] == Command(Continuation(c.letter), chunks[i]);
        assert b[i] == ExpandOne(l)[i - 1];
      }
    }
  }

  /** Two single-command paths with the same tail whose first commands
      convert to the same command and lead to the same pen convert alike. */
  lemma WalkSameHead(x: Path, y: Path, pen1: Pen, pen2: Pen)
    requires AllSingle(x) && AllSingle(y) && |x| > 0 && |y| > 0 && x[1..] == y[1..]
    requires AbsoluteCommand(x[0], pen1.cur) == AbsoluteCommand(y[0], pen2.cur)
    requires HasEndPoint(x[0]) && HasEndPoint(y[0]) && Advance(x[0], pen1) == Advance(y[0], pen2)
    ensures AbsoluteWalk(x, pen1) == AbsoluteWalk(y, pen2)
  {
  }

  /** A single absolute moveto converts to itself and leads to the same pen
      wherever it starts, and so does a relative one started at the origin. */
  lemma MoveHead(c: Command, pen: Pen)
    requires c.letter.kind == MoveTo && |c.values| == 2
    ensures AbsoluteCommand(Command(AbsMove, c.values), pen.cur) == AbsoluteCommand(c, Origin)
    ensures HasEndPoint(c) && Advance(Command(AbsMove, c.values), pen) == Advance(c, Pen(Origin, Origin))
  {
    var a := AbsoluteCommand(c, Origin);
    assert a.values == c.values by {
      assert a.values[0] == c.values[0] && a.values[1] == c.values[1];
    }
  }

  /** The rewrite keeps well-formed paths well formed. */
  lemma FixLeadingMoveGrouped(p: Path)
    requires AllGrouped(p)
    ensures AllGrouped(FixLeadingMove(p))
  {
    var q := FixLeadingMove(p);
    if |p| > 0 && p[0].letter == RelMove && |p[0].values| > 2 {
      ModSub(|p[0].values|, 2);
      assert Grouped(q[0]) && Grouped(q[1]);
      forall i | 2 <= i < |q| ensures Grouped(q[i]) {
        assert q[i] == p[i - 1];
      }
    }
  }

  /** Wherever the pen is, a rewritten path that starts with a moveto is
      converted exactly as the original is from the origin: it draws the
      same. */
  lemma FixLeadingMoveMeaning(p: Path, pen: Pen)
    requires AllGrouped(p) && |p| > 0 && p[0].letter.kind == MoveTo
    ensures AllGrouped(FixLeadingMove(p))
    ensures ToAbsolute(FixLeadingMove(p), pen.cur, pen.start) == ToAbsolute(p, Origin, Origin)
  {
    var q := FixLeadingMove(p);
    FixLeadingMoveGrouped(p);
    ToAbsoluteIsWalk(p, Pen(Origin, Origin));
    ToAbsoluteIsWalk(q, pen);
    if p[0].letter != RelMove {
      AbsoluteMoveMeaning(p, pen);
    } else if |p[0].values| > 2 {
      SplitMoveMeaning(p, pen);
    } else {
      SingleMoveMeaning(p, pen);
    }
  }

  /** An absolute leading moveto: the path is kept, and its walk does not
      depend on the pen it starts from. */
  lemma AbsoluteMoveMeaning(p: Path, pen: Pen)
    requires AllGrouped(p) && |p| > 0 && p[0].letter == AbsMove
    ensures AllSingle(ExpandImplicit(p))
    ensures AbsoluteWalk(ExpandImplicit(p), pen) == AbsoluteWalk(ExpandImplicit(p), Pen(Origin, Origin))
  {
    var e := ExpandImplicit(p);
    assert AbsoluteCommand(e[0], pen.cur) == AbsoluteCommand(e[0], Origin);
    WalkSameHead(e, e, pen, Pen(Origin, Origin));
  }

  /** Expanded, a path led by an `m` of one pair and its rewrite keep their
      first command and share the rest. */
  lemma SingleMoveExpanded(p: Path)
    requires |p| > 0 && p[0].letter == RelMove && |p[0].values| <= 2
    ensures ExpandImplicit(p) == [p[0]] + ExpandImplicit(p[1..])
    ensures ExpandImplicit(FixLeadingMove(p)) == [Command(AbsMove, p[0].values)] + ExpandImplicit(p[1..])
  {
    var m := Command(AbsMove, p[0].values);
    ExpandedIsFixed(p[0]);
    ExpandedIsFixed(m);
    assert FixLeadingMove(p) == [m] + p[1..];
    ExpandCons(m, p[1..]);
  }

  /** A leading `m` with one pair, made `M`. */
  lemma SingleMoveMeaning(p: Path, pen: Pen)
    requires AllGrouped(p) && |p| > 0 && p[0].letter == RelMove && |p[0].values| <= 2
    ensures AllGrouped(FixLeadingMove(p))
    ensures AllSingle(ExpandImplicit(p)) && AllSingle(ExpandImplicit(FixLeadingMove(p)))
    ensures AbsoluteWalk(ExpandImplicit(FixLeadingMove(p)), pen) == AbsoluteWalk(ExpandImplicit(p), Pen(Origin, Origin))
  {
    FixLeadingMoveGrouped(p);
    SingleMoveExpanded(p);
    MoveHead(p[0], pen);
    WalkSameHead(ExpandImplicit(FixLeadingMove(p)), ExpandImplicit(p), pen, Pen(Origin, Origin));
  }

  /** Appending to a sequence that starts with `x`. */
  lemma ConsAppend<T>(a: seq<T>, x: T, b: seq<T>, c: seq<T>)
    requires a == [x] + b
    ensures a + c == [x] + (b + c)
  {
  }

  /** Expansion of a command followed by a path. */
  lemma ExpandCons(c: Command, p: Path)
    ensures ExpandImplicit([c] + p) == ExpandOne(c) + ExpandImplicit(p)
  {
    assert ([c] + p)[1..] == p;
  }

  /** Expanded, a leading `m` with several pairs is `m` of its first pair
      followed by the expansion of an `l` of the others. */
  lemma SplitMoveExpanded(p: Path)
    requires |p| > 0 && p[0].letter == RelMove && |p[0].values| > 2
    ensures ExpandImplicit(p)
         == [Command(RelMove, p[0].values[..2])] + (ExpandOne(Command(RelLine, p[0].values[2..])) + ExpandImplicit(p[1..]))
  {
    ExpandMoveSplit(p[0]);
    ConsAppend(ExpandOne(p[0]), Command(RelMove, p[0].values[..2]),
      ExpandOne(Command(RelLine, p[0].values[2..])), ExpandImplicit(p[1..]));
  }

  /** Expanded, the rewrite of such a path is `M` of the first pair followed
      by the same expansion of the `l`. */
  lemma SplitMoveRewrittenExpanded(p: Path)
    requires |p| > 0 && p[0].letter == RelMove && |p[0].values| > 2
    ensures ExpandImplicit(FixLeadingMove(p))
         == [Command(AbsMove, p[0].values[..2])] + (ExpandOne(Command(RelLine, p[0].values[2..])) + ExpandImplicit(p[1..]))
  {
    var v := p[0].values;
    var m := Command(AbsMove, v[..2]);
    var l := Command(RelLine, v[2..]);
    assert FixLeadingMove(p) == [m] + ([l] + p[1..]);
    ExpandCons(m, [l] + p[1..]);
    ExpandCons(l, p[1..]);
    ExpandedIsFixed(m);
  }

  /** A leading `m` with several pairs, made `M` of the first pair and `l`
      of the others. */
  lemma SplitMoveMeaning(p: Path, pen: Pen)
    requires AllGrouped(p) && |p| > 0 && p[0].letter == RelMove && |p[0].values| > 2
    ensures AllGrouped(FixLeadingMove(p))
    ensures AllSingle(ExpandImplicit(p)) && AllSingle(ExpandImplicit(FixLeadingMove(p)))
    ensures AbsoluteWalk(ExpandImplicit(FixLeadingMove(p)), pen) == AbsoluteWalk(ExpandImplicit(p), Pen(Origin, Origin))
  {
    FixLeadingMoveGrouped(p);
    SplitMoveExpanded(p);
    SplitMoveRewrittenExpanded(p);
    MoveHead(Command(RelMove, p[0].values[..2]), pen);
    WalkSameHead(ExpandImplicit(FixLeadingMove(p)), ExpandImplicit(p), pen, Pen(Origin, Origin));
  }

  /** `combine` at the level of command lists: the rewritten paths, one
      after the other. */
  function CombineObj(ps: seq<Path>): Path
  {
    if |ps| == 0 then [] else FixLeadingMove(ps[0]) + CombineObj(ps[1..])
  }

  /** Combining keeps every number of every path, in order. */
  lemma {:induction false} CombineKeepsValues(ps: seq<Path>)
    ensures Flatten(ValuesOf(CombineObj(ps))) == Flatten(ValuesOf(Flatten(ps)))
  {
    if |ps| > 0 {
      var a := FixLeadingMove(ps[0]);
      var b := CombineObj(ps[1..]);
      CombineKeepsValues(ps[1..]);
      FixLeadingMoveKeepsValues(ps[0]);
      ValuesOfAppend(a, b);
      ValuesOfAppend(ps[0], Flatten(ps[1..]));
      FlattenAppend(ValuesOf(a), ValuesOf(b));
      FlattenAppend(ValuesOf(ps[0]), ValuesOf(Flatten(ps[1..])));
    }
  }

  /** `combine`: the texts of the rewritten paths, joined with nothing between
      them; this is the text of the combined command list. */
  function Combine(ps: seq<Path>, show: real -> string): (r: string)
    ensures r == Stringify(CombineObj(ps), show)
  {
    if |ps| == 0 then ""
    else
      StringifyAppend(FixLeadingMove(ps[0]), CombineObj(ps[1..]), show);
      Stringify(FixLeadingMove(ps[0]), show) + Combine(ps[1..], show)
  }

  /** Each path converted on its own, from the origin, one after the other. */
  function DrawnApart(ps: seq<Path>): Path
    requires forall i :: 0 <= i < |ps| ==> AllGrouped(ps[i])
  {
    if |ps| == 0 then [] else ToAbsolute(ps[0], Origin, Origin) + DrawnApart(ps[1..])
  }

  /** The combined path draws exactly what its parts drew apart, from
      wherever it starts, when every part starts with a moveto. */
  lemma {:induction false} CombineMeaning(ps: seq<Path>, pen: Pen)
    requires forall i :: 0 <= i < |ps| ==> AllGrouped(ps[i]) && |ps[i]| > 0 && ps[i][0].letter.kind == MoveTo
    ensures AllGrouped(CombineObj(ps))
    ensures ToAbsolute(CombineObj(ps), pen.cur, pen.start) == DrawnApart(ps)
  {
    if |ps| > 0 {
      var a := FixLeadingMove(ps[0]);
      FixLeadingMoveMeaning(ps[0], pen);
      SingleIsWalkable(ExpandImplicit(a));
      var f := Final(ExpandImplicit(a), pen);
      CombineMeaning(ps[1..], f);
      ToAbsoluteAppend(a, CombineObj(ps[1..]), pen);
    }
  }
}
