/** Per-command geometry: which parameter plays which part (x or y
    coordinate, arc radius, angle or flag), the mapping of coordinate
    transforms over those parts, and the point the pen ends at. */
module Geometry {
  import opened PathData

  /** The part a parameter plays. */
  datatype Axis = XAxis | YAxis | RadiusX | RadiusY | Untouched

  /** The part played by parameter `i` of a command of kind `k`: an arc's
      parameters are rx ry rotation large-arc sweep x y; H and V carry x's and
      y's; every other command carries x,y pairs. */
  function Role(k: Kind, i: nat): Axis
  {
    match k
    case Arc =>
      var j := i % 7;
      if j == 0 then RadiusX
      else if j == 1 then RadiusY
      else if j == 5 then XAxis
      else if j == 6 then YAxis
      else Untouched
    case HorizontalLineTo => XAxis
    case VerticalLineTo => YAxis
    case _ => if i % 2 == 0 then XAxis else YAxis
  }

  /** What the axis functions do to a value playing a given part. */
  function Transform(a: Axis, fx: real -> real, fy: real -> real,
                     frx: Option<real -> real>, fry: Option<real -> real>, v: real): real
  {
    match a
    case XAxis => fx(v)
    case YAxis => fy(v)
    case RadiusX => if frx.Some? then frx.value(v) else v
    case RadiusY => if fry.Some? then fry.value(v) else v
    case Untouched => v
  }

  /** The values of `c` with `fx` applied to its x coordinates, `fy` to its y
      coordinates and, when given, `frx`/`fry` to its arc radii. */
  function ApplyXY(fx: real -> real, fy: real -> real,
                   frx: Option<real -> real>, fry: Option<real -> real>, c: Command): (r: seq<real>)
    ensures |r| == |c.values|
    ensures forall i :: 0 <= i < |r| ==>
      r[i] == Transform(Role(c.letter.kind, i), fx, fy, frx, fry, c.values[i])
  {
    var v := c.values;
    match c.letter.kind
    case Arc =>
      seq(|v|, i requires 0 <= i < |v| =>
        var j := i % ParamLength(Arc);
        if j == 0 then (if frx.Some? then frx.value(v[i]) else v[i])
        else if j == 1 then (if fry.Some? then fry.value(v[i]) else v[i])
        else if j == 5 then fx(v[i])
        else if j == 6 then fy(v[i])
        else v[i])
    case HorizontalLineTo => seq(|v|, i requires 0 <= i < |v| => fx(v[i]))
    case VerticalLineTo => seq(|v|, i requires 0 <= i < |v| => fy(v[i]))
    case _ => seq(|v|, i requires 0 <= i < |v| => if i % 2 == 1 then fy(v[i]) else fx(v[i]))
  }

  /** The end point can be read off the command: H/V need one value, the
      others (but close-path) a pair. */
  predicate HasEndPoint(c: Command)
  {
    match c.letter.kind
    case ClosePath => true
    case HorizontalLineTo => |c.values| >= 1
    case VerticalLineTo => |c.values| >= 1
    case _ => |c.values| >= 2
  }

  /** The point the pen occupies after `c`, from the current point `cur` and
      the start `start` of the current subpath: a close-path returns to the
      start, an H keeps the y and a V the x of the current point (an
      absolute H moves to x = its last value, an absolute V to y = its last
      value), and any other absolute command ends at its last pair of
      values. */
  function EndPoint(c: Command, cur: Point, start: Point): (r: Point)
    requires HasEndPoint(c)
    ensures c.letter.kind == ClosePath ==> r == start
    ensures c.letter.kind == HorizontalLineTo ==> r.y == cur.y
    ensures c.letter.kind == VerticalLineTo ==> r.x == cur.x
    ensures c.letter == Letter(HorizontalLineTo, false) ==> r.x == c.values[|c.values| - 1]
    ensures c.letter == Letter(VerticalLineTo, false) ==> r.y == c.values[|c.values| - 1]
    ensures !c.letter.relative && c.letter.kind !in {ClosePath, HorizontalLineTo, VerticalLineTo} ==>
      r == Point(c.values[|c.values| - 2], c.values[|c.values| - 1])
  {
    var v := c.values;
    var n := |v|;
    match c.letter
    case Letter(ClosePath, _) => start
    case Letter(HorizontalLineTo, false) => Point(v[n - 1], cur.y)
    case Letter(VerticalLineTo, false) => Point(cur.x, v[n - 1])
    case Letter(HorizontalLineTo, true) => Point(cur.x + v[n - 1], cur.y)
    case Letter(VerticalLineTo, true) => Point(cur.x, cur.y + v[n - 1])
    case Letter(_, false) => Point(v[n - 2], v[n - 1])
    case Letter(_, true) => Point(cur.x + v[n - 2], cur.y + v[n - 1])
  }

  /** A relative command ends where its upper case form, read from the
      origin, ends, shifted by the current point; the subpath start plays no
      part in either. */
  lemma RelativeEndPoint(c: Command, cur: Point, start: Point, start': Point)
    requires HasEndPoint(c) && c.letter.relative && c.letter.kind != ClosePath
    ensures var e := EndPoint(Command(ToUpper(c.letter), c.values), Origin, start');
      EndPoint(c, cur, start) == Point(cur.x + e.x, cur.y + e.y)
  {
  }
}
