/** The bounding box and the transforms measured by it. The box is taken over
    the x and y values each command contributes (its end points, some of its
    control points, an arc's end point plus and minus its radius),
    after converting a path with any relative command to absolute. */
module BBox {
  import opened PathData
  import opened Implicit
  import opened Geometry
  import opened Absolute

  // ------------------------------------------------------------ picking

  /** `values.filter((_, i) => i % m == k)`: the values at the indices that
      leave remainder `k` modulo `m`, in order. */
  function Pick(v: seq<real>, m: nat, k: nat): seq<real>
    requires m > 0
  {
    if |v| == 0 then [] else Pick(v[..|v| - 1], m, k) + (if (|v| - 1) % m == k then [v[|v| - 1]] else [])
  }

  /** What `Pick` keeps: exactly the values at the chosen indices. */
  lemma {:induction false} PickMembers(v: seq<real>, m: nat, k: nat)
    requires m > 0
    ensures forall x :: x in Pick(v, m, k) ==> exists j :: 0 <= j < |v| && j % m == k && v[j] == x
    ensures forall j :: 0 <= j < |v| && j % m == k ==> v[j] in Pick(v, m, k)
  {
    if |v| > 0 {
      var n := |v| - 1;
      var front := v[..n];
      PickMembers(front, m, k);
      forall x | x in Pick(front, m, k) ensures exists j :: 0 <= j < |v| && j % m == k && v[j] == x {
        var j :| 0 <= j < |front| && j % m == k && front[j] == x;
        assert v[j] == x;
      }
      forall j | 0 <= j < n && j % m == k ensures v[j] in Pick(v, m, k) {
        assert front[j] == v[j];
      }
    }
  }

  /** `a * x + b` applied to every element. */
  function Affine(s: seq<real>, a: real, b: real): (r: seq<real>)
    ensures |r| == |s| && forall i :: 0 <= i < |s| ==> r[i] == a * s[i] + b
  {
    seq(|s|, i requires 0 <= i < |s| => a * s[i] + b)
  }

  lemma AffineAppend(s: seq<real>, t: seq<real>, a: real, b: real)
    ensures Affine(s + t, a, b) == Affine(s, a, b) + Affine(t, a, b)
  {
    var l, r := Affine(s + t, a, b), Affine(s, a, b) + Affine(t, a, b);
    forall i | 0 <= i < |l| ensures l[i] == r[i] {
      AffineAppendAt(s, t, a, b, i);
    }
  }

  lemma AffineAppendAt(s: seq<real>, t: seq<real>, a: real, b: real, i: nat)
    requires i < |s| + |t|
    ensures Affine(s + t, a, b)[i] == (Affine(s, a, b) + Affine(t, a, b))[i]
  {
    if i < |s| {
      assert (s + t)[i] == s[i];
    } else {
      assert (s + t)[i] == t[i - |s|];
    }
  }

  /** The last step of `Pick`, mapped. */
  lemma PickStepAffine(v: seq<real>, w: seq<real>, n: nat, m: nat, k: nat, a: real, b: real)
    requires m > 0 && n < |v| == |w|
    requires n % m == k ==> w[n] == a * v[n] + b
    ensures Affine(if n % m == k then [v[n]] else [], a, b) == (if n % m == k then [w[n]] else [])
  {
    if n % m == k {
      assert Affine([v[n]], a, b)[0] == w[n];
    }
  }

  /** Picking commutes with a map applied to the picked values. */
  lemma {:induction false} PickAffine(v: seq<real>, w: seq<real>, m: nat, k: nat, a: real, b: real)
    requires m > 0 && |w| == |v|
    requires forall j :: 0 <= j < |v| && j % m == k ==> w[j] == a * v[j] + b
    ensures Pick(w, m, k) == Affine(Pick(v, m, k), a, b)
  {
    if |v| > 0 {
      var n := |v| - 1;
      var v', w' := v[..n], w[..n];
      forall j | 0 <= j < n && j % m == k ensures w'[j] == a * v'[j] + b {
        assert w'[j] == w[j] && v'[j] == v[j];
      }
      PickAffine(v', w', m, k, a, b);
      var tailV := if n % m == k then [v[n]] else [];
      var tailW := if n % m == k then [w[n]] else [];
      PickStepAffine(v, w, n, m, k, a, b);
      assert Pick(w, m, k) == Pick(w', m, k) + tailW;
      assert Pick(v, m, k) == Pick(v', m, k) + tailV;
      AffineAppend(Pick(v', m, k), tailV, a, b);
    }
  }

  lemma EvenResidues(j: nat)
    ensures j % 6 == 4 ==> j % 2 == 0
    ensures j % 6 == 5 ==> j % 2 == 1
    ensures j % 4 == 2 ==> j % 2 == 0
    ensures j % 4 == 3 ==> j % 2 == 1
  {
    if j % 6 == 4 {
      DivModUnique(j, 2, 3 * (j / 6) + 2, 0);
    }
    if j % 6 == 5 {
      DivModUnique(j, 2, 3 * (j / 6) + 2, 1);
    }
    if j % 4 == 2 {
      DivModUnique(j, 2, 2 * (j / 4) + 1, 0);
    }
    if j % 4 == 3 {
      DivModUnique(j, 2, 2 * (j / 4) + 1, 1);
    }
  }

  // ------------------------------------------------------ x and y values

  /** The box can read `c`: an arc has its radii and its end point. */
  predicate BoxReady(c: Command)
  {
    c.letter.kind == Arc ==> |c.values| >= 7
  }

  predicate AllBoxReady(q: Path)
  {
    forall i :: 0 <= i < |q| ==> BoxReady(q[i])
  }

  /** `getX`: the x values a command contributes to the box. */
  function GetX(c: Command): seq<real>
    requires BoxReady(c)
  {
    var v := c.values;
    match c.letter
    case Letter(Arc, _) => [v[5] - v[0], v[5] + v[0]]
    case Letter(HorizontalLineTo, false) => v
    case Letter(VerticalLineTo, false) => []
    case Letter(LineTo, _) => Pick(v, 2, 0)
    case Letter(CurveTo, _) => Pick(v, 6, 4)
    case Letter(QuadraticCurveTo, _) => Pick(v, 4, 2)
    case _ => Pick(v, 2, 0)
  }

  /** `getY`: the y values a command contributes to the box. */
  function GetY(c: Command): seq<real>
    requires BoxReady(c)
  {
    var v := c.values;
    match c.letter
    case Letter(Arc, _) => [v[6] - v[1], v[6] + v[1]]
    case Letter(HorizontalLineTo, false) => []
    case Letter(VerticalLineTo, false) => v
    case Letter(LineTo, _) => Pick(v, 2, 1)
    case Letter(CurveTo, _) => Pick(v, 6, 5)
    case Letter(QuadraticCurveTo, _) => Pick(v, 4, 3)
    case _ => Pick(v, 2, 1)
  }

  /** The modulus and the remainders `GetX` and `GetY` pick with, for an
      absolute command other than an arc, H or V. */
  function PickModulus(k: Kind): nat
  {
    if k == CurveTo then 6 else if k == QuadraticCurveTo then 4 else 2
  }

  function XResidue(k: Kind): nat
  {
    if k == CurveTo then 4 else if k == QuadraticCurveTo then 2 else 0
  }

  lemma PickedByResidue(c: Command)
    requires BoxReady(c) && !c.letter.relative
    requires c.letter.kind !in {Arc, HorizontalLineTo, VerticalLineTo}
    ensures var k := c.letter.kind;
      GetX(c) == Pick(c.values, PickModulus(k), XResidue(k))
      && GetY(c) == Pick(c.values, PickModulus(k), XResidue(k) + 1)
  {
  }

  /** Outside arcs, an absolute command contributes only x coordinates to
      the x values and only y coordinates to the y values. */
  lemma GetXYAreCoordinates(c: Command)
    requires BoxReady(c) && !c.letter.relative && c.letter.kind != Arc
    ensures forall x :: x in GetX(c) ==> exists j :: 0 <= j < |c.values| && Role(c.letter.kind, j) == XAxis && c.values[j] == x
    ensures forall y :: y in GetY(c) ==> exists j :: 0 <= j < |c.values| && Role(c.letter.kind, j) == YAxis && c.values[j] == y
  {
    var v := c.values;
    var k := c.letter.kind;
    if k == HorizontalLineTo {
      forall x | x in GetX(c) ensures exists j :: 0 <= j < |v| && Role(k, j) == XAxis && v[j] == x {
        var j :| 0 <= j < |v| && v[j] == x;
      }
    } else if k == VerticalLineTo {
      forall y | y in GetY(c) ensures exists j :: 0 <= j < |v| && Role(k, j) == YAxis && v[j] == y {
        var j :| 0 <= j < |v| && v[j] == y;
      }
    } else {
      var m, rx := PickModulus(k), XResidue(k);
      PickedByResidue(c);
      PickMembers(v, m, rx);
      PickMembers(v, m, rx + 1);
      forall x | x in GetX(c) ensures exists j :: 0 <= j < |v| && Role(k, j) == XAxis && v[j] == x {
        var j :| 0 <= j < |v| && j % m == rx && v[j] == x;
        EvenResidues(j);
      }
      forall y | y in GetY(c) ensures exists j :: 0 <= j < |v| && Role(k, j) == YAxis && v[j] == y {
        var j :| 0 <= j < |v| && j % m == rx + 1 && v[j] == y;
        EvenResidues(j);
      }
    }
  }

  /** The end point of an absolute single command other than an arc or a
      close-path is among its x values (unless it is a V, which keeps the x
      it starts from) and among its y values (unless it is an H). */
  lemma EndPointPicked(c: Command, cur: Point, start: Point)
    requires Single(c) && !c.letter.relative && c.letter.kind !in {Arc, ClosePath}
    ensures BoxReady(c) && HasEndPoint(c)
    ensures c.letter.kind != VerticalLineTo ==> EndPoint(c, cur, start).x in GetX(c)
    ensures c.letter.kind != HorizontalLineTo ==> EndPoint(c, cur, start).y in GetY(c)
  {
    var v := c.values;
    var k := c.letter.kind;
    if k == HorizontalLineTo {
      assert EndPoint(c, cur, start).x == v[0];
    } else if k == VerticalLineTo {
      assert EndPoint(c, cur, start).y == v[0];
    } else {
      var n, m, rx := |v|, PickModulus(k), XResidue(k);
      assert (n - 2) % m == rx && (n - 1) % m == rx + 1;
      PickedByResidue(c);
      PickMembers(v, m, rx);
      PickMembers(v, m, rx + 1);
      assert EndPoint(c, cur, start) == Point(v[n - 2], v[n - 1]);
    }
  }

  /** An absolute arc with non-negative radii ends between the two x values
      and between the two y values it contributes. */
  lemma ArcEndPointBetween(c: Command, cur: Point, start: Point)
    requires Single(c) && c.letter == Letter(Arc, false)
    requires c.values[0] >= 0.0 && c.values[1] >= 0.0
    ensures BoxReady(c) && HasEndPoint(c)
    ensures GetX(c)[0] <= EndPoint(c, cur, start).x <= GetX(c)[1]
    ensures GetY(c)[0] <= EndPoint(c, cur, start).y <= GetY(c)[1]
  {
  }

  // --------------------------------------------------------------- box

  /** Every x value of a path, command after command. */
  function AllX(q: Path): seq<real>
    requires AllBoxReady(q)
  {
    if |q| == 0 then [] else GetX(q[0]) + AllX(q[1..])
  }

  /** Every y value of a path, command after command. */
  function AllY(q: Path): seq<real>
    requires AllBoxReady(q)
  {
    if |q| == 0 then [] else GetY(q[0]) + AllY(q[1..])
  }

  /** The values of each command are among the values of the path. */
  lemma {:induction false} AllXYHas(q: Path, i: nat)
    requires AllBoxReady(q) && i < |q|
    ensures forall x :: x in GetX(q[i]) ==> x in AllX(q)
    ensures forall y :: y in GetY(q[i]) ==> y in AllY(q)
  {
    if i > 0 {
      assert q[1..][i - 1] == q[i];
      AllXYHas(q[1..], i - 1);
    }
  }

  /** `pathObject.some(isRelative)`. */
  predicate AnyRelative(p: Path)
  {
    exists i :: 0 <= i < |p| && p[i].letter.relative
  }

  /** The path the box is taken over: converted when any command is
      relative, as it is otherwise. */
  function Absolutized(p: Path): Path
    requires AnyRelative(p) ==> AllGrouped(p)
  {
    if AnyRelative(p) then ToAbsolute(p, Origin, Origin) else p
  }

  /** The box is defined: every arc is complete, and there is at least one x
      value and one y value. */
  predicate HasExtent(q: Path)
  {
    AllBoxReady(q) && |AllX(q)| > 0 && |AllY(q)| > 0
  }

  datatype Box = Box(x: real, y: real, width: real, height: real)

  /** `Math.min(...s)` of a non-empty list. */
  function Min(s: seq<real>): (m: real)
    requires |s| > 0
    ensures m in s && forall k :: 0 <= k < |s| ==> m <= s[k]
  {
    if |s| == 1 then s[0]
    else
      var m := Min(s[1..]);
      assert forall k :: 1 <= k < |s| ==> s[k] == s[1..][k - 1];
      if s[0] <= m then s[0] else m
  }

  /** `Math.max(...s)` of a non-empty list. */
  function Max(s: seq<real>): (m: real)
    requires |s| > 0
    ensures m in s && forall k :: 0 <= k < |s| ==> s[k] <= m
  {
    if |s| == 1 then s[0]
    else
      var m := Max(s[1..]);
      assert forall k :: 1 <= k < |s| ==> s[k] == s[1..][k - 1];
      if s[0] >= m then s[0] else m
  }

  /** `[lo, lo + len]` is the smallest interval holding every element of
      `s`: it holds them, and both its ends are elements. */
  predicate Spans(s: seq<real>, lo: real, len: real)
  {
    len >= 0.0 && lo in s && lo + len in s && Bounded(s, lo, lo + len)
  }

  /** Every element of `s` lies in `[lo, hi]`. */
  predicate Bounded(s: seq<real>, lo: real, hi: real)
    decreases |s|
  {
    |s| == 0 || (lo <= s[0] <= hi && Bounded(s[1..], lo, hi))
  }

  lemma {:induction false} BoundedAt(s: seq<real>, lo: real, hi: real, k: nat)
    requires Bounded(s, lo, hi) && k < |s|
    ensures lo <= s[k] <= hi
    decreases k
  {
    if k > 0 {
      BoundedAt(s[1..], lo, hi, k - 1);
    }
  }

  lemma {:induction false} BoundedIntro(s: seq<real>, lo: real, hi: real)
    requires forall k :: 0 <= k < |s| ==> lo <= s[k] <= hi
    ensures Bounded(s, lo, hi)
    decreases |s|
  {
    if |s| > 0 {
      assert forall k :: 0 <= k < |s| - 1 ==> s[1..][k] == s[k + 1];
      BoundedIntro(s[1..], lo, hi);
    }
  }

  lemma InSpan(s: seq<real>, lo: real, len: real, x: real)
    requires Spans(s, lo, len) && x in s
    ensures lo <= x <= lo + len
  {
    var k :| 0 <= k < |s| && s[k] == x;
    BoundedAt(s, lo, lo + len, k);
  }

  /** A list has one smallest interval. */
  lemma SpansUnique(s: seq<real>, lo: real, len: real, lo2: real, len2: real)
    requires Spans(s, lo, len) && Spans(s, lo2, len2)
    ensures lo == lo2 && len == len2
  {
    InSpan(s, lo, len, lo2);
    InSpan(s, lo2, len2, lo);
    InSpan(s, lo, len, lo2 + len2);
    InSpan(s, lo2, len2, lo + len);
  }

  /** `getBBoxObj`: the box of the (converted) path, the smallest one
      holding all its x values across and all its y values down. */
  function GetBBox(p: Path): (b: Box)
    requires AnyRelative(p) ==> AllGrouped(p)
    requires HasExtent(Absolutized(p))
    ensures Spans(AllX(Absolutized(p)), b.x, b.width) && Spans(AllY(Absolutized(p)), b.y, b.height)
  {
    var q := Absolutized(p);
    SpanBox(AllX(q), AllY(q))
  }

  /** The box from the least and the greatest x and y: it spans both lists. */
  function SpanBox(xs: seq<real>, ys: seq<real>): (b: Box)
    requires |xs| > 0 && |ys| > 0
    ensures Spans(xs, b.x, b.width) && Spans(ys, b.y, b.height)
  {
    BoundedIntro(xs, Min(xs), Min(xs) + (Max(xs) - Min(xs)));
    BoundedIntro(ys, Min(ys), Min(ys) + (Max(ys) - Min(ys)));
    Box(Min(xs), Min(ys), Max(xs) - Min(xs), Max(ys) - Min(ys))
  }

  /** The box holds the end point of every absolute single command (its x
      unless it is a V, its y unless it is an H), arcs with non-negative
      radii included. */
  lemma BoxHoldsEndPoints(q: Path, i: nat, cur: Point, start: Point)
    requires !AnyRelative(q) && HasExtent(q) && i < |q|
    requires Single(q[i]) && q[i].letter.kind != ClosePath
    requires q[i].letter.kind == Arc ==> q[i].values[0] >= 0.0 && q[i].values[1] >= 0.0
    ensures HasEndPoint(q[i])
    ensures var b, e := GetBBox(q), EndPoint(q[i], cur, start);
      (q[i].letter.kind != VerticalLineTo ==> b.x <= e.x <= b.x + b.width)
      && (q[i].letter.kind != HorizontalLineTo ==> b.y <= e.y <= b.y + b.height)
  {
    var c := q[i];
    assert Absolutized(q) == q;
    var b, xs, ys := GetBBox(q), AllX(q), AllY(q);
    AllXYHas(q, i);
    if c.letter.kind == Arc {
      assert !c.letter.relative;
      ArcEndPointBetween(c, cur, start);
      InSpan(xs, b.x, b.width, GetX(c)[0]);
      InSpan(xs, b.x, b.width, GetX(c)[1]);
      InSpan(ys, b.y, b.height, GetY(c)[0]);
      InSpan(ys, b.y, b.height, GetY(c)[1]);
    } else {
      EndPointPicked(c, cur, start);
      var e := EndPoint(c, cur, start);
      if c.letter.kind != VerticalLineTo {
        InSpan(xs, b.x, b.width, e.x);
      }
      if c.letter.kind != HorizontalLineTo {
        InSpan(ys, b.y, b.height, e.y);
      }
    }
  }

  // -------------------------------------------------------- transforms

  /** A value after a map that sends x coordinates to `kx * x + tx`, y
      coordinates to `ky * y + ty`, multiplies radii by `kx` or `ky` and
      keeps the rest. */
  function Moved(a: Axis, kx: real, tx: real, ky: real, ty: real, v: real): real
  {
    match a
    case XAxis => kx * v + tx
    case YAxis => ky * v + ty
    case RadiusX => kx * v
    case RadiusY => ky * v
    case Untouched => v
  }

  /** `c2` is `c` under such a map: same letter, each value moved by its
      role. */
  predicate CommandImage(c: Command, c2: Command, kx: real, tx: real, ky: real, ty: real)
  {
    c2.letter == c.letter && |c2.values| == |c.values|
    && forall j :: 0 <= j < |c.values| ==>
      c2.values[j] == Moved(Role(c.letter.kind, j), kx, tx, ky, ty, c.values[j])
  }

  /** `q2` is `q` under such a map, command for command. */
  predicate AffineImage(q: Path, q2: Path, kx: real, tx: real, ky: real, ty: real)
  {
    |q2| == |q| && forall i :: 0 <= i < |q| ==> CommandImage(q[i], q2[i], kx, tx, ky, ty)
  }

  /** The two values an arc contributes, `x - r` and `x + r`, move with
      its coordinate and its radius. */
  lemma AroundAffine(x: real, r: real, k: real, t: real, x2: real, r2: real)
    requires x2 == k * x + t && r2 == k * r
    ensures Affine([x - r, x + r], k, t) == [x2 - r2, x2 + r2]
  {
    var a := Affine([x - r, x + r], k, t);
    assert a[0] == k * (x - r) + t == x2 - r2;
    assert a[1] == k * (x + r) + t == x2 + r2;
  }

  lemma ArcAffine(c: Command, c2: Command, kx: real, tx: real, ky: real, ty: real)
    requires c.letter.kind == Arc && |c.values| >= 7 && CommandImage(c, c2, kx, tx, ky, ty)
    ensures BoxReady(c) && BoxReady(c2)
    ensures GetX(c2) == Affine(GetX(c), kx, tx) && GetY(c2) == Affine(GetY(c), ky, ty)
  {
    var v, w := c.values, c2.values;
    assert Role(Arc, 0) == RadiusX && Role(Arc, 1) == RadiusY && Role(Arc, 5) == XAxis && Role(Arc, 6) == YAxis;
    AroundAffine(v[5], v[0], kx, tx, w[5], w[0]);
    AroundAffine(v[6], v[1], ky, ty, w[6], w[1]);
    assert GetX(c) == [v[5] - v[0], v[5] + v[0]] && GetX(c2) == [w[5] - w[0], w[5] + w[0]];
    assert GetY(c) == [v[6] - v[1], v[6] + v[1]] && GetY(c2) == [w[6] - w[1], w[6] + w[1]];
  }

  lemma PickedAffine(c: Command, c2: Command, kx: real, tx: real, ky: real, ty: real)
    requires !c.letter.relative && c.letter.kind !in {Arc, HorizontalLineTo, VerticalLineTo}
    requires CommandImage(c, c2, kx, tx, ky, ty)
    ensures BoxReady(c) && BoxReady(c2)
    ensures GetX(c2) == Affine(GetX(c), kx, tx) && GetY(c2) == Affine(GetY(c), ky, ty)
  {
    var v, w := c.values, c2.values;
    var k := c.letter.kind;
    var m, rx := PickModulus(k), XResidue(k);
    forall j | 0 <= j < |v| && j % m == rx ensures w[j] == kx * v[j] + tx {
      EvenResidues(j);
    }
    forall j | 0 <= j < |v| && j % m == rx + 1 ensures w[j] == ky * v[j] + ty {
      EvenResidues(j);
    }
    PickedByResidue(c);
    PickedByResidue(c2);
    PickAffine(v, w, m, rx, kx, tx);
    PickAffine(v, w, m, rx + 1, ky, ty);
  }

  /** The x and y values of a moved absolute command are moved alike. */
  lemma GetXYAffine(c: Command, c2: Command, kx: real, tx: real, ky: real, ty: real)
    requires !c.letter.relative && BoxReady(c) && CommandImage(c, c2, kx, tx, ky, ty)
    ensures BoxReady(c2)
    ensures GetX(c2) == Affine(GetX(c), kx, tx) && GetY(c2) == Affine(GetY(c), ky, ty)
  {
    var k := c.letter.kind;
    if k == Arc {
      ArcAffine(c, c2, kx, tx, ky, ty);
    } else if k == HorizontalLineTo {
      assert GetX(c2) == Affine(GetX(c), kx, tx);
      assert GetY(c2) == Affine(GetY(c), ky, ty);
    } else if k == VerticalLineTo {
      assert GetX(c2) == Affine(GetX(c), kx, tx);
      assert GetY(c2) == Affine(GetY(c), ky, ty);
    } else {
      PickedAffine(c, c2, kx, tx, ky, ty);
    }
  }

  lemma {:induction false} AllXYAffine(q: Path, q2: Path, kx: real, tx: real, ky: real, ty: real)
    requires !AnyRelative(q) && AllBoxReady(q) && AffineImage(q, q2, kx, tx, ky, ty)
    ensures AllBoxReady(q2)
    ensures AllX(q2) == Affine(AllX(q), kx, tx) && AllY(q2) == Affine(AllY(q), ky, ty)
  {
    forall i | 0 <= i < |q| ensures BoxReady(q2[i]) {
      GetXYAffine(q[i], q2[i], kx, tx, ky, ty);
    }
    if |q| > 0 {
      GetXYAffine(q[0], q2[0], kx, tx, ky, ty);
      assert AffineImage(q[1..], q2[1..], kx, tx, ky, ty) by {
        forall i | 0 <= i < |q| - 1 ensures q2[1..][i] == q2[i + 1] && q[1..][i] == q[i + 1] {
        }
      }
      assert !AnyRelative(q[1..]) by {
        forall i | 0 <= i < |q| - 1 ensures !q[1..][i].letter.relative {
          assert q[1..][i] == q[i + 1];
        }
      }
      AllXYAffine(q[1..], q2[1..], kx, tx, ky, ty);
      AffineAppend(GetX(q[0]), AllX(q[1..]), kx, tx);
      AffineAppend(GetY(q[0]), AllY(q[1..]), ky, ty);
    }
  }

  /** A non-decreasing affine map keeps a value inside the mapped interval. */
  lemma AffineBetween(a: real, b: real, lo: real, len: real, x: real, y: real)
    requires a >= 0.0 && lo <= x <= lo + len && y == a * x + b
    ensures a * lo + b <= y <= (a * lo + b) + a * len
  {
    assert a * (x - lo) >= 0.0 && a * (lo + len - x) >= 0.0;
  }

  /** The image of the upper end is the image of the lower end plus the
      scaled length. */
  lemma AffineEnd(a: real, b: real, lo: real, len: real)
    ensures a * (lo + len) + b == (a * lo + b) + a * len
  {
  }

  lemma NonNegProduct(a: real, x: real)
    requires a >= 0.0 && x >= 0.0
    ensures a * x >= 0.0
  {
  }

  /** The image of a member of a list is a member of the mapped list. */
  lemma AffineMember(s: seq<real>, a: real, b: real, x: real, y: real)
    requires x in s && y == a * x + b
    ensures y in Affine(s, a, b)
  {
    var i :| 0 <= i < |s| && s[i] == x;
    assert Affine(s, a, b)[i] == y;
  }

  /** A non-decreasing affine map keeps a list inside the mapped bounds. */
  lemma AffineWithin(s: seq<real>, lo: real, len: real, a: real, b: real)
    requires a >= 0.0 && Bounded(s, lo, lo + len)
    ensures Bounded(Affine(s, a, b), a * lo + b, (a * lo + b) + a * len)
  {
    var t := Affine(s, a, b);
    forall k | 0 <= k < |t| ensures a * lo + b <= t[k] <= (a * lo + b) + a * len {
      AffineBoundAt(s, lo, len, a, b, k);
    }
    BoundedIntro(t, a * lo + b, (a * lo + b) + a * len);
  }

  lemma AffineBoundAt(s: seq<real>, lo: real, len: real, a: real, b: real, k: nat)
    requires a >= 0.0 && Bounded(s, lo, lo + len) && k < |s|
    ensures a * lo + b <= Affine(s, a, b)[k] <= (a * lo + b) + a * len
  {
    BoundedAt(s, lo, lo + len, k);
    AffineBetween(a, b, lo, len, s[k], Affine(s, a, b)[k]);
  }

  /** A non-decreasing affine map sends the smallest interval of a list to
      the smallest interval of the mapped list. */
  lemma SpansAffine(s: seq<real>, lo: real, len: real, a: real, b: real)
    requires Spans(s, lo, len) && a >= 0.0
    ensures Spans(Affine(s, a, b), a * lo + b, a * len)
  {
    NonNegProduct(a, len);
    AffineMember(s, a, b, lo, a * lo + b);
    AffineEnd(a, b, lo, len);
    AffineMember(s, a, b, lo + len, (a * lo + b) + a * len);
    AffineWithin(s, lo, len, a, b);
  }

  lemma SpanOfAffine(s: seq<real>, s2: seq<real>, lo: real, len: real, lo2: real, len2: real, a: real, b: real)
    requires Spans(s, lo, len) && Spans(s2, lo2, len2) && s2 == Affine(s, a, b) && a >= 0.0
    ensures lo2 == a * lo + b && len2 == a * len
  {
    SpansAffine(s, lo, len, a, b);
    SpansUnique(s2, lo2, len2, a * lo + b, a * len);
  }

  /** `b2` is `b` with x's sent to `kx * x + tx` and y's to `ky * y + ty`. */
  predicate Moves(b: Box, b2: Box, kx: real, tx: real, ky: real, ty: real)
  {
    b2.x == kx * b.x + tx && b2.y == ky * b.y + ty && b2.width == kx * b.width && b2.height == ky * b.height
  }

  /** Boxes spanning lists related by non-decreasing affine maps are related
      by the same maps. */
  lemma BoxOfSpans(xs: seq<real>, ys: seq<real>, xs2: seq<real>, ys2: seq<real>, b: Box, b2: Box,
                   kx: real, tx: real, ky: real, ty: real)
    requires Spans(xs, b.x, b.width) && Spans(ys, b.y, b.height)
    requires Spans(xs2, b2.x, b2.width) && Spans(ys2, b2.y, b2.height)
    requires xs2 == Affine(xs, kx, tx) && ys2 == Affine(ys, ky, ty) && kx >= 0.0 && ky >= 0.0
    ensures Moves(b, b2, kx, tx, ky, ty)
  {
    AcrossOfAffine(xs, xs2, b, b2, kx, tx);
    DownOfAffine(ys, ys2, b, b2, ky, ty);
  }

  lemma AcrossOfAffine(xs: seq<real>, xs2: seq<real>, b: Box, b2: Box, kx: real, tx: real)
    requires Spans(xs, b.x, b.width) && Spans(xs2, b2.x, b2.width) && xs2 == Affine(xs, kx, tx) && kx >= 0.0
    ensures b2.x == kx * b.x + tx && b2.width == kx * b.width
  {
    SpanOfAffine(xs, xs2, b.x, b.width, b2.x, b2.width, kx, tx);
  }

  lemma DownOfAffine(ys: seq<real>, ys2: seq<real>, b: Box, b2: Box, ky: real, ty: real)
    requires Spans(ys, b.y, b.height) && Spans(ys2, b2.y, b2.height) && ys2 == Affine(ys, ky, ty) && ky >= 0.0
    ensures b2.y == ky * b.y + ty && b2.height == ky * b.height
  {
    SpanOfAffine(ys, ys2, b.y, b.height, b2.y, b2.height, ky, ty);
  }

  /** The box of a path without relative commands, moved by a non-decreasing
      map on each axis, is the moved box. */
  lemma BoxAffine(q: Path, q2: Path, kx: real, tx: real, ky: real, ty: real)
    requires !AnyRelative(q) && HasExtent(q) && AffineImage(q, q2, kx, tx, ky, ty)
    requires kx >= 0.0 && ky >= 0.0
    ensures !AnyRelative(q2) && HasExtent(q2)
    ensures Moves(GetBBox(q), GetBBox(q2), kx, tx, ky, ty)
  {
    AllXYAffine(q, q2, kx, tx, ky, ty);
    assert !AnyRelative(q2) by {
      forall i | 0 <= i < |q2| ensures !q2[i].letter.relative {
        assert q2[i].letter == q[i].letter;
      }
    }
    assert Absolutized(q) == q && Absolutized(q2) == q2;
    BoxOfSpans(AllX(q), AllY(q), AllX(q2), AllY(q2), GetBBox(q), GetBBox(q2), kx, tx, ky, ty);
  }

  /** `translateObj(dx, dy)`: the path converted to absolute, then every x
      coordinate moved by `dx` and every y coordinate by `dy`; radii,
      rotations and flags are kept. */
  function Translate(p: Path, dx: real, dy: real): (r: Path)
    requires AllGrouped(p)
    ensures AffineImage(ToAbsolute(p, Origin, Origin), r, 1.0, dx, 1.0, dy)
  {
    var a := ToAbsolute(p, Origin, Origin);
    MapSeq((c: Command) => TranslateCommand(c, dx, dy), a)
  }

  /** One command of `translateObj`: its x coordinates moved by `dx` and its
      y coordinates by `dy`. */
  function TranslateCommand(c: Command, dx: real, dy: real): (c2: Command)
    ensures CommandImage(c, c2, 1.0, dx, 1.0, dy)
  {
    Command(c.letter, ApplyXY(d => d + dx, d => d + dy, None, None, c))
  }

  lemma AbsoluteHasNoRelative(p: Path)
    requires AllGrouped(p)
    ensures !AnyRelative(ToAbsolute(p, Origin, Origin)) && AllGrouped(ToAbsolute(p, Origin, Origin))
  {
    ToAbsoluteShape(p, Origin, Origin);
    SingleIsGrouped(ToAbsolute(p, Origin, Origin));
  }

  /** `b` moved by `(dx, dy)`, its size kept. */
  function Shifted(b: Box, dx: real, dy: real): Box
  {
    Box(b.x + dx, b.y + dy, b.width, b.height)
  }

  lemma MovesByOne(b: Box, b2: Box, dx: real, dy: real)
    requires Moves(b, b2, 1.0, dx, 1.0, dy)
    ensures b2 == Shifted(b, dx, dy)
  {
  }

  /** The box of a translated path is the box of the converted path, moved
      by the translation, with the same width and height. */
  lemma TranslateBox(p: Path, dx: real, dy: real)
    requires AllGrouped(p) && HasExtent(ToAbsolute(p, Origin, Origin))
    ensures !AnyRelative(ToAbsolute(p, Origin, Origin)) && !AnyRelative(Translate(p, dx, dy))
    ensures HasExtent(Translate(p, dx, dy))
    ensures GetBBox(Translate(p, dx, dy)) == Shifted(GetBBox(ToAbsolute(p, Origin, Origin)), dx, dy)
  {
    var a := ToAbsolute(p, Origin, Origin);
    AbsoluteHasNoRelative(p);
    BoxAffine(a, Translate(p, dx, dy), 1.0, dx, 1.0, dy);
    MovesByOne(GetBBox(a), GetBBox(Translate(p, dx, dy)), dx, dy);
  }

  lemma AbsolutizedIsAbsolute(p: Path)
    requires AllGrouped(p)
    ensures !AnyRelative(Absolutized(p)) && AllGrouped(Absolutized(p))
    ensures Absolutized(Absolutized(p)) == Absolutized(p)
  {
    if AnyRelative(p) {
      AbsoluteHasNoRelative(p);
    }
  }

  /** `centerObj`: the (converted) path translated so that its box is
      centred on the origin. */
  function Center(p: Path): Path
    requires AllGrouped(p) && HasExtent(Absolutized(p))
  {
    var q := Absolutized(p);
    AbsolutizedIsAbsolute(p);
    var b := GetBBox(q);
    Translate(q, CentreOffset(b.x, b.width), CentreOffset(b.y, b.height))
  }

  /** `-(2 * lo + len) / 2`: the move that centres `[lo, lo + len]` on zero. */
  function CentreOffset(lo: real, len: real): real
  {
    -(2.0 * lo + len) / 2.0
  }

  /** A box of the size of `b` whose centre is the origin. */
  function Centered(b: Box): Box
  {
    Box(-b.width / 2.0, -b.height / 2.0, b.width, b.height)
  }

  lemma ShiftedToCentre(b: Box)
    ensures Shifted(b, CentreOffset(b.x, b.width), CentreOffset(b.y, b.height)) == Centered(b)
  {
  }

  /** The box of a path is the box of the path it is taken over. */
  lemma BoxOfAbsolutized(p: Path)
    requires AllGrouped(p) && HasExtent(Absolutized(p))
    ensures !AnyRelative(Absolutized(p)) && HasExtent(Absolutized(Absolutized(p)))
    ensures GetBBox(Absolutized(p)) == GetBBox(p)
  {
    AbsolutizedIsAbsolute(p);
  }

  /** Converting the path the box is taken over changes nothing when
      every command of it is single. */
  lemma AbsolutizedIsFixed(p: Path)
    requires AllGrouped(p) && (AnyRelative(p) || AllSingle(p))
    ensures !AnyRelative(Absolutized(p)) && AllGrouped(Absolutized(p))
    ensures ToAbsolute(Absolutized(p), Origin, Origin) == Absolutized(p)
  {
    AbsolutizedIsAbsolute(p);
    if AnyRelative(p) {
      ToAbsoluteIdempotent(p, Origin, Origin, Origin, Origin);
    } else {
      ToAbsoluteOfAbsolute(p, Origin, Origin);
      ExpandFixpoint(p);
    }
  }

  /** When every command of the converted path is single, the centred path's
      box has the original width and height and its centre at the origin. */
  lemma CenterBox(p: Path)
    requires AllGrouped(p) && HasExtent(Absolutized(p))
    requires AnyRelative(p) || AllSingle(p)
    ensures HasExtent(Center(p)) && !AnyRelative(Center(p))
    ensures GetBBox(Center(p)) == Centered(GetBBox(p))
  {
    var q := Absolutized(p);
    AbsolutizedIsFixed(p);
    BoxOfAbsolutized(p);
    var b := GetBBox(q);
    TranslateBox(q, CentreOffset(b.x, b.width), CentreOffset(b.y, b.height));
    ShiftedToCentre(b);
  }

  /** What `if (!y) y = x` leaves for the y factor. */
  function FactorY(sx: real, sy: Option<real>): (fy: real)
    ensures sy.Some? && sy.value != 0.0 ==> fy == sy.value
    ensures sy.None? || sy.value == 0.0 ==> fy == sx
  {
    if sy.None? || sy.value == 0.0 then sx else sy.value
  }

  /** `scaleObj(sx, sy)`: every x coordinate and x radius multiplied by
      `sx`, every y coordinate and y radius by the y factor; the path is not
      converted and keeps its letters. */
  function Scale(p: Path, sx: real, sy: Option<real>): (r: Path)
    ensures AffineImage(p, r, sx, 0.0, FactorY(sx, sy), 0.0)
  {
    MapSeq((c: Command) => ScaleCommand(c, sx, FactorY(sx, sy)), p)
  }

  /** One command of `scaleObj`: x coordinates and horizontal radii times
      `sx`, y coordinates and vertical radii times `sy`. */
  function ScaleCommand(c: Command, sx: real, sy: real): (c2: Command)
    ensures CommandImage(c, c2, sx, 0.0, sy, 0.0)
  {
    Command(c.letter, ApplyXY(d => d * sx, d => d * sy, Some(d => d * sx), Some(d => d * sy), c))
  }

  /** Scaling a path without relative commands by non-negative factors
      scales its box. */
  lemma ScaleBox(p: Path, sx: real, sy: Option<real>)
    requires !AnyRelative(p) && HasExtent(p) && sx >= 0.0 && FactorY(sx, sy) >= 0.0
    ensures !AnyRelative(Scale(p, sx, sy)) && HasExtent(Scale(p, sx, sy))
    ensures Moves(GetBBox(p), GetBBox(Scale(p, sx, sy)), sx, 0.0, FactorY(sx, sy), 0.0)
  {
    BoxAffine(p, Scale(p, sx, sy), sx, 0.0, FactorY(sx, sy), 0.0);
  }

  /** `Math.min(w / width, h / height)`: the one factor `sizeObj` scales by. */
  function SizeRatio(b: Box, w: real, h: real): real
    requires b.width > 0.0 && b.height > 0.0
  {
    var rw, rh := w / b.width, h / b.height;
    if rw <= rh then rw else rh
  }

  /** `sizeObj(w, h)`: the path scaled by one factor so that its box fits a
      `w` by `h` frame. */
  function Size(p: Path, w: real, h: real): Path
    requires (AnyRelative(p) ==> AllGrouped(p)) && HasExtent(Absolutized(p))
    requires GetBBox(p).width > 0.0 && GetBBox(p).height > 0.0
  {
    Scale(p, SizeRatio(GetBBox(p), w, h), None)
  }

  /** `s` fits a `w` by `h` frame, fills it across or down, and has the
      aspect ratio of `b`. */
  predicate Fits(b: Box, s: Box, w: real, h: real)
  {
    s.width <= w && s.height <= h && (s.width == w || s.height == h)
    && s.width * b.height == s.height * b.width
  }

  lemma RatioNonNegative(b: Box, w: real, h: real)
    requires b.width > 0.0 && b.height > 0.0 && w >= 0.0 && h >= 0.0
    ensures SizeRatio(b, w, h) >= 0.0
  {
    assert w / b.width >= 0.0 && h / b.height >= 0.0;
  }

  lemma RatioFits(b: Box, s: Box, w: real, h: real)
    requires b.width > 0.0 && b.height > 0.0 && w >= 0.0 && h >= 0.0
    requires Moves(b, s, SizeRatio(b, w, h), 0.0, SizeRatio(b, w, h), 0.0)
    ensures Fits(b, s, w, h)
  {
    var rw, rh := w / b.width, h / b.height;
    assert rw >= 0.0 && rh >= 0.0;
    assert rw * b.width == w && rh * b.height == h;
    if rw <= rh {
      assert rw * b.height <= rh * b.height;
    } else {
      assert rh * b.width <= rw * b.width;
    }
  }

  /** A sized path without relative commands fits the frame, fills it in
      one direction and keeps its aspect ratio. */
  lemma SizeFits(p: Path, w: real, h: real)
    requires !AnyRelative(p) && HasExtent(p) && w >= 0.0 && h >= 0.0
    requires GetBBox(p).width > 0.0 && GetBBox(p).height > 0.0
    ensures !AnyRelative(Size(p, w, h)) && HasExtent(Size(p, w, h))
    ensures Fits(GetBBox(p), GetBBox(Size(p, w, h)), w, h)
  {
    var b := GetBBox(p);
    var ratio := SizeRatio(b, w, h);
    RatioNonNegative(b, w, h);
    ScaleBox(p, ratio, None);
    RatioFits(b, GetBBox(Size(p, w, h)), w, h);
  }
}
