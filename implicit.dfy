/** Implicit-command expansion: a command followed by several parameter groups
    stands for one command per group (SVG 1.1, section 8.3.2); the groups after
    a moveto are implicit linetos. */
module Implicit {
  import opened PathData

  /** `values` cut into consecutive slices of `n`, the last one possibly shorter. */
  function Chunks(values: seq<real>, n: nat): (r: seq<seq<real>>)
    requires n > 0
    ensures |values| == 0 <==> |r| == 0
    decreases |values|
  {
    if |values| == 0 then []
    else if |values| <= n then [values]
    else
      var rest := Chunks(values[n..], n);
      [values[..n]] + rest
  }

  /** Chunking loses and reorders nothing. */
  lemma {:induction false} ChunksFlatten(values: seq<real>, n: nat)
    requires n > 0
    ensures Flatten(Chunks(values, n)) == values
    decreases |values|
  {
    if |values| > n {
      ChunksFlatten(values[n..], n);
      assert values == values[..n] + values[n..];
    }
  }

  /** Every chunk holds between one and `n` values, every chunk but the last
      exactly `n`, and when the count is a multiple of `n` the last one too. */
  lemma {:induction false} ChunksSizes(values: seq<real>, n: nat)
    requires n > 0
    ensures forall i :: 0 <= i < |Chunks(values, n)| ==> 0 < |Chunks(values, n)[i]| <= n
    ensures forall i :: 0 <= i < |Chunks(values, n)| - 1 ==> |Chunks(values, n)[i]| == n
    ensures |values| % n == 0 ==> forall i :: 0 <= i < |Chunks(values, n)| ==> |Chunks(values, n)[i]| == n
    decreases |values|
  {
    if |values| > n {
      ModSub(|values|, n);
      ChunksSizes(values[n..], n);
    }
  }

  lemma ModSub(a: int, n: int)
    requires n > 0 && a >= n
    ensures (a - n) % n == a % n
  {
    var q, r := (a - n) / n, (a - n) % n;
    assert a == n * (q + 1) + r;
    DivModUnique(a, n, q + 1, r);
  }

  lemma DivModUnique(a: int, n: int, q: int, r: int)
    requires n > 0 && 0 <= r < n && a == n * q + r
    ensures a % n == r
  {
    var q', r' := a / n, a % n;
    assert n * q - n * q' == r' - r;
    if q > q' {
      MulAtLeast(n, q - q');
      assert false;
    } else if q < q' {
      MulAtLeast(n, q' - q);
      assert false;
    }
  }

  lemma {:induction false} MulAtLeast(n: int, k: int)
    requires n > 0 && k >= 1
    ensures n * k >= n
  {
    if k > 1 {
      MulAtLeast(n, k - 1);
      assert n * k == n * (k - 1) + n;
    }
  }

  /** The loop that slices the values, one group per step. */
  method ChunkValues(values: seq<real>, n: nat) returns (chunks: seq<seq<real>>)
    requires n > 0
    ensures chunks == Chunks(values, n)
  {
    chunks := [];
    var i := 0;
    while i < |values|
      invariant chunks + Chunks(Drop(values, i), n) == Chunks(values, n)
      decreases |values| - i
    {
      var end := if i + n < |values| then i + n else |values|;
      ChunksStep(values, i, n);
      chunks := chunks + [values[i..end]];
      i := i + n;
    }
  }

  /** One step of the loop: the chunks from `i` on are the slice at `i`
      followed by the chunks from `i + n` on. */
  lemma ChunksStep(values: seq<real>, i: nat, n: nat)
    requires n > 0 && i < |values|
    ensures Chunks(Drop(values, i), n)
         == [values[i..if i + n < |values| then i + n else |values|]] + Chunks(Drop(values, i + n), n)
  {
    var rest := values[i..];
    assert Drop(values, i) == rest;
    if i + n < |values| {
      assert rest[n..] == Drop(values, i + n);
      assert rest[..n] == values[i..i + n];
    } else {
      assert Drop(values, i + n) == [];
      assert 0 < |rest| <= n;
      assert Chunks(rest, n) == [rest];
      assert values[i..|values|] == rest;
      assert Chunks(Drop(values, i + n), n) == [];
    }
  }

  /** The values from index `i` on; none once `i` is past the end. */
  function Drop(values: seq<real>, i: nat): seq<real>
  {
    if i >= |values| then [] else values[i..]
  }

  /** The type given to the groups after the first. */
  function Continuation(l: Letter): (r: Letter)
    ensures r.relative == l.relative
    ensures r.kind == if l.kind == MoveTo then LineTo else l.kind
  {
    if l.kind == MoveTo then Letter(LineTo, l.relative) else l
  }

  /** The commands one command stands for. */
  function ExpandOne(c: Command): (r: Path)
    ensures |r| >= 1 && r[0].letter == c.letter
    ensures forall i :: 1 <= i < |r| ==> r[i].letter == Continuation(c.letter)
    ensures |c.values| == 0 ==> r == [c]
    ensures c.letter.kind == ClosePath ==> r == [Command(c.letter, [])]
    ensures c.letter.kind != ClosePath ==> Flatten(ValuesOf(r)) == c.values
    ensures c.letter.kind != ClosePath ==>
      forall i :: 0 <= i < |r| ==> |r[i].values| <= ParamLength(c.letter.kind)
    ensures Grouped(c) ==> forall i :: 0 <= i < |r| ==> Single(r[i])
    ensures forall i :: 0 <= i < |r| ==> Expanded(r[i])
  {
    if |c.values| == 0 then [c]
    else if c.letter.kind == ClosePath then [Command(c.letter, [])]
    else
      var chunks := Chunks(c.values, ParamLength(c.letter.kind));
      var r := seq(|chunks|, i requires 0 <= i < |chunks| =>
        Command(if i == 0 then c.letter else Continuation(c.letter), chunks[i]));
      assert ValuesOf(r) == chunks;
      ChunksFlatten(c.values, ParamLength(c.letter.kind));
      ChunksSizes(c.values, ParamLength(c.letter.kind));
      r
  }

  function ValuesOf(p: Path): (r: seq<seq<real>>)
    ensures |r| == |p| && forall i :: 0 <= i < |p| ==> r[i] == p[i].values
  {
    seq(|p|, i requires 0 <= i < |p| => p[i].values)
  }

  /** A command that expansion leaves as it is: at most one group. */
  predicate Expanded(c: Command)
  {
    if c.letter.kind == ClosePath then |c.values| == 0
    else |c.values| <= ParamLength(c.letter.kind)
  }

  /** The whole path with every command expanded in place. */
  function ExpandImplicit(p: Path): (r: Path)
    ensures |r| >= |p|
    ensures |p| > 0 ==> |r| > 0 && r[0].letter == p[0].letter
    ensures forall i :: 0 <= i < |r| ==> Expanded(r[i])
    ensures AllGrouped(p) ==> AllSingle(r)
  {
    if |p| == 0 then [] else ExpandOne(p[0]) + ExpandImplicit(p[1..])
  }

  lemma ExpandedIsFixed(c: Command)
    requires Expanded(c)
    ensures ExpandOne(c) == [c]
  {
    if |c.values| > 0 && c.letter.kind != ClosePath {
      var chunks := Chunks(c.values, ParamLength(c.letter.kind));
      assert chunks == [c.values];
    }
  }

  /** A path of expanded commands is left unchanged by expansion. */
  lemma {:induction false} ExpandFixpoint(p: Path)
    requires forall i :: 0 <= i < |p| ==> Expanded(p[i])
    ensures ExpandImplicit(p) == p
  {
    if |p| > 0 {
      ExpandedIsFixed(p[0]);
      ExpandFixpoint(p[1..]);
      assert p == [p[0]] + p[1..];
    }
  }

  /** Expanding twice is expanding once. */
  lemma ExpandIdempotent(p: Path)
    ensures ExpandImplicit(ExpandImplicit(p)) == ExpandImplicit(p)
  {
    ExpandFixpoint(ExpandImplicit(p));
  }

  /** Expansion works command by command. */
  lemma {:induction false} ExpandAppend(a: Path, b: Path)
    ensures ExpandImplicit(a + b) == ExpandImplicit(a) + ExpandImplicit(b)
  {
    if |a| == 0 {
      assert a + b == b;
      assert [] + ExpandImplicit(b) == ExpandImplicit(b);
    } else {
      assert (a + b)[1..] == a[1..] + b;
      ExpandAppend(a[1..], b);
    }
  }

  /** The values of every input command survive expansion in order: the
      flattened values of the output are those of the input, when the input
      has no close-path carrying values. */
  lemma {:induction false} ExpandKeepsValues(p: Path)
    requires forall i :: 0 <= i < |p| ==> p[i].letter.kind != ClosePath || |p[i].values| == 0
    ensures Flatten(ValuesOf(ExpandImplicit(p))) == Flatten(ValuesOf(p))
  {
    if |p| > 0 {
      ExpandKeepsValues(p[1..]);
      var e := ExpandOne(p[0]);
      assert ValuesOf(ExpandOne(p[0]) + ExpandImplicit(p[1..])) == ValuesOf(e) + ValuesOf(ExpandImplicit(p[1..]));
      FlattenAppend(ValuesOf(e), ValuesOf(ExpandImplicit(p[1..])));
      assert ValuesOf(p) == [p[0].values] + ValuesOf(p[1..]);
      if p[0].letter.kind == ClosePath {
        assert Flatten(ValuesOf(e)) == [];
      }
    }
  }
}
