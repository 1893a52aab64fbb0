/** Commands of the SVG path data grammar (SVG 1.1, section 8.3): the twenty
    command letters, the table of parameter counts, and the command record
    `{type, values}` that every transform of the toolkit consumes and produces. */
module PathData {

  datatype Option<T> = None | Some(value: T)

  /** The ten kinds of path command; with its case, a kind is one of the
      twenty command letters M m L l H h V v C c S s Q q T t A a Z z. */
  datatype Kind =
    | MoveTo | LineTo | HorizontalLineTo | VerticalLineTo | CurveTo
    | SmoothCurveTo | QuadraticCurveTo | SmoothQuadraticCurveTo | Arc | ClosePath

  /** A command letter: lower case letters take coordinates relative to the
      current point. */
  datatype Letter = Letter(kind: Kind, relative: bool)

  /** One parsed command: its letter and its numeric parameters. */
  datatype Command = Command(letter: Letter, values: seq<real>)

  type Path = seq<Command>

  datatype Point = Point(x: real, y: real)

  const Origin := Point(0.0, 0.0)

  /** The upper case letter of a kind. */
  function UpperChar(k: Kind): char
  {
    match k
    case MoveTo => 'M'
    case LineTo => 'L'
    case HorizontalLineTo => 'H'
    case VerticalLineTo => 'V'
    case CurveTo => 'C'
    case SmoothCurveTo => 'S'
    case QuadraticCurveTo => 'Q'
    case SmoothQuadraticCurveTo => 'T'
    case Arc => 'A'
    case ClosePath => 'Z'
  }

  /** The character that spells a letter in path data. */
  function LetterChar(l: Letter): (c: char)
    ensures l.relative <==> 'a' <= c <= 'z'
    ensures !l.relative <==> 'A' <= c <= 'Z'
  {
    if l.relative then (UpperChar(l.kind) as int + 32) as char else UpperChar(l.kind)
  }

  /** The twenty characters the tokenizer cuts before. */
  predicate IsCommandLetter(c: char)
  {
    c in {'M', 'm', 'L', 'l', 'H', 'h', 'V', 'v', 'C', 'c', 'S', 's', 'A', 'a', 'Q', 'q', 'T', 't', 'Z', 'z'}
  }

  /** Reads a command letter back from its character. */
  function FromChar(c: char): (r: Option<Letter>)
    ensures r.Some? <==> IsCommandLetter(c)
    ensures r.Some? ==> LetterChar(r.value) == c
  {
    match c
    case 'M' => Some(Letter(MoveTo, false))
    case 'm' => Some(Letter(MoveTo, true))
    case 'L' => Some(Letter(LineTo, false))
    case 'l' => Some(Letter(LineTo, true))
    case 'H' => Some(Letter(HorizontalLineTo, false))
    case 'h' => Some(Letter(HorizontalLineTo, true))
    case 'V' => Some(Letter(VerticalLineTo, false))
    case 'v' => Some(Letter(VerticalLineTo, true))
    case 'C' => Some(Letter(CurveTo, false))
    case 'c' => Some(Letter(CurveTo, true))
    case 'S' => Some(Letter(SmoothCurveTo, false))
    case 's' => Some(Letter(SmoothCurveTo, true))
    case 'Q' => Some(Letter(QuadraticCurveTo, false))
    case 'q' => Some(Letter(QuadraticCurveTo, true))
    case 'T' => Some(Letter(SmoothQuadraticCurveTo, false))
    case 't' => Some(Letter(SmoothQuadraticCurveTo, true))
    case 'A' => Some(Letter(Arc, false))
    case 'a' => Some(Letter(Arc, true))
    case 'Z' => Some(Letter(ClosePath, false))
    case 'z' => Some(Letter(ClosePath, true))
    case _ => None
  }

  /** Every letter is spelt by a command character that reads back as itself. */
  lemma LetterCharRoundTrip(l: Letter)
    ensures IsCommandLetter(LetterChar(l))
    ensures FromChar(LetterChar(l)) == Some(l)
  {
    match l.kind
    case MoveTo =>
    case LineTo =>
    case HorizontalLineTo =>
    case VerticalLineTo =>
    case CurveTo =>
    case SmoothCurveTo =>
    case QuadraticCurveTo =>
    case SmoothQuadraticCurveTo =>
    case Arc =>
    case ClosePath =>
  }

  /** The parameter-count table: how many numbers one instance of a command
      consumes. Close-path has no entry. */
  function ParamLength(k: Kind): (n: nat)
    requires k != ClosePath
    ensures 1 <= n <= 7
    ensures n == 1 <==> k == HorizontalLineTo || k == VerticalLineTo
    ensures n != 1 ==> n % 2 == 0 || k == Arc
  {
    match k
    case MoveTo => 2
    case LineTo => 2
    case HorizontalLineTo => 1
    case VerticalLineTo => 1
    case CurveTo => 6
    case SmoothCurveTo => 4
    case QuadraticCurveTo => 4
    case SmoothQuadraticCurveTo => 2
    case Arc => 7
  }

  /** A command is relative when its type letter is lower case. */
  function IsRelative(c: Command): (r: bool)
    ensures r <==> 'a' <= LetterChar(c.letter) <= 'z'
  {
    c.letter.relative
  }

  /** The upper case form of a letter. */
  function ToUpper(l: Letter): (u: Letter)
    ensures !u.relative && u.kind == l.kind
    ensures LetterChar(u) == if 'a' <= LetterChar(l) <= 'z' then (LetterChar(l) as int - 32) as char else LetterChar(l)
  {
    Letter(l.kind, false)
  }

  /** Well-formed input: close-path carries no values, every other command a
      positive whole number of parameter groups. */
  predicate Grouped(c: Command)
  {
    if c.letter.kind == ClosePath then |c.values| == 0
    else |c.values| > 0 && |c.values| % ParamLength(c.letter.kind) == 0
  }

  /** Exactly one parameter group (or none, for close-path). */
  predicate Single(c: Command)
  {
    if c.letter.kind == ClosePath then |c.values| == 0
    else |c.values| == ParamLength(c.letter.kind)
  }

  predicate AllGrouped(p: Path)
  {
    forall i :: 0 <= i < |p| ==> Grouped(p[i])
  }

  predicate AllSingle(p: Path)
  {
    forall i :: 0 <= i < |p| ==> Single(p[i])
  }

  lemma SingleIsGrouped(p: Path)
    requires AllSingle(p)
    ensures AllGrouped(p)
  {
    forall i | 0 <= i < |p| ensures Grouped(p[i]) {
      var n := if p[i].letter.kind == ClosePath then 1 else ParamLength(p[i].letter.kind);
      assert p[i].letter.kind != ClosePath ==> |p[i].values| == n;
    }
  }

  /** `f` applied to every element, in order. */
  function MapSeq<A, B>(f: A -> B, s: seq<A>): (r: seq<B>)
    ensures |r| == |s| && forall i :: 0 <= i < |s| ==> r[i] == f(s[i])
  {
    seq(|s|, i requires 0 <= i < |s| => f(s[i]))
  }

  /** Concatenation of a sequence of sequences. */
  function Flatten<T>(ss: seq<seq<T>>): seq<T>
  {
    if |ss| == 0 then [] else ss[0] + Flatten(ss[1..])
  }

  lemma {:induction false} FlattenAppend<T>(a: seq<seq<T>>, b: seq<seq<T>>)
    ensures Flatten(a + b) == Flatten(a) + Flatten(b)
  {
    if |a| == 0 {
      assert a + b == b;
    } else {
      assert (a + b)[1..] == a[1..] + b;
      FlattenAppend(a[1..], b);
    }
  }
}
