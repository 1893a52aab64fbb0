/** The serializer: a command list back to path data text. Each command is
    written as its letter followed by its numbers joined with single spaces,
    and the commands are concatenated with nothing between them. */
module Serializer {
  import opened PathData
  import opened Tokenizer

  /** `parts.join(sep)`. */
  function Join(parts: seq<string>, sep: string): (r: string)
    ensures |parts| == 0 ==> r == ""
    ensures |parts| == 1 ==> r == parts[0]
  {
    if |parts| == 0 then "" else if |parts| == 1 then parts[0] else parts[0] + sep + Join(parts[1..], sep)
  }

  /** Joining letter-free parts with a letter-free separator gives a
      letter-free text. */
  lemma {:induction false} JoinNoLetter(parts: seq<string>, sep: string)
    requires forall i :: 0 <= i < |parts| ==> NoLetter(parts[i])
    requires NoLetter(sep)
    ensures NoLetter(Join(parts, sep))
  {
    if |parts| > 1 {
      JoinNoLetter(parts[1..], sep);
    }
  }

  /** A printer that writes no command letter writes none in a list of
      numbers. */
  lemma NumbersNoLetter(values: seq<real>, show: real -> string)
    requires forall i :: 0 <= i < |values| ==> NoLetter(show(values[i]))
    ensures NoLetter(Join(MapSeq(show, values), " "))
  {
    JoinNoLetter(MapSeq(show, values), " ");
  }

  /** `show` writes no command letter for any number of `p`. */
  predicate PrintsNoLetter(p: Path, show: real -> string)
  {
    forall i, j :: 0 <= i < |p| && 0 <= j < |p[i].values| ==> NoLetter(show(p[i].values[j]))
  }

  /** `d.type + d.values.join(" ")`, numbers printed by `show`. */
  function CommandText(c: Command, show: real -> string): (r: string)
    ensures |r| >= 1 && r[0] == LetterChar(c.letter)
  {
    [LetterChar(c.letter)] + Join(MapSeq(show, c.values), " ")
  }

  /** `stringify`: the texts of the commands, concatenated. Only the empty
      path gives the empty text, and the text starts with the first letter. */
  function Stringify(p: Path, show: real -> string): (r: string)
    ensures |r| == 0 <==> |p| == 0
    ensures |p| > 0 ==> r[0] == LetterChar(p[0].letter)
  {
    if |p| == 0 then "" else CommandText(p[0], show) + Stringify(p[1..], show)
  }

  /** Serializing works command by command. */
  lemma {:induction false} StringifyAppend(a: Path, b: Path, show: real -> string)
    ensures Stringify(a + b, show) == Stringify(a, show) + Stringify(b, show)
  {
    if |a| == 0 {
      assert a + b == b;
    } else {
      assert (a + b)[0] == a[0] && (a + b)[1..] == a[1..] + b;
      StringifyAppend(a[1..], b, show);
    }
  }

  /** The letters of a path, spelt out. */
  function TypeString(p: Path): (r: string)
    ensures |r| == |p| && forall i :: 0 <= i < |p| ==> r[i] == LetterChar(p[i].letter)
  {
    MapSeq((c: Command) => LetterChar(c.letter), p)
  }

  /** The only command letters in the text of a path are its command types,
      in order. */
  lemma {:induction false} StringifyLetters(p: Path, show: real -> string)
    requires PrintsNoLetter(p, show)
    ensures Letters(Stringify(p, show)) == TypeString(p)
  {
    if |p| > 0 {
      var c := p[0];
      var numbers := Join(MapSeq(show, c.values), " ");
      NumbersNoLetter(c.values, show);
      NoLetters(numbers);
      LettersAppend([LetterChar(c.letter)], numbers);
      LettersAppend(CommandText(c, show), Stringify(p[1..], show));
      StringifyLetters(p[1..], show);
      LetterCharRoundTrip(c.letter);
      assert Letters([LetterChar(c.letter)]) == [LetterChar(c.letter)];
      assert TypeString(p) == [LetterChar(c.letter)] + TypeString(p[1..]);
    }
  }

  /** Reading back the text of a non-empty path gives one command per
      command of the path, each with that command's letter for its type. */
  lemma ParseStringifyTypes(p: Path, show: real -> string, num: string -> real)
    requires |p| > 0 && PrintsNoLetter(p, show)
    ensures |Parse(Stringify(p, show), num)| == |p|
    ensures forall i :: 0 <= i < |p| ==> Parse(Stringify(p, show), num)[i].tag == [LetterChar(p[i].letter)]
  {
    var s := Stringify(p, show);
    LetterCharRoundTrip(p[0].letter);
    LetterIsNoSpace(s[0]);
    TrimKeepsLetters(s);
    StringifyLetters(p, show);
    ParseTypes(s, num);
  }

  /** A raw command read as a typed one: its type must be a single command
      letter; an empty chunk or any other character gives nothing. */
  function Typed(raw: RawCommand): (r: Option<Command>)
    ensures r.Some? <==> |raw.tag| == 1 && IsCommandLetter(raw.tag[0])
    ensures r.Some? ==> raw.tag == [LetterChar(r.value.letter)] && r.value.values == raw.values
  {
    if |raw.tag| == 1 && FromChar(raw.tag[0]).Some? then Some(Command(FromChar(raw.tag[0]).value, raw.values))
    else None
  }

  /** Reading back the text of a non-empty path and typing each raw command
      gives the path's own letters, one per command. */
  lemma ParseStringifyTyped(p: Path, show: real -> string, num: string -> real)
    requires |p| > 0 && PrintsNoLetter(p, show)
    ensures |Parse(Stringify(p, show), num)| == |p|
    ensures forall i :: 0 <= i < |p| ==>
      Typed(Parse(Stringify(p, show), num)[i]).Some? && Typed(Parse(Stringify(p, show), num)[i]).value.letter == p[i].letter
  {
    ParseStringifyTypes(p, show, num);
    forall i | 0 <= i < |p|
      ensures Typed(Parse(Stringify(p, show), num)[i]).Some?
      ensures Typed(Parse(Stringify(p, show), num)[i]).value.letter == p[i].letter
    {
      LetterCharRoundTrip(p[i].letter);
    }
  }

  /** The empty path writes the empty text, which reads back as a single
      command with an empty type and no values. */
  lemma ParseStringifyEmpty(show: real -> string, num: string -> real)
    ensures Parse(Stringify([], show), num) == [RawCommand("", [])]
  {
    assert Trim("") == "";
    assert SplitBeforeLetters("") == [""];
    assert Payload("") == [] by {
      TokensOfRun("");
    }
  }
}
