/** The tokenizer: path data text to raw commands. The text is trimmed, cut
    before every command letter, and each chunk's payload is separated into
    number tokens: concatenated decimals such as `1.5.3` and concatenated
    negatives such as `1-2` are pulled apart, then the payload is split on
    whitespace and commas. */
module Tokenizer {
  import opened PathData

  /** JavaScript's white space and line terminators: what `trim` removes and
      what `\s` matches. */
  predicate IsSpace(c: char)
  {
    c == ' ' || c == '\t' || c == '\n' || c == '\r' || c == '\U{000B}' || c == '\U{000C}'
    || c == '\U{00A0}' || c == '\U{1680}' || ('\U{2000}' <= c <= '\U{200A}')
    || c == '\U{2028}' || c == '\U{2029}' || c == '\U{202F}' || c == '\U{205F}'
    || c == '\U{3000}' || c == '\U{FEFF}'
  }

  predicate AllSpaces(s: string)
  {
    forall i :: 0 <= i < |s| ==> IsSpace(s[i])
  }

  predicate IsDigit(c: char)
  {
    '0' <= c <= '9'
  }

  // ---------------------------------------------------------------- trim

  /** One leading space cut: what the rest keeps, the whole keeps. */
  lemma TrimStartStep(s: string, r: string)
    requires |s| > 0 && IsSpace(s[0])
    requires |r| <= |s| - 1 && r == s[1..][|s| - 1 - |r|..] && AllSpaces(s[1..][..|s| - 1 - |r|])
    ensures r == s[|s| - |r|..] && AllSpaces(s[..|s| - |r|])
  {
    assert s[..|s| - |r|] == [s[0]] + s[1..][..|s| - 1 - |r|];
  }

  /** `s` without its leading white space. */
  function TrimStart(s: string): (r: string)
    ensures |r| <= |s| && r == s[|s| - |r|..]
    ensures AllSpaces(s[..|s| - |r|])
    ensures |r| == 0 || !IsSpace(r[0])
  {
    if |s| > 0 && IsSpace(s[0]) then
      var r := TrimStart(s[1..]);
      TrimStartStep(s, r);
      r
    else s
  }

  /** One trailing space cut: what the rest keeps, the whole keeps. */
  lemma TrimEndStep(s: string, r: string)
    requires |s| > 0 && IsSpace(s[|s| - 1])
    requires |r| <= |s| - 1 && r == s[..|s| - 1][..|r|] && AllSpaces(s[..|s| - 1][|r|..])
    ensures r == s[..|r|] && AllSpaces(s[|r|..])
  {
    assert s[|r|..] == s[..|s| - 1][|r|..] + [s[|s| - 1]];
  }

  /** `s` without its trailing white space. */
  function TrimEnd(s: string): (r: string)
    ensures |r| <= |s| && r == s[..|r|]
    ensures AllSpaces(s[|r|..])
    ensures |r| == 0 || !IsSpace(r[|r| - 1])
  {
    if |s| > 0 && IsSpace(s[|s| - 1]) then
      var r := TrimEnd(s[..|s| - 1]);
      TrimEndStep(s, r);
      r
    else s
  }

  /** `d.trim()`. */
  function Trim(s: string): string
  {
    TrimEnd(TrimStart(s))
  }

  /** Trimming text that starts with a non-space keeps its first character
      and every command letter. */
  lemma TrimKeepsLetters(s: string)
    requires |s| > 0 && !IsSpace(s[0])
    ensures |Trim(s)| > 0 && Trim(s)[0] == s[0]
    ensures Letters(Trim(s)) == Letters(s)
  {
    assert TrimStart(s) == s;
    TrimEndKeepsHead(s);
    TrimEndKeepsLetters(s);
  }

  lemma TrimEndKeepsHead(s: string)
    requires |s| > 0 && !IsSpace(s[0])
    ensures |TrimEnd(s)| > 0 && TrimEnd(s)[0] == s[0]
  {
    assert !AllSpaces(s[0..]);
  }

  /** What `TrimEnd` cuts is white space, which holds no command letter. */
  lemma TrimEndKeepsLetters(s: string)
    ensures Letters(TrimEnd(s)) == Letters(s)
  {
    var t := TrimEnd(s);
    assert s == t + s[|t|..];
    SpacesAreNoLetters(s[|t|..]);
    NoLetters(s[|t|..]);
    LettersAppend(t, s[|t|..]);
  }

  /** No command letter is white space. */
  lemma SpacesAreNoLetters(s: string)
    requires AllSpaces(s)
    ensures NoLetter(s)
  {
    forall k | 0 <= k < |s| ensures !IsCommandLetter(s[k]) {
      LetterIsNoSpace(s[k]);
    }
  }

  lemma LetterIsNoSpace(c: char)
    ensures IsCommandLetter(c) ==> !IsSpace(c)
  {
  }

  // ---------------------------------------------------- command chunks

  /** The first index at or after `i` that holds a command letter, or |s|. */
  function NextLetter(s: string, i: nat): (j: nat)
    requires i <= |s|
    ensures i <= j <= |s|
    ensures j < |s| ==> IsCommandLetter(s[j])
    ensures forall k :: i <= k < j ==> !IsCommandLetter(s[k])
    decreases |s| - i
  {
    if i == |s| || IsCommandLetter(s[i]) then i else NextLetter(s, i + 1)
  }

  /** `s.split(/(?=[MmLlHhVvCcSsAaQqTtZz])/)`: `s` cut before every command
      letter that is not its first character; the empty string gives one
      empty chunk. */
  function SplitBeforeLetters(s: string): (r: seq<string>)
    ensures |r| >= 1
    ensures |s| > 0 ==> forall i :: 0 <= i < |r| ==> |r[i]| > 0
    ensures forall i :: 1 <= i < |r| ==> |r[i]| > 0 && IsCommandLetter(r[i][0])
    ensures forall i, k :: 0 <= i < |r| && 1 <= k < |r[i]| ==> !IsCommandLetter(r[i][k])
    ensures |s| > 0 ==> r[0][0] == s[0]
    decreases |s|
  {
    if |s| == 0 then [""]
    else
      var j := NextLetter(s, 1);
      if j == |s| then [s] else [s[..j]] + SplitBeforeLetters(s[j..])
  }

  /** Cutting loses and reorders nothing. */
  lemma {:induction false} SplitBeforeLettersFlatten(s: string)
    ensures Flatten(SplitBeforeLetters(s)) == s
    decreases |s|
  {
    if |s| > 0 {
      var j := NextLetter(s, 1);
      if j < |s| {
        SplitBeforeLettersFlatten(s[j..]);
        FlattenStep(s, j, SplitBeforeLetters(s[j..]));
      } else {
        FlattenStep(s, |s|, []);
      }
    }
  }

  /** The first chunk cut off at `j`, then the rest. */
  lemma FlattenStep(s: string, j: nat, rest: seq<string>)
    requires j <= |s| && Flatten(rest) == s[j..]
    ensures Flatten([s[..j]] + rest) == s
  {
    assert ([s[..j]] + rest)[1..] == rest;
    assert s[..j] + s[j..] == s;
  }

  /** The command letters of a string, in order. */
  function Letters(s: string): (r: string)
    ensures forall i :: 0 <= i < |r| ==> IsCommandLetter(r[i])
  {
    if |s| == 0 then "" else (if IsCommandLetter(s[0]) then [s[0]] else "") + Letters(s[1..])
  }

  lemma {:induction false} LettersAppend(a: string, b: string)
    ensures Letters(a + b) == Letters(a) + Letters(b)
  {
    if |a| == 0 {
      assert a + b == b;
    } else {
      assert (a + b)[0] == a[0] && (a + b)[1..] == a[1..] + b;
      LettersAppend(a[1..], b);
    }
  }

  /** No command letter occurs in `s`. */
  predicate NoLetter(s: string)
  {
    forall k :: 0 <= k < |s| ==> !IsCommandLetter(s[k])
  }

  lemma {:induction false} NoLetters(s: string)
    requires NoLetter(s)
    ensures Letters(s) == ""
  {
    if |s| > 0 {
      NoLetters(s[1..]);
    }
  }

  /** When the text starts with a command letter, there is one chunk per
      command letter, and each chunk starts with its letter. */
  lemma {:induction false} ChunksFollowLetters(s: string)
    requires |s| > 0 && IsCommandLetter(s[0])
    ensures |SplitBeforeLetters(s)| == |Letters(s)|
    ensures forall i :: 0 <= i < |Letters(s)| ==> SplitBeforeLetters(s)[i][0] == Letters(s)[i]
    decreases |s|
  {
    var j := NextLetter(s, 1);
    assert s == [s[0]] + s[1..j] + s[j..];
    LettersAppend([s[0]] + s[1..j], s[j..]);
    LettersAppend([s[0]], s[1..j]);
    NoLetters(s[1..j]);
    assert Letters([s[0]]) == [s[0]];
    if j < |s| {
      ChunksFollowLetters(s[j..]);
    } else {
      assert s[j..] == "";
    }
  }

  // ------------------------------------------------- concatenated decimals

  /** `s[k]` is a '.' that follows another '.' with only digits between: the
      end of a match of `[0-9]*\.[0-9]*\.`. */
  predicate IsSecondDot(s: string, k: int)
  {
    0 <= k < |s| && s[k] == '.' && OpenAt(s, k)
  }

  /** Some '.' before `i` is followed by nothing but digits up to `i`. */
  predicate OpenAt(s: string, i: int)
    requires 0 <= i <= |s|
  {
    exists j :: 0 <= j < i && s[j] == '.' && DigitsBetween(s, j, i)
  }

  /** Only digits strictly between `j` and `i`. */
  predicate DigitsBetween(s: string, j: int, i: int)
    requires 0 <= j < i <= |s|
  {
    forall m :: j < m < i ==> IsDigit(s[m])
  }

  lemma OpenStep(s: string, i: nat)
    requires i < |s|
    ensures OpenAt(s, i + 1) <==> s[i] == '.' || (OpenAt(s, i) && IsDigit(s[i]))
  {
    if OpenAt(s, i + 1) {
      var j :| 0 <= j < i + 1 && s[j] == '.' && DigitsBetween(s, j, i + 1);
      if j < i {
        assert DigitsBetween(s, j, i);
        assert OpenAt(s, i);
        assert IsDigit(s[i]);
      }
    }
    if s[i] == '.' {
      assert DigitsBetween(s, i, i + 1);
    }
    if OpenAt(s, i) && IsDigit(s[i]) {
      var j :| 0 <= j < i && s[j] == '.' && DigitsBetween(s, j, i);
      assert DigitsBetween(s, j, i + 1);
    }
  }

  /** The left-to-right scan behind `regex.test`: from `i` on, with `open`
      recording whether a '.' and then only digits precede `i`. */
  function ScanSecondDot(s: string, i: nat, open: bool): (r: Option<nat>)
    requires i <= |s|
    requires open == OpenAt(s, i)
    requires forall k :: 0 <= k < i ==> !IsSecondDot(s, k)
    ensures r.Some? ==> IsSecondDot(s, r.value) && forall k :: 0 <= k < r.value ==> !IsSecondDot(s, k)
    ensures r.None? ==> forall k :: 0 <= k < |s| ==> !IsSecondDot(s, k)
    decreases |s| - i
  {
    if i == |s| then None
    else
      OpenStep(s, i);
      if s[i] == '.' then
        (if open then Some(i) else ScanSecondDot(s, i + 1, true))
      else ScanSecondDot(s, i + 1, open && IsDigit(s[i]))
  }

  /** Where the leftmost match of `/([0-9]*\.[0-9]*)\./` ends: the leftmost
      second dot; None when the pattern does not occur. */
  function LeftmostMatch(s: string): (r: Option<nat>)
    ensures r.Some? ==> IsSecondDot(s, r.value) && forall k :: 0 <= k < r.value ==> !IsSecondDot(s, k)
    ensures r.None? ==> forall k :: 0 <= k < |s| ==> !IsSecondDot(s, k)
  {
    ScanSecondDot(s, 0, false)
  }

  /** `t` is `s` with spaces inserted and nothing else changed. */
  predicate SpacesInserted(s: string, t: string)
    decreases |t|
  {
    if |t| == 0 then |s| == 0
    else
      (|s| > 0 && s[0] == t[0] && SpacesInserted(s[1..], t[1..]))
      || (t[0] == ' ' && SpacesInserted(s, t[1..]))
  }

  lemma {:induction false} SpacesInsertedRefl(s: string)
    ensures SpacesInserted(s, s)
  {
    if |s| > 0 {
      SpacesInsertedRefl(s[1..]);
    }
  }

  lemma {:induction false} InsertOneSpace(s: string, k: nat)
    requires k <= |s|
    ensures SpacesInserted(s, s[..k] + " " + s[k..])
  {
    var t := s[..k] + " " + s[k..];
    if k == 0 {
      SpacesInsertedRefl(s);
      assert t[1..] == s;
    } else {
      InsertOneSpace(s[1..], k - 1);
      assert t[1..] == s[1..][..k - 1] + " " + s[1..][k - 1..];
    }
  }

  lemma {:induction false} SpacesInsertedTrans(a: string, b: string, c: string)
    requires SpacesInserted(a, b) && SpacesInserted(b, c)
    ensures SpacesInserted(a, c)
    decreases |c|
  {
    if |c| > 0 {
      if |b| > 0 && b[0] == c[0] && SpacesInserted(b[1..], c[1..]) {
        if |a| > 0 && a[0] == b[0] && SpacesInserted(a[1..], b[1..]) {
          SpacesInsertedTrans(a[1..], b[1..], c[1..]);
        } else {
          SpacesInsertedTrans(a, b[1..], c[1..]);
        }
      } else {
        SpacesInsertedTrans(a, b, c[1..]);
      }
    } else {
      assert |b| == 0;
    }
  }

  /** Dots that do not directly follow a space (`afterSpace` says whether
      the character before `s` is one): the measure each replacement lowers. */
  function Unseparated(s: string, afterSpace: bool): nat
  {
    if |s| == 0 then 0
    else (if s[0] == '.' && !afterSpace then 1 else 0) + Unseparated(s[1..], s[0] == ' ')
  }

  /** A space put before such a dot leaves one fewer. */
  lemma {:induction false} SpaceBeforeDot(s: string, k: nat, afterSpace: bool)
    requires k < |s| && s[k] == '.'
    requires if k == 0 then !afterSpace else s[k - 1] != ' '
    ensures Unseparated(s[..k] + " " + s[k..], afterSpace) + 1 == Unseparated(s, afterSpace)
  {
    var t := s[..k] + " " + s[k..];
    if k == 0 {
      assert t[1..] == s;
    } else {
      assert t[1..] == s[1..][..k - 1] + " " + s[1..][k - 1..];
      SpaceBeforeDot(s[1..], k - 1, s[0] == ' ');
    }
  }

  /** `replaceRecursive(str, /([0-9]*\.[0-9]*)\./, "$1 .")`: while the
      pattern occurs, a space goes in before the leftmost second dot. The
      result is the input with only spaces added, and the pattern no longer
      occurs in it; it is the one-pass `SeparateDots`, so a space goes in
      before exactly the dots that pass finds, and text without the pattern
      is left alone. */
  function ReplaceRecursive(s: string): (r: string)
    ensures SpacesInserted(s, r)
    ensures forall k :: 0 <= k < |r| ==> !IsSecondDot(r, k)
    ensures r == SeparateDots(s, false)
    ensures (forall k :: 0 <= k < |s| ==> !IsSecondDot(s, k)) ==> r == s
    decreases Unseparated(s, false)
  {
    match LeftmostMatch(s)
    case None =>
      SpacesInsertedRefl(s);
      DotFreeNoMatch(s);
      SeparateDotFree(s, false);
      s
    case Some(k) =>
      var t := s[..k] + " " + s[k..];
      assert s[k - 1] == '.' || IsDigit(s[k - 1]);
      SpaceBeforeDot(s, k, false);
      InsertOneSpace(s, k);
      SeparateInsert(s, k, 0);
      assert t[0..] == t && s[0..] == s;
      var r := ReplaceRecursive(t);
      SpacesInsertedTrans(s, t, r);
      r
  }

  /** One left-to-right pass over `s` that puts a space before every dot
      following a '.' and then only digits (`open` says whether the text
      before `s` ends so); after the space, that dot starts a new number. */
  function SeparateDots(s: string, open: bool): string
    decreases |s|
  {
    if |s| == 0 then ""
    else if s[0] == '.' then (if open then " ." else ".") + SeparateDots(s[1..], true)
    else [s[0]] + SeparateDots(s[1..], open && IsDigit(s[0]))
  }

  /** Where no second dot is found, the pass changes nothing. */
  lemma {:induction false} SeparateDotFree(s: string, open: bool)
    requires DotFree(s, open)
    ensures SeparateDots(s, open) == s
    decreases |s|
  {
    if |s| > 0 {
      SeparateDotFree(s[1..], if s[0] == '.' then true else open && IsDigit(s[0]));
    }
  }

  /** A space put before the leftmost second dot `k` is the one the pass
      puts there: from any `i <= k` on, the pass gives the same text. */
  lemma {:induction false} SeparateInsert(s: string, k: nat, i: nat)
    requires IsSecondDot(s, k) && forall j :: 0 <= j < k ==> !IsSecondDot(s, j)
    requires i <= k
    ensures var t := s[..k] + " " + s[k..];
      SeparateDots(t[i..], OpenAt(s, i)) == SeparateDots(s[i..], OpenAt(s, i))
    decreases k - i
  {
    var t := s[..k] + " " + s[k..];
    if i == k {
      assert t[k..][0] == ' ' && t[k..][1..] == s[k..];
      assert s[k..][0] == '.' && s[k..][1..] == s[k + 1..];
    } else {
      OpenStep(s, i);
      SeparateInsert(s, k, i + 1);
      assert t[i..][0] == s[i] && t[i..][1..] == t[i + 1..];
      assert s[i..][0] == s[i] && s[i..][1..] == s[i + 1..];
      assert !IsSecondDot(s, i);
    }
  }

  // ------------------------------------------------ concatenated negatives

  predicate IsDigitOrDot(c: char)
  {
    IsDigit(c) || c == '.'
  }

  /** No '-' directly follows a digit or a '.'. */
  predicate MinusSeparated(s: string)
  {
    forall i :: 0 < i < |s| && s[i] == '-' ==> !IsDigitOrDot(s[i - 1])
  }

  /** Each character of `s` in turn, with a space put before every '-' that
      follows a digit or a '.' (`afterDigit` says whether the character
      before `s` is one). */
  function SpaceMinus(s: string, afterDigit: bool): string
    decreases |s|
  {
    if |s| == 0 then ""
    else (if s[0] == '-' && afterDigit then " -" else [s[0]]) + SpaceMinus(s[1..], IsDigitOrDot(s[0]))
  }

  /** `.replace(/([0-9.])-/g, "$1 -")`: the matches are taken left to right,
      each consuming the digit or '.' and its '-'. The result is `s` with a
      space before exactly the '-'s that follow a digit or a '.' and
      nothing else changed; text with no such '-' is left alone. */
  function SpaceBeforeMinus(s: string): (r: string)
    ensures SpacesInserted(s, r)
    ensures MinusSeparated(r)
    ensures |s| > 0 ==> |r| > 0 && r[0] == s[0]
    ensures r == SpaceMinus(s, false)
    ensures MinusSeparated(s) ==> r == s
    decreases |s|
  {
    if |s| < 2 then
      SpacesInsertedRefl(s);
      assert |s| == 1 ==> s[1..] == "";
      s
    else if IsDigitOrDot(s[0]) && s[1] == '-' then
      var rest := SpaceBeforeMinus(s[2..]);
      MinusPair(s, rest);
      [s[0], ' ', '-'] + rest
    else
      var rest := SpaceBeforeMinus(s[1..]);
      var r := [s[0]] + rest;
      assert r[1..] == rest;
      MinusKeep(s, rest);
      MinusSeparatedTail(s);
      r
  }

  /** A digit or '.' and its '-': the space goes between them. */
  lemma MinusPair(s: string, rest: string)
    requires |s| >= 2 && IsDigitOrDot(s[0]) && s[1] == '-'
    requires SpacesInserted(s[2..], rest) && rest == SpaceMinus(s[2..], false)
    ensures SpacesInserted(s, [s[0], ' ', '-'] + rest)
    ensures [s[0], ' ', '-'] + rest == SpaceMinus(s, false)
  {
    MinusPairInserted(s, rest);
    assert s[1..][1..] == s[2..];
    assert SpaceMinus(s[1..], true) == " -" + SpaceMinus(s[2..], false);
  }

  lemma MinusPairInserted(s: string, rest: string)
    requires |s| >= 2 && s[1] == '-'
    requires SpacesInserted(s[2..], rest)
    ensures SpacesInserted(s, [s[0], ' ', '-'] + rest)
  {
    var r := [s[0], ' ', '-'] + rest;
    assert r[1..][1..][1..] == rest && s[1..][1..] == s[2..];
    assert SpacesInserted(s[1..], r[1..][1..]);
  }

  /** Any other first character is kept as it is. */
  lemma MinusKeep(s: string, rest: string)
    requires |s| >= 2 && !(IsDigitOrDot(s[0]) && s[1] == '-')
    requires rest == SpaceMinus(s[1..], false)
    ensures [s[0]] + rest == SpaceMinus(s, false)
  {
    assert s[1..][1..] == s[2..];
    assert SpaceMinus(s[1..], IsDigitOrDot(s[0])) == SpaceMinus(s[1..], false);
  }

  lemma MinusSeparatedTail(s: string)
    requires |s| > 0
    ensures MinusSeparated(s) ==> MinusSeparated(s[1..])
  {
    if MinusSeparated(s) {
      forall i | 0 < i < |s[1..]| && s[1..][i] == '-' ensures !IsDigitOrDot(s[1..][i - 1]) {
        assert s[i + 1] == '-';
      }
    }
  }

  // ------------------------------------------------------------- tokens

  /** What `/[\n\s,]/` matches. */
  predicate IsSeparator(c: char)
  {
    IsSpace(c) || c == ','
  }

  predicate NoSeparator(t: string)
  {
    forall k :: 0 <= k < |t| ==> !IsSeparator(t[k])
  }

  function CountSeparators(s: string): nat
  {
    if |s| == 0 then 0 else (if IsSeparator(s[0]) then 1 else 0) + CountSeparators(s[1..])
  }

  function RemoveSeparators(s: string): string
  {
    if |s| == 0 then "" else (if IsSeparator(s[0]) then "" else [s[0]]) + RemoveSeparators(s[1..])
  }

  /** The separators of `s`, in order. */
  function Separators(s: string): (r: string)
    ensures |r| == CountSeparators(s)
  {
    if |s| == 0 then "" else (if IsSeparator(s[0]) then [s[0]] else "") + Separators(s[1..])
  }

  /** The pieces with the separators put back between them: `pieces[0]`,
      `seps[0]`, `pieces[1]`, and so on. */
  function Interleave(pieces: seq<string>, seps: string): string
    requires |pieces| == |seps| + 1
  {
    if |seps| == 0 then pieces[0] else pieces[0] + [seps[0]] + Interleave(pieces[1..], seps[1..])
  }

  lemma SeparatorsSkip(s: string)
    requires |s| > 0 && !IsSeparator(s[0])
    ensures Separators(s) == Separators(s[1..])
  {
    assert Separators(s) == "" + Separators(s[1..]);
  }

  lemma SeparatorsTake(s: string)
    requires |s| > 0 && IsSeparator(s[0])
    ensures Separators(s) == [s[0]] + Separators(s[1..])
  {
  }

  /** A character put in front of the first piece is put in front of all. */
  lemma InterleaveCons(c: char, pieces: seq<string>, q: seq<string>, seps: string)
    requires |pieces| == |seps| + 1 == |q|
    requires q[0] == [c] + pieces[0] && q[1..] == pieces[1..]
    ensures Interleave(q, seps) == [c] + Interleave(pieces, seps)
  {
    if |seps| > 0 {
      var tail := Interleave(pieces[1..], seps[1..]);
      assert ([c] + pieces[0]) + [seps[0]] + tail == [c] + (pieces[0] + [seps[0]] + tail);
    }
  }

  /** A separator in front puts an empty piece in front. */
  lemma InterleaveSep(c: char, pieces: seq<string>, q: seq<string>, seps: string, t: string)
    requires |pieces| == |seps| + 1 && |q| == |t| + 1 && |t| > 0
    requires q[0] == "" && q[1..] == pieces && t[0] == c && t[1..] == seps
    ensures Interleave(q, t) == [c] + Interleave(pieces, seps)
  {
    assert Interleave(q, t) == q[0] + [t[0]] + Interleave(q[1..], t[1..]);
  }

  /** `s.split(/[\n\s,]/)`: the pieces between separators, one more than there
      are separators, empty pieces included; none holds a separator, and
      `SplitRejoins` shows that piece i is the text between separators i - 1
      and i. */
  function SplitOnSeparators(s: string): (r: seq<string>)
    ensures |r| == CountSeparators(s) + 1
    ensures Flatten(r) == RemoveSeparators(s)
    ensures forall i :: 0 <= i < |r| ==> NoSeparator(r[i])
    ensures |r[0]| > 0 <==> |s| > 0 && !IsSeparator(s[0])
    ensures |r[0]| > 0 ==> r[0][0] == s[0]
    ensures MinusSeparated(s) ==> forall i :: 0 <= i < |r| ==> MinusSeparated(r[i])
    decreases |s|
  {
    if |s| == 0 then [""]
    else
      var rest := SplitOnSeparators(s[1..]);
      if IsSeparator(s[0]) then
        [""] + rest
      else
        var r := [[s[0]] + rest[0]] + rest[1..];
        assert Flatten(r) == [s[0]] + Flatten(rest) by {
          assert Flatten(rest) == rest[0] + Flatten(rest[1..]);
        }
        assert MinusSeparated(s) ==> MinusSeparated(r[0]) by {
          if MinusSeparated(s) {
            assert MinusSeparated(s[1..]);
          }
        }
        r
  }

  lemma NoSeparatorCons(c: char, t: string)
    requires !IsSeparator(c) && NoSeparator(t)
    ensures NoSeparator([c] + t)
  {
    assert forall k :: 1 <= k < |t| + 1 ==> ([c] + t)[k] == t[k - 1];
  }

  /** Piece i is the text between separators i - 1 and i: putting the
      separators back between the pieces gives the text again. */
  lemma {:induction false} SplitRejoins(s: string)
    ensures |SplitOnSeparators(s)| == |Separators(s)| + 1
    ensures Interleave(SplitOnSeparators(s), Separators(s)) == s
    decreases |s|
  {
    if |s| > 0 {
      SplitRejoins(s[1..]);
      var pieces, seps := SplitOnSeparators(s[1..]), Separators(s[1..]);
      if IsSeparator(s[0]) {
        SplitCut(s);
        SeparatorsTake(s);
        var q, t := SplitOnSeparators(s), Separators(s);
        assert q[0] == "" && q[1..] == pieces && t[0] == s[0] && t[1..] == seps;
        InterleaveSep(s[0], pieces, q, seps, t);
      } else {
        SplitJoin(s);
        SeparatorsSkip(s);
        var q := [[s[0]] + pieces[0]] + pieces[1..];
        assert q[0] == [s[0]] + pieces[0] && q[1..] == pieces[1..];
        InterleaveCons(s[0], pieces, q, seps);
      }
      assert [s[0]] + s[1..] == s;
    }
  }

  /** `a` is `b` with some elements left out and the rest kept in order. */
  predicate Subsequence(a: seq<string>, b: seq<string>)
    decreases |b|
  {
    |a| == 0 || (|b| > 0 && ((a[0] == b[0] && Subsequence(a[1..], b[1..])) || Subsequence(a, b[1..])))
  }

  function CountNonEmpty(ts: seq<string>): nat
  {
    if |ts| == 0 then 0 else (if |ts[0]| > 0 then 1 else 0) + CountNonEmpty(ts[1..])
  }

  /** `.filter(d => d.length)`: the non-empty strings of `ts`, all of them,
      in order. */
  function NonEmpty(ts: seq<string>): (r: seq<string>)
    ensures forall i :: 0 <= i < |r| ==> |r[i]| > 0
    ensures Flatten(r) == Flatten(ts)
    ensures forall i :: 0 <= i < |r| ==> exists j :: 0 <= j < |ts| && ts[j] == r[i]
    ensures Subsequence(r, ts) && |r| == CountNonEmpty(ts)
  {
    if |ts| == 0 then []
    else
      var rest := NonEmpty(ts[1..]);
      var r := if |ts[0]| == 0 then rest else [ts[0]] + rest;
      assert forall i :: 0 <= i < |rest| ==> exists j :: 0 <= j < |ts| && ts[j] == rest[i] by {
        forall i | 0 <= i < |rest| ensures exists j :: 0 <= j < |ts| && ts[j] == rest[i] {
          var j :| 0 <= j < |ts[1..]| && ts[1..][j] == rest[i];
          assert ts[j + 1] == rest[i];
        }
      }
      assert |ts[0]| > 0 ==> r[1..] == rest;
      r
  }

  /** A subsequence of non-empty strings has at most as many elements as
      there are non-empty strings to pick from. */
  lemma {:induction false} SubsequenceCount(a: seq<string>, b: seq<string>)
    requires Subsequence(a, b) && forall i :: 0 <= i < |a| ==> |a[i]| > 0
    ensures |a| <= CountNonEmpty(b)
    decreases |b|
  {
    if |a| > 0 {
      if a[0] == b[0] && Subsequence(a[1..], b[1..]) {
        SubsequenceCount(a[1..], b[1..]);
      } else {
        SubsequenceCount(a, b[1..]);
      }
    }
  }

  /** Picking, in order, as many non-empty strings as `ts` has is picking
      all of them: the filter is the only such subsequence. */
  lemma {:induction false} NonEmptyUnique(a: seq<string>, ts: seq<string>)
    requires Subsequence(a, ts) && forall i :: 0 <= i < |a| ==> |a[i]| > 0
    requires |a| == CountNonEmpty(ts)
    ensures a == NonEmpty(ts)
    decreases |ts|
  {
    if |a| == 0 {
      assert |NonEmpty(ts)| == 0;
    } else if a[0] == ts[0] && Subsequence(a[1..], ts[1..]) {
      NonEmptyUnique(a[1..], ts[1..]);
      assert a == [a[0]] + a[1..];
    } else {
      SubsequenceCount(a, ts[1..]);
      if |ts[0]| > 0 {
        assert false;
      }
      NonEmptyUnique(a, ts[1..]);
    }
  }

  /** Spaces are separators: the spaces `replaceRecursive` and the '-'
      replace put in disappear with the separators. */
  lemma {:induction false} SpacesVanish(s: string, t: string)
    requires SpacesInserted(s, t)
    ensures RemoveSeparators(s) == RemoveSeparators(t)
    decreases |t|
  {
    if |t| > 0 {
      if |s| > 0 && s[0] == t[0] && SpacesInserted(s[1..], t[1..]) {
        SpacesVanish(s[1..], t[1..]);
      } else {
        SpacesVanish(s, t[1..]);
      }
    }
  }

  /** The scan for a second dot finds none in `s`, `open` saying whether a
      '.' and then only digits come just before `s`. */
  predicate DotFree(s: string, open: bool)
    decreases |s|
  {
    |s| == 0
    || (if s[0] == '.' then !open && DotFree(s[1..], true)
        else DotFree(s[1..], open && IsDigit(s[0])))
  }

  lemma {:induction false} DotFreeFrom(s: string, i: nat)
    requires i <= |s|
    ensures DotFree(s[i..], OpenAt(s, i)) <==> forall k :: i <= k < |s| ==> !IsSecondDot(s, k)
    decreases |s| - i
  {
    if i < |s| {
      OpenStep(s, i);
      DotFreeFrom(s, i + 1);
      var t, open := s[i..], OpenAt(s, i);
      assert t[0] == s[i] && t[1..] == s[i + 1..];
      assert DotFree(t, open) <==>
        if s[i] == '.' then !open && DotFree(s[i + 1..], true)
        else DotFree(s[i + 1..], open && IsDigit(s[i]));
      assert (forall k :: i <= k < |s| ==> !IsSecondDot(s, k)) <==>
        !IsSecondDot(s, i) && forall k :: i + 1 <= k < |s| ==> !IsSecondDot(s, k);
    }
  }

  /** The scan agrees with the pattern: `s` is dot free exactly when
      `[0-9]*\.[0-9]*\.` does not occur in it. */
  lemma DotFreeNoMatch(s: string)
    ensures DotFree(s, false) <==> forall k :: 0 <= k < |s| ==> !IsSecondDot(s, k)
  {
    DotFreeFrom(s, 0);
    assert s[0..] == s;
  }

  lemma {:induction false} DotFreeWeaken(s: string)
    requires DotFree(s, true)
    ensures DotFree(s, false)
  {
    if |s| > 0 && s[0] != '.' && IsDigit(s[0]) {
      DotFreeWeaken(s[1..]);
    }
  }

  /** Putting in spaces makes no second dot. */
  lemma {:induction false} DotFreeSpaces(s: string, t: string, open: bool)
    requires SpacesInserted(s, t) && DotFree(s, open)
    ensures DotFree(t, open)
    decreases |t|
  {
    if |t| > 0 {
      if |s| > 0 && s[0] == t[0] && SpacesInserted(s[1..], t[1..]) {
        DotFreeSpaces(s[1..], t[1..], if s[0] == '.' then true else open && IsDigit(s[0]));
      } else {
        if open {
          DotFreeWeaken(s);
        }
        DotFreeSpaces(s, t[1..], false);
      }
    }
  }

  /** Cutting at separators makes no second dot either: every piece after
      the first starts after a separator. */
  lemma {:induction false} DotFreePieces(s: string, open: bool)
    requires DotFree(s, open)
    ensures DotFree(SplitOnSeparators(s)[0], open)
    ensures forall i :: 1 <= i < |SplitOnSeparators(s)| ==> DotFree(SplitOnSeparators(s)[i], false)
    decreases |s|
  {
    if |s| > 0 {
      var rest := SplitOnSeparators(s[1..]);
      var r := SplitOnSeparators(s);
      if IsSeparator(s[0]) {
        assert s[0] != '.' && !IsDigit(s[0]);
        DotFreePieces(s[1..], false);
        assert r == [""] + rest;
      } else {
        DotFreePieces(s[1..], if s[0] == '.' then true else open && IsDigit(s[0]));
        assert r == [[s[0]] + rest[0]] + rest[1..];
        assert r[0][1..] == rest[0];
      }
    }
  }

  /** The number tokens of a payload: non-empty, free of white space and
      commas, together spelling the payload without its separators. */
  function Tokens(s: string): (r: seq<string>)
    ensures forall i :: 0 <= i < |r| ==> |r[i]| > 0 && NoSeparator(r[i])
    ensures Flatten(r) == RemoveSeparators(s)
    ensures MinusSeparated(s) ==> forall i :: 0 <= i < |r| ==> MinusSeparated(r[i])
    ensures DotFree(s, false) ==> forall i :: 0 <= i < |r| ==> DotFree(r[i], false)
  {
    var pieces := SplitOnSeparators(s);
    var r := NonEmpty(pieces);
    assert forall i :: 0 <= i < |r| ==>
      NoSeparator(r[i]) && (MinusSeparated(s) ==> MinusSeparated(r[i])) && (DotFree(s, false) ==> DotFree(r[i], false))
    by {
      if DotFree(s, false) {
        DotFreePieces(s, false);
      }
      forall i | 0 <= i < |r|
        ensures NoSeparator(r[i]) && (MinusSeparated(s) ==> MinusSeparated(r[i])) && (DotFree(s, false) ==> DotFree(r[i], false))
      {
        var j :| 0 <= j < |pieces| && pieces[j] == r[i];
      }
    }
    r
  }

  /** A run of non-separators is one piece. */
  lemma {:induction false} SplitOfRun(s: string)
    requires NoSeparator(s)
    ensures SplitOnSeparators(s) == [s]
    decreases |s|
  {
    if |s| > 0 {
      SplitOfRun(s[1..]);
      assert [s[0]] + s[1..] == s;
    }
  }

  /** A separator ends one piece and starts the next: the pieces of the
      text on either side of it, one after the other. */
  lemma {:induction false} SplitAtSeparator(a: string, c: char, b: string)
    requires IsSeparator(c)
    ensures SplitOnSeparators(a + [c] + b) == SplitOnSeparators(a) + SplitOnSeparators(b)
    decreases |a|
  {
    var x := a + [c] + b;
    if |a| == 0 {
      assert x == [c] + b && x[1..] == b;
      SplitCut(x);
    } else {
      assert x[0] == a[0] && x[1..] == a[1..] + [c] + b;
      SplitAtSeparator(a[1..], c, b);
      if IsSeparator(a[0]) {
        SplitCut(x);
        SplitCut(a);
      } else {
        SplitJoin(x);
        SplitJoin(a);
        JoinFirst(a[0], SplitOnSeparators(a[1..]), SplitOnSeparators(b));
      }
    }
  }

  lemma SplitCut(s: string)
    requires |s| > 0 && IsSeparator(s[0])
    ensures SplitOnSeparators(s) == [""] + SplitOnSeparators(s[1..])
  {
  }

  lemma SplitJoin(s: string)
    requires |s| > 0 && !IsSeparator(s[0])
    ensures SplitOnSeparators(s) == [[s[0]] + SplitOnSeparators(s[1..])[0]] + SplitOnSeparators(s[1..])[1..]
  {
  }

  lemma JoinFirst(c: char, pa: seq<string>, pb: seq<string>)
    requires |pa| > 0
    ensures [[c] + (pa + pb)[0]] + (pa + pb)[1..] == ([[c] + pa[0]] + pa[1..]) + pb
  {
    assert (pa + pb)[0] == pa[0] && (pa + pb)[1..] == pa[1..] + pb;
  }

  lemma {:induction false} NonEmptyAppend(x: seq<string>, y: seq<string>)
    ensures NonEmpty(x + y) == NonEmpty(x) + NonEmpty(y)
    decreases |x|
  {
    if |x| == 0 {
      assert x + y == y;
    } else {
      assert (x + y)[0] == x[0] && (x + y)[1..] == x[1..] + y;
      NonEmptyAppend(x[1..], y);
    }
  }

  /** A run of non-separators is a single token, or none when it is empty. */
  lemma TokensOfRun(s: string)
    requires NoSeparator(s)
    ensures Tokens(s) == if |s| == 0 then [] else [s]
  {
    SplitOfRun(s);
    assert NonEmpty([s]) == (if |s| == 0 then [] else [s]) by {
      assert [s][1..] == [];
    }
  }

  /** A separator splits the tokens: those of the text before it, then those
      of the text after it. With `TokensOfRun` this fixes the tokens of
      every text. */
  lemma TokensAtSeparator(a: string, c: char, b: string)
    requires IsSeparator(c)
    ensures Tokens(a + [c] + b) == Tokens(a) + Tokens(b)
  {
    SplitAtSeparator(a, c, b);
    NonEmptyAppend(SplitOnSeparators(a), SplitOnSeparators(b));
  }

  /** The number tokens after a command letter: decimals and negatives pulled
      apart, then split. The tokens spell the payload without its separators;
      each is non-empty, holds no separator, has no '-' after a digit or '.',
      and no longer holds two dots with only digits between them. Text that
      has neither pattern is only split into tokens. */
  function Payload(rest: string): (r: seq<string>)
    ensures Flatten(r) == RemoveSeparators(rest)
    ensures forall i :: 0 <= i < |r| ==> |r[i]| > 0 && NoSeparator(r[i]) && MinusSeparated(r[i])
    ensures forall i, k :: 0 <= i < |r| && 0 <= k < |r[i]| ==> !IsSecondDot(r[i], k)
    ensures (forall k :: 0 <= k < |rest| ==> !IsSecondDot(rest, k)) && MinusSeparated(rest) ==> r == Tokens(rest)
  {
    var a := ReplaceRecursive(rest);
    var b := SpaceBeforeMinus(a);
    SpacesVanish(rest, a);
    SpacesVanish(a, b);
    DotFreeNoMatch(a);
    DotFreeSpaces(a, b, false);
    var r := Tokens(b);
    assert forall i, k :: 0 <= i < |r| && 0 <= k < |r[i]| ==> !IsSecondDot(r[i], k) by {
      forall i | 0 <= i < |r|
        ensures forall k :: 0 <= k < |r[i]| ==> !IsSecondDot(r[i], k)
      {
        DotFreeNoMatch(r[i]);
      }
    }
    r
  }

  // -------------------------------------------------------------- parse

  /** A parsed command before its type is read as a letter: `type` is the
      chunk's first character (empty for an empty chunk). */
  datatype RawCommand = RawCommand(tag: string, values: seq<real>)

  /** One chunk: its first character and the numbers of the rest, each token
      converted by `num` (JavaScript's unary `+`). */
  function ParseChunk(chunk: string, num: string -> real): (r: RawCommand)
    ensures |r.tag| == if |chunk| == 0 then 0 else 1
    ensures |chunk| > 0 ==> r.tag[0] == chunk[0]
    ensures |r.values| == |Payload(if |chunk| == 0 then "" else chunk[1..])|
  {
    var rest := if |chunk| == 0 then "" else chunk[1..];
    RawCommand(if |chunk| == 0 then "" else chunk[..1], MapSeq(num, Payload(rest)))
  }

  /** `parse(d)`: one raw command per chunk of the trimmed text. Every
      command but the first has a command letter for its type. */
  function Parse(d: string, num: string -> real): (r: seq<RawCommand>)
    ensures |r| == |SplitBeforeLetters(Trim(d))| >= 1
    ensures forall i :: 1 <= i < |r| ==> |r[i].tag| == 1 && IsCommandLetter(r[i].tag[0])
    ensures forall i :: 0 <= i < |r| ==> r[i] == ParseChunk(SplitBeforeLetters(Trim(d))[i], num)
  {
    var chunks := SplitBeforeLetters(Trim(d));
    var r := MapSeq((chunk: string) => ParseChunk(chunk, num), chunks);
    assert forall i :: 1 <= i < |r| ==> |r[i].tag| == 1 && IsCommandLetter(r[i].tag[0]) by {
      forall i | 1 <= i < |r|
        ensures |r[i].tag| == 1 && IsCommandLetter(r[i].tag[0])
      {
        ChunkTag(chunks[i], num);
      }
    }
    r
  }

  /** When the trimmed text starts with a command letter, the parsed types
      are exactly the command letters of the text, one per command, in
      order. */
  lemma ParseTypes(d: string, num: string -> real)
    requires |Trim(d)| > 0 && IsCommandLetter(Trim(d)[0])
    ensures |Parse(d, num)| == |Letters(Trim(d))|
    ensures forall i :: 0 <= i < |Parse(d, num)| ==> Parse(d, num)[i].tag == [Letters(Trim(d))[i]]
  {
    var t := Trim(d);
    ChunksFollowLetters(t);
    var chunks := SplitBeforeLetters(t);
    forall i | 0 <= i < |chunks|
      ensures Parse(d, num)[i].tag == [Letters(t)[i]]
    {
      ChunkTag(chunks[i], num);
    }
  }

  lemma ChunkTag(chunk: string, num: string -> real)
    requires |chunk| > 0
    ensures ParseChunk(chunk, num).tag == [chunk[0]]
  {
    assert chunk[..1] == [chunk[0]];
  }
}
