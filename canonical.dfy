/**
  The four fixed `re.sub` passes of the copy detector's canonicaliser,
  each written as a left-to-right scanner over ASCII text:

  - `marker[^\n]*` with `''`: a one-line comment runs from its marker up
    to, not including, the next newline;
  - `open.*?close|...` with `''` and `re.DOTALL`: the alternatives are
    tried in order at each position, and each closes at the first closer
    after its opener;
  - `\b(?!(?:kw|...)\b)[A-Za-z_][A-Za-z0-9_]*\b` with `'xxx'`: every
    maximal word token that starts with a letter or `_` and is not a
    keyword becomes `xxx`;
  - `[ \t\n]+` with `''`: spaces, tabs and newlines disappear.
*/
module Canonical {
  import opened PyText

  // ---------------------------------------------------------------------
  // One-line comments
  // ---------------------------------------------------------------------

  /** The index of the first newline at or after `k`, or `|s|` when there is none. */
  function LineEnd(s: string, k: nat): (e: nat)
    requires k <= |s|
    ensures k <= e <= |s|
    ensures e < |s| ==> s[e] == '\n'
    ensures forall j :: k <= j < e ==> s[j] != '\n'
    decreases |s| - k
  {
    if k == |s| || s[k] == '\n' then k else LineEnd(s, k + 1)
  }

  /** `re.sub(marker + '[^\n]*', '', s)`. */
  function StripLineComments(s: string, marker: string): (r: string)
    requires marker != []
    ensures |r| <= |s|
    decreases |s|
  {
    if s == [] then []
    else if OccursAt(s, 0, marker) then StripLineComments(s[LineEnd(s, |marker|)..], marker)
    else [s[0]] + StripLineComments(s[1..], marker)
  }

  /** Text without the marker has no one-line comment to strip. */
  lemma {:induction false} StripLineCommentsNoMarker(s: string, marker: string)
    requires marker != [] && !Contains(s, marker)
    ensures StripLineComments(s, marker) == s
    decreases |s|
  {
    if s != [] {
      ContainsCons(s, marker);
      StripLineCommentsNoMarker(s[1..], marker);
    }
  }

  /** A line cut just before the first occurrence of `marker`. */
  function CutLine(line: string, marker: string): (r: string)
    ensures |r| <= |line| && r == line[..|r|]
    ensures !Contains(line, marker) ==> r == line
  {
    match Find(line, marker)
    case None => line
    case Some(i) => line[..i]
  }

  function CutLines(lines: seq<string>, marker: string): (r: seq<string>)
    ensures |r| == |lines|
    ensures forall k :: 0 <= k < |r| ==> r[k] == CutLine(lines[k], marker)
  {
    if lines == [] then [] else [CutLine(lines[0], marker)] + CutLines(lines[1..], marker)
  }

  lemma {:induction false} LineEndTail(s: string, k: nat)
    requires s != [] && 1 <= k <= |s|
    ensures LineEnd(s[1..], k - 1) == LineEnd(s, k) - 1
    decreases |s| - k
  {
    if k < |s| && s[k] != '\n' {
      LineEndTail(s, k + 1);
    }
  }

  /** Skipping a stretch without newlines does not move the end of the line. */
  lemma {:induction false} LineEndSkip(s: string, k: nat)
    requires k <= |s| && forall j :: 0 <= j < k ==> s[j] != '\n'
    ensures LineEnd(s, k) == LineEnd(s, 0)
    decreases k
  {
    if k > 0 {
      LineEndSkip(s, k - 1);
    }
  }

  /** A line that does not start with the marker keeps its first character. */
  lemma CutLineCons(t: string, marker: string)
    requires t != [] && marker != [] && !OccursAt(t, 0, marker)
    ensures CutLine(t, marker) == [t[0]] + CutLine(t[1..], marker)
  {
    match Find(t[1..], marker)
    case None =>
      assert t == [t[0]] + t[1..];
    case Some(x) =>
      assert t[..x + 1] == [t[0]] + t[1..][..x];
  }

  /** A line that starts with the marker is cut to nothing. */
  lemma CutLineAtMarker(s: string, e: nat, marker: string)
    requires |marker| <= e <= |s| && OccursAt(s, 0, marker)
    ensures CutLine(s[..e], marker) == []
  {
    OccursAtPrefix(s, e, 0, marker);
  }

  lemma StripAtMarker(s: string, marker: string)
    requires marker != [] && (forall j :: 0 <= j < |marker| ==> marker[j] != '\n') && OccursAt(s, 0, marker)
    ensures LineEnd(s, 0) >= |marker|
    ensures StripLineComments(s, marker) == StripLineComments(s[LineEnd(s, 0)..], marker)
  {
    forall j | 0 <= j < |marker| ensures s[j] != '\n' {
      assert s[j] == s[..|marker|][j];
    }
    LineEndSkip(s, |marker|);
  }

  /** The first line is cut at its marker; the rest of the text is processed on its own. */
  lemma {:induction false} StripFirstLine(s: string, marker: string)
    requires marker != [] && forall j :: 0 <= j < |marker| ==> marker[j] != '\n'
    ensures StripLineComments(s, marker)
         == CutLine(s[..LineEnd(s, 0)], marker) + StripLineComments(s[LineEnd(s, 0)..], marker)
    decreases |s|
  {
    var e := LineEnd(s, 0);
    if s == [] || s[0] == '\n' {
      assert e == 0;
    } else if OccursAt(s, 0, marker) {
      StripAtMarker(s, marker);
      CutLineAtMarker(s, e, marker);
    } else {
      StripFirstLine(s[1..], marker);
      StripFirstLineStep(s, marker);
    }
  }

  /** The step of `StripFirstLine` for a first character that is neither a newline nor a marker. */
  lemma StripFirstLineStep(s: string, marker: string)
    requires marker != [] && s != [] && s[0] != '\n' && !OccursAt(s, 0, marker)
    requires StripLineComments(s[1..], marker)
          == CutLine(s[1..][..LineEnd(s[1..], 0)], marker) + StripLineComments(s[1..][LineEnd(s[1..], 0)..], marker)
    ensures StripLineComments(s, marker)
         == CutLine(s[..LineEnd(s, 0)], marker) + StripLineComments(s[LineEnd(s, 0)..], marker)
  {
    var e := LineEnd(s, 0);
    TailPieces(s, marker);
    CutLineHead(s, marker);
    assert StripLineComments(s, marker) == [s[0]] + StripLineComments(s[1..], marker);
    Regroup(StripLineComments(s, marker), StripLineComments(s[1..], marker), CutLine(s[..e], marker),
            [s[0]], CutLine(s[..e][1..], marker), StripLineComments(s[e..], marker));
  }


  /** The tail's first line is the first line without its first character. */
  lemma TailPieces(s: string, marker: string)
    requires marker != [] && s != [] && s[0] != '\n'
    requires StripLineComments(s[1..], marker)
          == CutLine(s[1..][..LineEnd(s[1..], 0)], marker) + StripLineComments(s[1..][LineEnd(s[1..], 0)..], marker)
    ensures LineEnd(s, 0) >= 1
    ensures StripLineComments(s[1..], marker)
         == CutLine(s[..LineEnd(s, 0)][1..], marker) + StripLineComments(s[LineEnd(s, 0)..], marker)
  {
    LineEndShift(s);
    SliceShift(s, LineEnd(s, 0));
  }

  /** A first line that does not start with the marker keeps its first character. */
  lemma CutLineHead(s: string, marker: string)
    requires marker != [] && s != [] && s[0] != '\n' && !OccursAt(s, 0, marker)
    ensures LineEnd(s, 0) >= 1
    ensures CutLine(s[..LineEnd(s, 0)], marker) == [s[0]] + CutLine(s[..LineEnd(s, 0)][1..], marker)
  {
    var e := LineEnd(s, 0);
    LineEndShift(s);
    OccursAtPrefix(s, e, 0, marker);
    CutLineCons(s[..e], marker);
    assert s[..e][0] == s[0];
  }

  /** Past a first character that is not a newline, the line ends one position earlier in the tail. */
  lemma LineEndShift(s: string)
    requires s != [] && s[0] != '\n'
    ensures LineEnd(s, 0) >= 1 && LineEnd(s[1..], 0) == LineEnd(s, 0) - 1
  {
    assert LineEnd(s, 0) == LineEnd(s, 1);
    LineEndTail(s, 1);
  }

  lemma NoNewlineSplit(s: string)
    requires forall i :: 0 <= i < |s| ==> s[i] != '\n'
    ensures Split(s, "\n") == [s]
  {
    assert !Contains(s, "\n") by {
      forall i | 0 <= i <= |s| ensures !OccursAt(s, i, "\n") {
        if i < |s| { assert s[i..i + 1] == [s[i]]; }
      }
    }
  }

  /** `split` cuts at the first occurrence of the separator. */
  lemma SplitAtFind(s: string, sep: string, i: nat)
    requires sep != [] && Find(s, sep) == Some(i)
    ensures Split(s, sep) == [s[..i]] + Split(s[i + |sep|..], sep)
  {
  }

  lemma FirstNewlineSplit(s: string, e: nat)
    requires e < |s| && s[e] == '\n' && forall i :: 0 <= i < e ==> s[i] != '\n'
    ensures Split(s, "\n") == [s[..e]] + Split(s[e + 1..], "\n")
  {
    FindFirstChar(s, '\n', e);
    SplitAtFind(s, "\n", e);
  }

  lemma StripAtNewline(s: string, marker: string)
    requires marker != [] && marker[0] != '\n' && s != [] && s[0] == '\n'
    ensures StripLineComments(s, marker) == "\n" + StripLineComments(s[1..], marker)
  {
    if |marker| <= |s| {
      assert s[..|marker|][0] == s[0];
    }
  }

  /** The newline at `e` stays, and processing goes on after it. */
  lemma StripAtNewlineAt(s: string, e: nat, marker: string)
    requires marker != [] && marker[0] != '\n' && e < |s| && s[e] == '\n'
    ensures StripLineComments(s[e..], marker) == "\n" + StripLineComments(s[e + 1..], marker)
  {
    StripAtNewline(s[e..], marker);
    assert s[e..][1..] == s[e + 1..];
  }

  lemma CutLinesCons(line: string, tail: seq<string>, marker: string)
    requires tail != []
    ensures Join(CutLines([line] + tail, marker), "\n") == CutLine(line, marker) + "\n" + Join(CutLines(tail, marker), "\n")
  {
    assert CutLines([line] + tail, marker) == [CutLine(line, marker)] + CutLines(tail, marker);
  }

  /**
    One-line comment removal works line by line: each line is cut at the
    first marker and the newlines themselves stay.
  */
  lemma {:induction false} StripLineCommentsByLines(s: string, marker: string)
    requires marker != [] && forall j :: 0 <= j < |marker| ==> marker[j] != '\n'
    ensures StripLineComments(s, marker) == Join(CutLines(Split(s, "\n"), marker), "\n")
    decreases |s|
  {
    var e := LineEnd(s, 0);
    if e == |s| {
      StripFirstLine(s, marker);
      NoNewlineSplit(s);
      assert s[..e] == s;
    } else {
      var line, rest := FirstLineFacts(s, marker);
      StripLineCommentsByLines(rest, marker);
      LinesCombine(StripLineComments(s, marker), StripLineComments(rest, marker), line,
                   Split(rest, "\n"), Split(s, "\n"), marker);
    }
  }

  /**
    A text with a newline is its first `line`, the newline and the `rest`:
    it splits into that line and the rest's lines, and comment removal
    cuts that line and goes on with the rest.
  */
  lemma FirstLineFacts(s: string, marker: string) returns (line: string, rest: string)
    requires marker != [] && forall j :: 0 <= j < |marker| ==> marker[j] != '\n'
    requires LineEnd(s, 0) < |s|
    ensures |rest| < |s|
    ensures Split(s, "\n") == [line] + Split(rest, "\n")
    ensures StripLineComments(s, marker) == CutLine(line, marker) + ("\n" + StripLineComments(rest, marker))
  {
    var e := LineEnd(s, 0);
    line, rest := s[..e], s[e + 1..];
    FirstLineThenRest(s, marker);
    FirstNewlineSplit(s, e);
  }

  /** Past the first newline, the remaining text is processed on its own. */
  lemma FirstLineThenRest(s: string, marker: string)
    requires marker != [] && forall j :: 0 <= j < |marker| ==> marker[j] != '\n'
    requires LineEnd(s, 0) < |s|
    ensures StripLineComments(s, marker)
         == CutLine(s[..LineEnd(s, 0)], marker) + ("\n" + StripLineComments(s[LineEnd(s, 0) + 1..], marker))
  {
    StripFirstLine(s, marker);
    StripAtNewlineAt(s, LineEnd(s, 0), marker);
  }

  /** A first line, cut, then a newline, then the processed remaining lines, is the processed text. */
  lemma LinesCombine(whole: string, restDone: string, line: string, tail: seq<string>, lines: seq<string>, marker: string)
    requires lines == [line] + tail && tail != []
    requires whole == CutLine(line, marker) + ("\n" + restDone)
    requires restDone == Join(CutLines(tail, marker), "\n")
    ensures whole == Join(CutLines(lines, marker), "\n")
  {
    CutLinesCons(line, tail, marker);
    Assoc(CutLine(line, marker), "\n", restDone);
  }

  /** On a single line (no newline up to the end), one-line comment removal keeps exactly the text before the first marker. */
  lemma OneLineCut(s: string, marker: string, i: nat)
    requires marker != [] && forall j :: 0 <= j < |marker| ==> marker[j] != '\n'
    requires LineEnd(s, 0) == |s|
    requires Find(s, marker) == Some(i)
    ensures StripLineComments(s, marker) == s[..i]
  {
    StripLineCommentsByLines(s, marker);
    NoNewlineSplit(s);
    assert CutLines([s], marker) == [s[..i]];
  }

  // ---------------------------------------------------------------------
  // Block comments
  // ---------------------------------------------------------------------

  /** One alternative `opener.*?closer` of a block-comment pattern. */
  datatype Delimiters = Delimiters(opener: string, closer: string)

  predicate ValidDelimiters(alts: seq<Delimiters>) {
    forall k :: 0 <= k < |alts| ==> alts[k].opener != [] && alts[k].closer != []
  }

  /**
    The length of the block comment matched at the start of `s`: the first
    alternative whose opener starts `s` and whose closer occurs after it
    wins, and the comment ends at that first closer.
  */
  function BlockMatchLength(s: string, alts: seq<Delimiters>): (r: Option<nat>)
    requires ValidDelimiters(alts)
    ensures r.Some? ==> 0 < r.value <= |s|
    ensures r.Some? ==> exists k :: 0 <= k < |alts| && OccursAt(s, 0, alts[k].opener)
    decreases |alts|
  {
    if alts == [] then None
    else
      var d := alts[0];
      if OccursAt(s, 0, d.opener) then
        match Find(s[|d.opener|..], d.closer)
        case Some(k) => Some(|d.opener| + k + |d.closer|)
        case None => BlockMatchLength(s, alts[1..])
      else BlockMatchLength(s, alts[1..])
  }

  /** `re.sub(pattern, '', s, flags=re.DOTALL)` for a block-comment pattern. */
  function StripBlockComments(s: string, alts: seq<Delimiters>): (r: string)
    requires ValidDelimiters(alts)
    ensures |r| <= |s|
    decreases |s|
  {
    if s == [] then []
    else
      match BlockMatchLength(s, alts)
      case Some(n) => StripBlockComments(s[n..], alts)
      case None => [s[0]] + StripBlockComments(s[1..], alts)
  }

  /** Text in which no opener occurs is left as it is. */
  lemma {:induction false} StripBlockCommentsNoOpener(s: string, alts: seq<Delimiters>)
    requires ValidDelimiters(alts)
    requires forall k :: 0 <= k < |alts| ==> !Contains(s, alts[k].opener)
    ensures StripBlockComments(s, alts) == s
    decreases |s|
  {
    if s != [] {
      forall k | 0 <= k < |alts| ensures !Contains(s[1..], alts[k].opener) {
        ContainsDrop(s, 1, alts[k].opener);
      }
      StripBlockCommentsNoOpener(s[1..], alts);
    }
  }

  /** Without any closer, no alternative matches: an opener alone starts no comment. */
  lemma {:induction false} NoCloserNoMatch(s: string, alts: seq<Delimiters>)
    requires ValidDelimiters(alts)
    requires forall k :: 0 <= k < |alts| ==> !Contains(s, alts[k].closer)
    ensures BlockMatchLength(s, alts).None?
    decreases |alts|
  {
    if alts != [] {
      if OccursAt(s, 0, alts[0].opener) {
        ContainsDrop(s, |alts[0].opener|, alts[0].closer);
      }
      assert forall k :: 0 <= k < |alts[1..]| ==> alts[1..][k] == alts[k + 1];
      NoCloserNoMatch(s, alts[1..]);
    }
  }

  /** Text in which no closer occurs is left as it is, openers included. */
  lemma {:induction false} StripBlockCommentsNoCloser(s: string, alts: seq<Delimiters>)
    requires ValidDelimiters(alts)
    requires forall k :: 0 <= k < |alts| ==> !Contains(s, alts[k].closer)
    ensures StripBlockComments(s, alts) == s
    decreases |s|
  {
    if s != [] {
      NoCloserNoMatch(s, alts);
      forall k | 0 <= k < |alts| ensures !Contains(s[1..], alts[k].closer) {
        ContainsDrop(s, 1, alts[k].closer);
      }
      StripBlockCommentsNoCloser(s[1..], alts);
    }
  }

  /**
    Why the order of the two comment passes matters: on one line, a
    one-line marker before the block closer removes the closer, so the
    block pass then finds no closer and the opener and the comment text
    before the marker survive.
  */
  lemma MarkerHidesCloser(s: string, marker: string, i: nat, alts: seq<Delimiters>)
    requires marker != [] && forall j :: 0 <= j < |marker| ==> marker[j] != '\n'
    requires LineEnd(s, 0) == |s|
    requires Find(s, marker) == Some(i)
    requires ValidDelimiters(alts) && forall k :: 0 <= k < |alts| ==> !Contains(s[..i], alts[k].closer)
    ensures StripBlockComments(StripLineComments(s, marker), alts) == s[..i]
  {
    OneLineCut(s, marker, i);
    StripBlockCommentsNoCloser(s[..i], alts);
  }

  /** The first closer after a body that holds none is the one right after it. */
  lemma FindClosingDelimiter(body: string, closer: string, rest: string)
    requires closer != [] && !Contains(body + closer[..|closer| - 1], closer)
    ensures Find(body + closer + rest, closer) == Some(|body|)
  {
    var t := body + closer + rest;
    var w := body + closer[..|closer| - 1];
    assert OccursAt(t, |body|, closer) by { assert t[|body|..|body| + |closer|] == closer; }
    var f := Find(t, closer);
    assert f.Some?;
    if f.value < |body| {
      var n := |body| + |closer| - 1;
      assert w == t[..n];
      OccursAtPrefix(t, n, f.value, closer);
    }
  }

  /** When the first alternative's opener starts `s` and its closer follows, that alternative is matched. */
  lemma FirstAlternativeMatches(s: string, alts: seq<Delimiters>, k: nat)
    requires ValidDelimiters(alts) && alts != [] && OccursAt(s, 0, alts[0].opener)
    requires Find(s[|alts[0].opener|..], alts[0].closer) == Some(k)
    ensures BlockMatchLength(s, alts) == Some(|alts[0].opener| + k + |alts[0].closer|)
  {
  }

  lemma OpenerAtFront(x: string, a: string, b: string, c: string)
    ensures OccursAt(x + a + b + c, 0, x)
    ensures (x + a + b + c)[|x|..] == a + b + c
  {
    assert (x + a + b + c)[..|x|] == x;
  }

  /**
    A comment at the front is matched lazily: when the first closer after
    the opener sits right after `body`, the match is opener, body and closer.
  */
  lemma BlockAtFront(s: string, d: Delimiters, alts: seq<Delimiters>, body: string, rest: string)
    requires ValidDelimiters(alts) && alts != [] && alts[0] == d
    requires Find(body + d.closer + rest, d.closer) == Some(|body|)
    requires s == d.opener + body + d.closer + rest
    ensures BlockMatchLength(s, alts) == Some(|d.opener| + |body| + |d.closer|)
  {
    OpenerAtFront(d.opener, body, d.closer, rest);
    FirstAlternativeMatches(s, alts, |body|);
  }

  /**
    A whole comment at the front disappears and scanning resumes right
    after its closer, provided the closer first appears where it is put
    (it does not already occur in the body or straddle the body's end).
  */
  lemma CommentAtFrontRemoved(d: Delimiters, alts: seq<Delimiters>, body: string, rest: string)
    requires ValidDelimiters(alts) && alts != [] && alts[0] == d
    requires !Contains(body + d.closer[..|d.closer| - 1], d.closer)
    ensures StripBlockComments(d.opener + body + d.closer + rest, alts) == StripBlockComments(rest, alts)
  {
    var s := d.opener + body + d.closer + rest;
    FindClosingDelimiter(body, d.closer, rest);
    BlockAtFront(s, d, alts, body, rest);
    assert s[|d.opener| + |body| + |d.closer|..] == rest;
  }

  // ---------------------------------------------------------------------
  // Identifier masking
  // ---------------------------------------------------------------------

  /** What every masked identifier becomes. */
  const Placeholder: string := "xxx"

  /** The length of the run of word characters at the start of `s`. */
  function WordRunLength(s: string): (n: nat)
    ensures n <= |s|
    ensures forall i :: 0 <= i < n ==> IsWordChar(s[i])
    ensures n < |s| ==> !IsWordChar(s[n])
  {
    if s == [] || !IsWordChar(s[0]) then 0 else 1 + WordRunLength(s[1..])
  }

  predicate AllWordChars(w: string) {
    forall i :: 0 <= i < |w| ==> IsWordChar(w[i])
  }

  /** What a whole word token becomes: a non-keyword identifier is masked, anything else is kept. */
  function MaskToken(w: string, keywords: seq<string>): (r: string)
    requires AllWordChars(w)
    ensures IsIdentifier(w) && w !in keywords ==> r == Placeholder
    ensures !(IsIdentifier(w) && w !in keywords) ==> r == w
  {
    if w != [] && IsIdentStart(w[0]) && w !in keywords then Placeholder else w
  }

  /**
    `re.sub(IDENTIFIER, 'xxx', s)`. Each call starts at a token boundary:
    the text start, or just after a non-word character or a whole token.
  */
  function MaskIdentifiers(s: string, keywords: seq<string>): (r: string)
    decreases |s|
  {
    if s == [] then []
    else if !IsWordChar(s[0]) then [s[0]] + MaskIdentifiers(s[1..], keywords)
    else
      var n := WordRunLength(s);
      MaskToken(s[..n], keywords) + MaskIdentifiers(s[n..], keywords)
  }

  /** Text in which no character can start an identifier is left as it is. */
  lemma {:induction false} MaskNoIdentifierStart(s: string, keywords: seq<string>)
    requires forall i :: 0 <= i < |s| ==> !IsIdentStart(s[i])
    ensures MaskIdentifiers(s, keywords) == s
    decreases |s|
  {
    if s != [] {
      if !IsWordChar(s[0]) {
        MaskNoIdentifierStart(s[1..], keywords);
      } else {
        MaskNoIdentifierStart(s[WordRunLength(s)..], keywords);
        DigitRunKept(s, keywords);
      }
    }
  }

  /** A token starting with a digit is kept, so it is kept in front of a text that is kept. */
  lemma DigitRunKept(s: string, keywords: seq<string>)
    requires s != [] && IsWordChar(s[0]) && !IsIdentStart(s[0])
    requires MaskIdentifiers(s[WordRunLength(s)..], keywords) == s[WordRunLength(s)..]
    ensures MaskIdentifiers(s, keywords) == s
  {
    var n := WordRunLength(s);
    MaskUnfoldsWord(s, keywords);
    DigitTokenKept(s[..n], keywords);
    assert s[..n] + s[n..] == s;
  }

  /** Text starting with a word character masks as its first token and then the rest. */
  lemma MaskUnfoldsWord(s: string, keywords: seq<string>)
    requires s != [] && IsWordChar(s[0])
    ensures 0 < WordRunLength(s) <= |s| && AllWordChars(s[..WordRunLength(s)])
    ensures MaskIdentifiers(s, keywords)
      == MaskToken(s[..WordRunLength(s)], keywords) + MaskIdentifiers(s[WordRunLength(s)..], keywords)
  {
    assert AllWordChars(s[..WordRunLength(s)]);
  }

  /** A token whose first character is a digit is kept. */
  lemma DigitTokenKept(w: string, keywords: seq<string>)
    requires w != [] && AllWordChars(w) && !IsIdentStart(w[0])
    ensures MaskToken(w, keywords) == w
  {
  }

  /** Text that is empty or starts with a non-word character sits on a token boundary. */
  predicate AtBoundary(s: string) {
    s == [] || !IsWordChar(s[0])
  }

  lemma {:induction false} WordRunOfToken(w: string, rest: string)
    requires AllWordChars(w) && AtBoundary(rest)
    ensures WordRunLength(w + rest) == |w|
    decreases |w|
  {
    if w != [] {
      assert (w + rest)[0] == w[0];
      assert (w + rest)[1..] == w[1..] + rest;
      WordRunOfToken(w[1..], rest);
    }
  }

  /** A whole token followed by a boundary is masked on its own. */
  lemma MaskTokenThenRest(w: string, rest: string, keywords: seq<string>)
    requires w != [] && AllWordChars(w) && AtBoundary(rest)
    ensures MaskIdentifiers(w + rest, keywords) == MaskToken(w, keywords) + MaskIdentifiers(rest, keywords)
  {
    var s := w + rest;
    WordRunOfToken(w, rest);
    assert s[0] == w[0];
    assert s[..|w|] == w && s[|w|..] == rest;
  }

  /** A keyword token is kept; any other identifier token becomes `xxx`. */
  lemma MaskWholeToken(w: string, rest: string, keywords: seq<string>)
    requires IsIdentifier(w) && AtBoundary(rest)
    ensures w in keywords ==> MaskIdentifiers(w + rest, keywords) == w + MaskIdentifiers(rest, keywords)
    ensures w !in keywords ==> MaskIdentifiers(w + rest, keywords) == Placeholder + MaskIdentifiers(rest, keywords)
  {
    MaskTokenThenRest(w, rest, keywords);
  }

  lemma MaskedStartsAtBoundary(s: string, keywords: seq<string>)
    requires AtBoundary(s)
    ensures AtBoundary(MaskIdentifiers(s, keywords))
  {
  }

  /** Masking depends only on which words are keywords, not on the list's order or repeats. */
  lemma {:induction false} MaskSameMembership(s: string, k1: seq<string>, k2: seq<string>)
    requires forall w :: w in k1 <==> w in k2
    ensures MaskIdentifiers(s, k1) == MaskIdentifiers(s, k2)
    decreases |s|
  {
    if s == [] {
    } else if !IsWordChar(s[0]) {
      MaskSameMembership(s[1..], k1, k2);
    } else {
      var n := WordRunLength(s);
      MaskSameMembership(s[n..], k1, k2);
    }
  }

  /** Masking works piece by piece across a non-word character. */
  lemma {:induction false} MaskConcat(a: string, b: string, keywords: seq<string>)
    requires a == [] || !IsWordChar(a[|a| - 1])
    ensures MaskIdentifiers(a + b, keywords) == MaskIdentifiers(a, keywords) + MaskIdentifiers(b, keywords)
    decreases |a|
  {
    if a == [] {
      EmptyFront(b);
    } else if !IsWordChar(a[0]) {
      MaskConcat(a[1..], b, keywords);
      MaskConcatCharStep(a, b, keywords);
    } else {
      var n := MaskFirstTokenLength(a);
      MaskConcat(a[n..], b, keywords);
      MaskConcatWordStep(a, b, keywords, n);
    }
  }

  /** Masking also works piece by piece when the second piece starts on a token boundary. */
  lemma {:induction false} MaskBeforeBoundary(a: string, b: string, keywords: seq<string>)
    requires AtBoundary(b)
    ensures MaskIdentifiers(a + b, keywords) == MaskIdentifiers(a, keywords) + MaskIdentifiers(b, keywords)
    decreases |a|
  {
    if a == [] {
      EmptyFront(b);
    } else if !IsWordChar(a[0]) {
      MaskBeforeBoundary(a[1..], b, keywords);
      MaskConcatCharStep(a, b, keywords);
    } else if WordRunLength(a) == |a| {
      MaskWholeTokenThenRest(a, b, keywords);
    } else {
      var n := WordRunLength(a);
      MaskBeforeBoundary(a[n..], b, keywords);
      MaskConcatWordStep(a, b, keywords, n);
    }
  }

  /** A text that is one whole token masks as that token, whatever boundary follows it. */
  lemma MaskWholeTokenThenRest(a: string, b: string, keywords: seq<string>)
    requires a != [] && WordRunLength(a) == |a| && AtBoundary(b)
    ensures MaskIdentifiers(a + b, keywords) == MaskIdentifiers(a, keywords) + MaskIdentifiers(b, keywords)
  {
    assert AllWordChars(a);
    MaskTokenThenRest(a, b, keywords);
    MaskTokenThenRest(a, [], keywords);
    assert a + [] == a;
  }

  /** The first token of `a` is followed by the rest of `a`, which still ends in a non-word character. */
  lemma MaskFirstTokenLength(a: string) returns (n: nat)
    requires a != [] && IsWordChar(a[0]) && !IsWordChar(a[|a| - 1])
    ensures n == WordRunLength(a) && 0 < n < |a|
    ensures !IsWordChar(a[n..][|a[n..]| - 1])
  {
    n := WordRunLength(a);
    assert AllWordChars(a[..n]);
  }

  /** The step of `MaskConcat` past the first token. */
  lemma MaskConcatWordStep(a: string, b: string, keywords: seq<string>, n: nat)
    requires a != [] && IsWordChar(a[0])
    requires n == WordRunLength(a) && n < |a|
    requires MaskIdentifiers(a[n..] + b, keywords) == MaskIdentifiers(a[n..], keywords) + MaskIdentifiers(b, keywords)
    ensures MaskIdentifiers(a + b, keywords) == MaskIdentifiers(a, keywords) + MaskIdentifiers(b, keywords)
  {
    MaskFirstToken(a, b, keywords);
    Regroup(MaskIdentifiers(a + b, keywords), MaskIdentifiers(a[n..] + b, keywords), MaskIdentifiers(a, keywords),
            MaskToken(a[..n], keywords), MaskIdentifiers(a[n..], keywords), MaskIdentifiers(b, keywords));
  }

  /** The step of `MaskConcat` past a non-word character. */
  lemma MaskConcatCharStep(a: string, b: string, keywords: seq<string>)
    requires a != [] && !IsWordChar(a[0])
    requires MaskIdentifiers(a[1..] + b, keywords) == MaskIdentifiers(a[1..], keywords) + MaskIdentifiers(b, keywords)
    ensures MaskIdentifiers(a + b, keywords) == MaskIdentifiers(a, keywords) + MaskIdentifiers(b, keywords)
  {
    assert (a + b)[0] == a[0];
    assert (a + b)[1..] == a[1..] + b;
    assert MaskIdentifiers(a + b, keywords) == [a[0]] + MaskIdentifiers(a[1..] + b, keywords);
    Regroup(MaskIdentifiers(a + b, keywords), MaskIdentifiers(a[1..] + b, keywords), MaskIdentifiers(a, keywords),
            [a[0]], MaskIdentifiers(a[1..], keywords), MaskIdentifiers(b, keywords));
  }

  /** The first token of `a` is masked alike whether or not `b` follows, when `a` goes on past it. */
  lemma MaskFirstToken(a: string, b: string, keywords: seq<string>)
    requires a != [] && IsWordChar(a[0]) && WordRunLength(a) < |a|
    ensures 0 < WordRunLength(a) < |a|
    ensures MaskIdentifiers(a, keywords) ==
      MaskToken(a[..WordRunLength(a)], keywords) + MaskIdentifiers(a[WordRunLength(a)..], keywords)
    ensures MaskIdentifiers(a + b, keywords) ==
      MaskToken(a[..WordRunLength(a)], keywords) + MaskIdentifiers(a[WordRunLength(a)..] + b, keywords)
  {
    var n := WordRunLength(a);
    assert n < |a|;
    var w := a[..n];
    assert AllWordChars(w);
    assert a == w + a[n..];
    assert a + b == w + (a[n..] + b);
    MaskTokenThenRest(w, a[n..] + b, keywords);
    MaskTokenThenRest(w, a[n..], keywords);
  }

  /**
    Renaming an identifier token to another identifier, neither a keyword,
    leaves the masked text unchanged: renamed variables look alike.
  */
  lemma MaskRenameInvariant(a: string, x: string, y: string, b: string, keywords: seq<string>)
    requires a == [] || !IsWordChar(a[|a| - 1])
    requires AtBoundary(b)
    requires IsIdentifier(x) && IsIdentifier(y) && x !in keywords && y !in keywords
    ensures MaskIdentifiers(a + x + b, keywords) == MaskIdentifiers(a + y + b, keywords)
  {
    Assoc(a, x, b);
    Assoc(a, y, b);
    MaskConcat(a, x + b, keywords);
    MaskConcat(a, y + b, keywords);
    MaskWholeToken(x, b, keywords);
    MaskWholeToken(y, b, keywords);
  }

  /** The non-word characters of `s`, in order. */
  function Punctuation(s: string): (r: string)
    ensures |r| <= |s|
    ensures forall i :: 0 <= i < |r| ==> !IsWordChar(r[i])
  {
    if s == [] then []
    else if IsWordChar(s[0]) then Punctuation(s[1..])
    else [s[0]] + Punctuation(s[1..])
  }

  lemma {:induction false} PunctuationConcat(a: string, b: string)
    ensures Punctuation(a + b) == Punctuation(a) + Punctuation(b)
    decreases |a|
  {
    if a != [] {
      assert (a + b)[0] == a[0];
      assert (a + b)[1..] == a[1..] + b;
      PunctuationConcat(a[1..], b);
    } else {
      EmptyFront(b);
    }
  }

  lemma {:induction false} PunctuationOfWord(w: string)
    requires AllWordChars(w)
    ensures Punctuation(w) == []
    decreases |w|
  {
    if w != [] {
      PunctuationOfWord(w[1..]);
    }
  }

  /** Masking only rewrites word tokens: the other characters survive, in order. */
  lemma {:induction false} MaskKeepsPunctuation(s: string, keywords: seq<string>)
    ensures Punctuation(MaskIdentifiers(s, keywords)) == Punctuation(s)
    decreases |s|
  {
    if s == [] {
    } else if !IsWordChar(s[0]) {
      MaskKeepsPunctuation(s[1..], keywords);
      PunctuationCharStep(s, keywords);
    } else {
      MaskKeepsPunctuation(s[WordRunLength(s)..], keywords);
      PunctuationWordStep(s, keywords);
    }
  }

  /** The step of `MaskKeepsPunctuation` past a non-word character. */
  lemma PunctuationCharStep(s: string, keywords: seq<string>)
    requires s != [] && !IsWordChar(s[0])
    requires Punctuation(MaskIdentifiers(s[1..], keywords)) == Punctuation(s[1..])
    ensures Punctuation(MaskIdentifiers(s, keywords)) == Punctuation(s)
  {
    assert s == [s[0]] + s[1..];
    PunctuationAgree(MaskIdentifiers(s, keywords), s, [s[0]], MaskIdentifiers(s[1..], keywords), [s[0]], s[1..]);
  }

  /** The step of `MaskKeepsPunctuation` past a word token. */
  lemma PunctuationWordStep(s: string, keywords: seq<string>)
    requires s != [] && IsWordChar(s[0])
    requires Punctuation(MaskIdentifiers(s[WordRunLength(s)..], keywords)) == Punctuation(s[WordRunLength(s)..])
    ensures Punctuation(MaskIdentifiers(s, keywords)) == Punctuation(s)
  {
    var n := WordRunLength(s);
    var w := s[..n];
    PunctuationOfWord(w);
    PunctuationOfWord(MaskToken(w, keywords));
    assert s == w + s[n..];
    PunctuationAgree(MaskIdentifiers(s, keywords), s, MaskToken(w, keywords), MaskIdentifiers(s[n..], keywords), w, s[n..]);
  }

  /** Texts made of parts with the same punctuation have the same punctuation. */
  lemma PunctuationAgree(x: string, y: string, a: string, b: string, c: string, d: string)
    requires x == a + b && y == c + d
    requires Punctuation(a) == Punctuation(c) && Punctuation(b) == Punctuation(d)
    ensures Punctuation(x) == Punctuation(y)
  {
    PunctuationConcat(a, b);
    PunctuationConcat(c, d);
  }

  /**
    Masking twice is masking once, as long as the placeholder is not itself
    a keyword: `xxx` stays `xxx`, and kept tokens are kept again.
  */
  lemma {:induction false} MaskIdempotent(s: string, keywords: seq<string>)
    requires Placeholder !in keywords
    ensures MaskIdentifiers(MaskIdentifiers(s, keywords), keywords) == MaskIdentifiers(s, keywords)
    decreases |s|
  {
    if s == [] {
    } else if !IsWordChar(s[0]) {
      var m := MaskIdentifiers(s[1..], keywords);
      MaskIdempotent(s[1..], keywords);
      assert ([s[0]] + m)[1..] == m;
    } else {
      var n := WordRunLength(s);
      var w := s[..n];
      var tok := MaskToken(w, keywords);
      var m := MaskIdentifiers(s[n..], keywords);
      MaskIdempotent(s[n..], keywords);
      MaskedStartsAtBoundary(s[n..], keywords);
      assert AllWordChars(tok);
      MaskTokenThenRest(tok, m, keywords);
      assert MaskToken(tok, keywords) == tok;
    }
  }

  // ---------------------------------------------------------------------
  // Blanks
  // ---------------------------------------------------------------------

  /** The class `[ \t\n]`; a carriage return is not in it. */
  predicate IsBlank(c: char) {
    c == ' ' || c == '\t' || c == '\n'
  }

  /** `r` is `s` with some characters left out, the others kept in order. */
  predicate IsSubsequence(r: string, s: string)
    decreases |s|
  {
    r == [] || (s != [] && ((r[0] == s[0] && IsSubsequence(r[1..], s[1..])) || IsSubsequence(r, s[1..])))
  }

  /**
    `re.sub('[ \t\n]+', '', s)`: every blank goes, every other character
    stays, and the ones that stay keep their order.
  */
  function DeleteBlanks(s: string): (r: string)
    ensures forall i :: 0 <= i < |r| ==> !IsBlank(r[i])
    ensures forall c :: !IsBlank(c) ==> multiset(r)[c] == multiset(s)[c]
    ensures IsSubsequence(r, s)
  {
    if s == [] then []
    else
      var r := DeleteBlanks(s[1..]);
      assert s == [s[0]] + s[1..];
      if IsBlank(s[0]) then r else [s[0]] + r
  }

  /** Text without blanks is its own blank-free form. */
  lemma {:induction false} DeleteBlanksNoBlanks(s: string)
    requires forall i :: 0 <= i < |s| ==> !IsBlank(s[i])
    ensures DeleteBlanks(s) == s
    decreases |s|
  {
    if s != [] {
      DeleteBlanksNoBlanks(s[1..]);
    }
  }

  lemma DeleteBlanksIdempotent(s: string)
    ensures DeleteBlanks(DeleteBlanks(s)) == DeleteBlanks(s)
  {
    DeleteBlanksNoBlanks(DeleteBlanks(s));
  }

  lemma {:induction false} DeleteBlanksConcat(a: string, b: string)
    ensures DeleteBlanks(a + b) == DeleteBlanks(a) + DeleteBlanks(b)
    decreases |a|
  {
    if a != [] {
      DeleteBlanksConcat(a[1..], b);
      DeleteBlanksStep(a, b);
    } else {
      EmptyFront(b);
    }
  }

  /** A character in front is dropped if it is blank and kept otherwise. */
  lemma DeleteBlanksCons(c: char, t: string)
    ensures DeleteBlanks([c] + t) == (if IsBlank(c) then [] else [c]) + DeleteBlanks(t)
  {
    assert ([c] + t)[0] == c && ([c] + t)[1..] == t;
  }

  /** The step of `DeleteBlanksConcat` past the first character of `a`. */
  lemma DeleteBlanksStep(a: string, b: string)
    requires a != []
    requires DeleteBlanks(a[1..] + b) == DeleteBlanks(a[1..]) + DeleteBlanks(b)
    ensures DeleteBlanks(a + b) == DeleteBlanks(a) + DeleteBlanks(b)
  {
    var h := if IsBlank(a[0]) then [] else [a[0]];
    HeadTail(a, b);
    DeleteBlanksCons(a[0], a[1..] + b);
    DeleteBlanksCons(a[0], a[1..]);
    Regroup(DeleteBlanks(a + b), DeleteBlanks(a[1..] + b), DeleteBlanks(a), h, DeleteBlanks(a[1..]), DeleteBlanks(b));
  }
}
