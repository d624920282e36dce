/**
  The copy detector of the `cheat` package: `setup` picks the language
  profile, `clean` computes a submission's canonical form, and `main`
  looks up the CSV column headers for the Moodle interface language and
  then collates the rows (see `Clustering`), writing `@etu.unice.fr`
  after each collaborator's id.
*/
module Dumbcopiers {
  import opened PyText
  import opened Canonical
  import opened CheatTables
  import opened Clustering

  /** The entries of the options dictionary that the modelled code reads. */
  datatype Options = Options(
    codeLanguage: string,
    exactCopiesOnly: bool,
    replaceIdentifiers: bool,
    moodleLanguage: string,
    question: string)

  /**
    `language_stuff`: the file extension, the one-line comment marker, the
    block-comment alternatives and the keywords the identifier pattern
    excludes.
  */
  datatype LanguageStuff = LanguageStuff(
    ext: string,
    oneLineComment: string,
    multiLineComment: seq<Delimiters>,
    keywords: seq<string>)

  /** The comment patterns can be scanned: markers, openers and closers are non-empty. */
  predicate Scannable(stuff: LanguageStuff) {
    stuff.oneLineComment != [] && ValidDelimiters(stuff.multiLineComment)
  }

  type Profile = stuff: LanguageStuff | Scannable(stuff) witness LanguageStuff("", "#", [], [])

  /**
    `setup(optionals)`: the keyword list is looked up first, then the
    extension and the two comment patterns; an unknown language raises
    `KeyError` at the first lookup.
  */
  function Setup(opts: Options): (r: Result<Profile>)
    ensures r.KeyError? <==> opts.codeLanguage !in Languages
    ensures r.KeyError? ==> r.key == opts.codeLanguage
    ensures r.Ok? ==> r.value.keywords == Keywords[opts.codeLanguage]
    ensures r.Ok? ==> r.value.oneLineComment == OneLineComments[opts.codeLanguage]
    ensures r.Ok? ==> r.value.multiLineComment == MultiLineComments[opts.codeLanguage]
    ensures r.Ok? ==> r.value.ext == LanguageExtensions[opts.codeLanguage]
  {
    var lang := opts.codeLanguage;
    TablesShareLanguages();
    if lang !in Keywords then KeyError(lang)
    else if lang !in LanguageExtensions then KeyError(lang)
    else if lang !in OneLineComments then KeyError(lang)
    else if lang !in MultiLineComments then KeyError(lang)
    else
      MarkersAreLineLocal(lang);
      BlocksAreValid(lang);
      var stuff: Profile := LanguageStuff(LanguageExtensions[lang], OneLineComments[lang], MultiLineComments[lang], Keywords[lang]);
      Ok(stuff)
  }

  /**
    `clean(s, language_stuff, optionals)`: unless only exact copies are
    wanted, drop one-line comments, then block comments, then (if asked)
    mask identifiers, then delete spaces, tabs and newlines.
  */
  function Clean(s: string, stuff: Profile, opts: Options): (r: string)
    ensures opts.exactCopiesOnly ==> r == s
    ensures !opts.exactCopiesOnly ==> forall i :: 0 <= i < |r| ==> !IsBlank(r[i])
  {
    if opts.exactCopiesOnly then s
    else
      var s1 := StripLineComments(s, stuff.oneLineComment);
      var s2 := StripBlockComments(s1, stuff.multiLineComment);
      var s3 := if opts.replaceIdentifiers then MaskIdentifiers(s2, stuff.keywords) else s2;
      DeleteBlanks(s3)
  }

  /** `clean` with the profile and options fixed, as `main` applies it to each response. */
  function Cleaner(stuff: Profile, opts: Options): string -> string {
    s => Clean(s, stuff, opts)
  }

  /** Text holding neither the one-line marker nor any block opener. */
  predicate CommentFree(s: string, stuff: Profile) {
    !Contains(s, stuff.oneLineComment)
    && forall k :: 0 <= k < |stuff.multiLineComment| ==> !Contains(s, stuff.multiLineComment[k].opener)
  }

  /** On text without comments, cleaning is masking (if asked) and deleting blanks. */
  lemma CleanCommentFree(s: string, stuff: Profile, opts: Options)
    requires !opts.exactCopiesOnly && CommentFree(s, stuff)
    ensures Clean(s, stuff, opts) ==
      DeleteBlanks(if opts.replaceIdentifiers then MaskIdentifiers(s, stuff.keywords) else s)
  {
    StripLineCommentsNoMarker(s, stuff.oneLineComment);
    StripBlockCommentsNoOpener(s, stuff.multiLineComment);
  }

  /**
    Renaming a non-keyword identifier in comment-free text does not change
    the canonical form when identifiers are masked: such copies are caught.
  */
  lemma CleanIgnoresRenaming(a: string, x: string, y: string, b: string, stuff: Profile, opts: Options)
    requires !opts.exactCopiesOnly && opts.replaceIdentifiers
    requires CommentFree(a + x + b, stuff) && CommentFree(a + y + b, stuff)
    requires a == [] || !IsWordChar(a[|a| - 1])
    requires AtBoundary(b)
    requires IsIdentifier(x) && IsIdentifier(y) && x !in stuff.keywords && y !in stuff.keywords
    ensures Clean(a + x + b, stuff, opts) == Clean(a + y + b, stuff, opts)
  {
    CleanCommentFree(a + x + b, stuff, opts);
    CleanCommentFree(a + y + b, stuff, opts);
    MaskRenameInvariant(a, x, y, b, stuff.keywords);
  }

  /** Without masking, comment-free texts that differ only in blanks have the same canonical form. */
  lemma CleanIgnoresBlanks(s: string, t: string, stuff: Profile, opts: Options)
    requires !opts.exactCopiesOnly && !opts.replaceIdentifiers
    requires CommentFree(s, stuff) && CommentFree(t, stuff)
    requires DeleteBlanks(s) == DeleteBlanks(t)
    ensures Clean(s, stuff, opts) == Clean(t, stuff, opts)
  {
    CleanCommentFree(s, stuff, opts);
    CleanCommentFree(t, stuff, opts);
  }

  // Comments are removed one-line first. In Java, a `//` inside a block
  // comment that opens and closes on one line cuts the line there, closing
  // star-slash included, so the block pass finds no closer: the opening
  // slash-star and the comment text `c` before the `//` stay in the
  // canonical form, and everything after the `//` (the rest of the comment,
  // its closer and the code after it) goes.
  lemma JavaMarkerInBlockComment(c: string, d: string, opts: Options)
    requires opts.codeLanguage == "java" && !opts.exactCopiesOnly
    requires forall j :: 0 <= j < |c| ==> c[j] != '\n' && c[j] != '/'
    requires forall j :: 0 <= j < |d| ==> d[j] != '\n'
    ensures Setup(opts).Ok?
    ensures Clean("/*" + c + "//" + d, Setup(opts).value, opts)
         == "/*" + DeleteBlanks(if opts.replaceIdentifiers then MaskIdentifiers(c, Setup(opts).value.keywords) else c)
  {
    var stuff := Setup(opts).value;
    MarkersAreLineLocal("java");
    assert stuff.multiLineComment == JavaBlocks;
    JavaCommentPasses(c, d);
    var m := if opts.replaceIdentifiers then MaskIdentifiers(c, stuff.keywords) else c;
    if opts.replaceIdentifiers {
      OpenerKeptByMask(c, stuff.keywords);
    }
    OpenerKeptByBlanks(m);
  }

  lemma JavaCommentPasses(c: string, d: string)
    requires forall j :: 0 <= j < |c| ==> c[j] != '\n' && c[j] != '/'
    requires forall j :: 0 <= j < |d| ==> d[j] != '\n'
    ensures StripBlockComments(StripLineComments("/*" + c + "//" + d, "//"), JavaBlocks) == "/*" + c
  {
    JavaLinePass(c, d);
    OpenerOnlySlash(c);
    AbsentAnchored("/*" + c, "*/", 0);
    JavaBlocksNeedCloser("/*" + c);
  }

  lemma JavaLinePass(c: string, d: string)
    requires forall j :: 0 <= j < |c| ==> c[j] != '\n' && c[j] != '/'
    requires forall j :: 0 <= j < |d| ==> d[j] != '\n'
    ensures StripLineComments("/*" + c + "//" + d, "//") == "/*" + c
  {
    JavaLineFacts(c, d);
    MarkersAreLineLocal("java");
    OneLineCut("/*" + c + "//" + d, "//", 2 + |c|);
  }

  /** Java text without a closing star-slash has no block comment to strip. */
  lemma JavaBlocksNeedCloser(v: string)
    requires !Contains(v, "*/")
    ensures StripBlockComments(v, JavaBlocks) == v
  {
    assert JavaBlocks[0].closer == "*/" && JavaBlocks[1].closer == "*/";
    StripBlockCommentsNoCloser(v, JavaBlocks);
  }

  /** In the opener and a slash-free `c`, the only slash is the first character. */
  lemma OpenerOnlySlash(c: string)
    requires forall j :: 0 <= j < |c| ==> c[j] != '/'
    ensures forall j :: 1 <= j < |"/*" + c| ==> ("/*" + c)[j] != '/'
  {
    var v := "/*" + c;
    forall j | 1 <= j < |v| ensures v[j] != '/' {
      if j >= 2 {
        assert v[j] == c[j - 2];
      }
    }
  }

  /** The sample line holds no newline, and its first `//` is the one after `c`. */
  lemma JavaLineFacts(c: string, d: string)
    requires forall j :: 0 <= j < |c| ==> c[j] != '\n' && c[j] != '/'
    requires forall j :: 0 <= j < |d| ==> d[j] != '\n'
    ensures var s := "/*" + c + "//" + d;
      LineEnd(s, 0) == |s| && Find(s, "//") == Some(2 + |c|) && s[..2 + |c|] == "/*" + c
  {
    var s := "/*" + c + "//" + d;
    forall j | 0 <= j < |s| ensures s[j] != '\n' {
      if 2 <= j < 2 + |c| {
        assert s[j] == c[j - 2];
      } else if 4 + |c| <= j {
        assert s[j] == d[j - 4 - |c|];
      }
    }
    var w := "/*" + c + "/";
    forall j | 1 <= j < |w| && w[j] == '/' ensures w[j - 1] != '/' {
      OpenerOnlySlash(c);
      assert j == |w| - 1;
      assert ("/*" + c)[j - 1] == w[j - 1];
    }
    AbsentAnchored(w, "//", 0);
    assert "//"[..1] == "/";
    FindClosingDelimiter("/*" + c, "//", d);
    assert s[..2 + |c|] == "/*" + c;
  }

  /** Masking keeps the two punctuation characters of the opener. */
  lemma OpenerKeptByMask(c: string, keywords: seq<string>)
    ensures MaskIdentifiers("/*" + c, keywords) == "/*" + MaskIdentifiers(c, keywords)
  {
    MaskConcat("/*", c, keywords);
    MaskNoIdentifierStart("/*", keywords);
  }

  /** Blank deletion keeps the opener. */
  lemma OpenerKeptByBlanks(x: string)
    ensures DeleteBlanks("/*" + x) == "/*" + DeleteBlanks(x)
  {
    TwoNonBlanksKept('/', '*', x);
    PairInFront('/', '*', x);
    PairInFront('/', '*', DeleteBlanks(x));
  }

  lemma TwoNonBlanksKept(c: char, d: char, x: string)
    requires !IsBlank(c) && !IsBlank(d)
    ensures DeleteBlanks([c] + ([d] + x)) == [c] + ([d] + DeleteBlanks(x))
  {
    NonBlankKept(c, [d] + x);
    NonBlankKept(d, x);
  }

  lemma PairInFront(c: char, d: char, y: string)
    ensures [c] + ([d] + y) == [c, d] + y
  {
    assert ([c] + ([d] + y))[1..] == [d] + y;
  }

  lemma NonBlankKept(c: char, x: string)
    requires !IsBlank(c)
    ensures DeleteBlanks([c] + x) == [c] + DeleteBlanks(x)
  {
    DeleteBlanksCons(c, x);
  }

  /**
    The MATLAB analogue: the `%` pass empties the opener line `%{` and
    cuts the `%` off the closer line `}%` before the block pass runs, so
    the block pass finds no `%{`: a commented-out line `b` is cleaned as
    if it were code, followed by a stray `}`.
  */
  lemma MatlabBlockCommentCut(b: string, opts: Options)
    requires opts.codeLanguage == "matlab" && !opts.exactCopiesOnly
    requires forall j :: 0 <= j < |b| ==> b[j] != '\n' && b[j] != '%'
    ensures Setup(opts).Ok?
    ensures Clean("%{\n" + b + "\n}%", Setup(opts).value, opts) == Clean("\n" + b + "\n}", Setup(opts).value, opts)
  {
    MarkersAreLineLocal("matlab");
    MatlabBlocksListed();
    MatlabClean(b, Setup(opts).value, opts);
  }

  lemma MatlabClean(b: string, stuff: Profile, opts: Options)
    requires stuff.oneLineComment == "%" && stuff.multiLineComment == MatlabBlocks && !opts.exactCopiesOnly
    requires forall j :: 0 <= j < |b| ==> b[j] != '\n' && b[j] != '%'
    ensures Clean("%{\n" + b + "\n}%", stuff, opts) == Clean("\n" + b + "\n}", stuff, opts)
  {
    var t := "\n" + b + "\n}";
    MatlabCommentPasses(b);
    NoPercentAround(b);
    AbsentWithoutChar(t, "%", 0);
    AbsentWithoutChar(t, "%{", 0);
    CleanCommentFree(t, stuff, opts);
  }

  lemma MatlabCommentPasses(b: string)
    requires forall j :: 0 <= j < |b| ==> b[j] != '\n' && b[j] != '%'
    ensures StripBlockComments(StripLineComments("%{\n" + b + "\n}%", "%"), MatlabBlocks)
         == "\n" + b + "\n}"
  {
    MatlabLinePass(b);
    NoPercentAround(b);
    AbsentWithoutChar("\n" + b + "\n}", "%{", 0);
    MatlabBlocksNeedOpener("\n" + b + "\n}");
  }

  /** Around a `b` without `%`, the rebuilt lines hold no `%` either. */
  lemma NoPercentAround(b: string)
    requires forall j :: 0 <= j < |b| ==> b[j] != '%'
    ensures forall j :: 0 <= j < |"\n" + b + "\n}"| ==> ("\n" + b + "\n}")[j] != '%'
  {
    var t := "\n" + b + "\n}";
    forall j | 0 <= j < |t| ensures t[j] != '%' {
      if 1 <= j < 1 + |b| {
        assert t[j] == b[j - 1];
      }
    }
  }

  /** MATLAB text without `%{` has no block comment to strip. */
  lemma MatlabBlocksNeedOpener(t: string)
    requires !Contains(t, "%{")
    ensures StripBlockComments(t, MatlabBlocks) == t
  {
    assert MatlabBlocks[0].opener == "%{";
    StripBlockCommentsNoOpener(t, MatlabBlocks);
  }

  /** The `%` pass: the opener line empties, `b` stays, the closer line keeps its `}`. */
  lemma MatlabLinePass(b: string)
    requires forall j :: 0 <= j < |b| ==> b[j] != '\n' && b[j] != '%'
    ensures StripLineComments("%{\n" + b + "\n}%", "%") == "\n" + b + "\n}"
  {
    MatlabOpenerLine(b);
    MatlabBodyLines(b);
    Assoc("\n", b, "\n}");
  }

  lemma MatlabOpenerLine(b: string)
    ensures StripLineComments("%{\n" + b + "\n}%", "%") == "\n" + StripLineComments(b + "\n}%", "%")
  {
    var s := "%{\n" + b + "\n}%";
    assert s[..2] == "%{" && s[2] == '\n' && s[3..] == b + "\n}%";
    assert s[..1] == "%";
    assert LineEnd(s, 0) == LineEnd(s, 1) == LineEnd(s, 2) == 2;
    FirstLineThenRest(s, "%");
    CutLineAtMarker(s, 2, "%");
  }

  lemma MatlabBodyLines(b: string)
    requires forall j :: 0 <= j < |b| ==> b[j] != '\n' && b[j] != '%'
    ensures StripLineComments(b + "\n}%", "%") == b + "\n}"
  {
    var rest := b + "\n}%";
    BodyLineFacts(b);
    FirstLineThenRest(rest, "%");
    AbsentWithoutChar(b, "%", 0);
    ClosingLine();
    assert "\n" + "}" == "\n}";
  }

  lemma BodyLineFacts(b: string)
    requires forall j :: 0 <= j < |b| ==> b[j] != '\n'
    ensures var rest := b + "\n}%";
      LineEnd(rest, 0) == |b| && rest[..|b|] == b && rest[|b| + 1..] == "}%"
  {
    var rest := b + "\n}%";
    forall j | 0 <= j < |b| ensures rest[j] != '\n' {
      assert rest[j] == b[j];
    }
    assert rest[|b|] == '\n' && rest[..|b|] == b && rest[|b| + 1..] == "}%";
  }

  lemma ClosingLine()
    ensures StripLineComments("}%", "%") == "}"
  {
    assert LineEnd("}%", 0) == 2;
    FindFirstChar("}%", '%', 1);
    OneLineCut("}%", "%", 1);
  }

  /** The four CSV column headers `main` reads. */
  datatype Columns = Columns(email: string, firstName: string, surname: string, response: string)

  /**
    The headers for the Moodle interface language; the response column is
    the language's response header, a space and the question.
  */
  function ColumnsFor(opts: Options): (r: Result<Columns>)
    ensures r.KeyError? <==> opts.moodleLanguage !in HeadersLang
    ensures r.KeyError? ==> r.key == opts.moodleLanguage
    ensures opts.moodleLanguage == "english" ==>
      r == Ok(Columns("Email address", "First name", "Surname", "Response " + opts.question))
    ensures opts.moodleLanguage == "french" ==>
      r == Ok(Columns("Adresse de courriel", "Pr\U{e9}nom", "Nom", "R\U{e9}ponse " + opts.question))
  {
    if opts.moodleLanguage !in HeadersLang then KeyError(opts.moodleLanguage)
    else
      var headers := HeadersLang[opts.moodleLanguage];
      HeadersShareKeys();
      assert "Response" + " " == "Response " && "R\U{e9}ponse" + " " == "R\U{e9}ponse ";
      Ok(Columns(headers["email"], headers["first_name"], headers["surname"], headers["response"] + " " + opts.question))
  }

  /** The e-mail domain the package writes after each collaborator's id. */
  const Domain: string := "@etu.unice.fr"

  /**
    `main(optionals)` on rows already read through the column headers:
    `setup` and the header lookup may raise `KeyError` (the language is
    looked up first); otherwise the rows are collated with `clean`.
  */
  method FindCopies(opts: Options, rows: seq<Row>) returns (outcome: Result<Report>)
    ensures outcome.KeyError? <==> opts.codeLanguage !in Languages || opts.moodleLanguage !in HeadersLang
    ensures opts.codeLanguage !in Languages ==> outcome == KeyError(opts.codeLanguage)
    ensures opts.codeLanguage in Languages && opts.moodleLanguage !in HeadersLang ==>
      outcome == KeyError(opts.moodleLanguage)
    ensures outcome.Ok? ==> outcome.value == ReportOf(rows, Cleaner(Setup(opts).value, opts), Domain)
  {
    var setup := Setup(opts);
    if setup.KeyError? {
      return KeyError(setup.key);
    }
    var columns := ColumnsFor(opts);
    if columns.KeyError? {
      return KeyError(columns.key);
    }
    var report := Collate(rows, Cleaner(setup.value, opts), Domain);
    return Ok(report);
  }

  /** The package's addresses give back the ids they were built from. */
  lemma DomainRoundTrip(id: string)
    requires forall i :: 0 <= i < |id| ==> id[i] != '@'
    ensures StudentId(id + Domain) == id
  {
    IdOfAddress(id, Domain);
  }
}
