/**
  The earlier single-module copy detector, configured by module globals:
  its own tables (Python, C and MATLAB only), the profile looked up at
  import time for `LANGUAGE`, its `clean`, and a `main` that reads fixed
  English column headers and writes `@uclive.ac.nz` after each id.
*/
module LegacyDumbcopiers {
  import opened PyText
  import opened Canonical
  import CheatTables
  import opened Clustering
  import Dumbcopiers

  /** The user-configured globals. */
  const QuestionNum: nat := 5
  const ExactCopiesOnly: bool := false
  const IgnoreIdentifiers: bool := true
  const Language: string := "python"

  /** `'Response ' + str(QUESTION_NUM)`. */
  const Response: string := "Response 5"

  /** The languages the module's tables cover; Java is not among them. */
  const LegacyLanguages: set<string> := {"python", "c", "matlab"}

  const LanguageExtensions: map<string, string> := map["python" := ".py", "c" := ".c", "matlab" := ".m"]

  const OneLineComments: map<string, string> := map["python" := "#", "c" := "//", "matlab" := "%"]

  const MultiLineComments: map<string, seq<Delimiters>> :=
    map[
      "python" := [Delimiters("'''", "'''"), Delimiters("\"\"\"", "\"\"\"")],
      "c" := [Delimiters("/*", "*/")],
      "matlab" := [Delimiters("%{", "}%")]
    ]

  const Keywords: map<string, seq<string>> :=
    map[
      "python" := ["def", "for", "if", "while", "class", "return", "and",
                   "pass", "in", "try", "except", "print", "input",
                   "and", "from", "not", "or", "else", "elif"],
      "c" := ["case", "switch", "if", "for", "while", "struct",
              "void", "typedef", "int", "float", "double", "char",
              "do", "else", "const", "break", "long", "short",
              "signed", "include", "define", "return"],
      "matlab" := ["break", "case", "catch", "continue", "for", "function",
                   "if", "return", "switch", "try", "while", "else"]
    ]

  /** Each table holds the same entry as the package's table for every language it covers. */
  lemma TablesAgreeWithPackage(lang: string)
    requires lang in LegacyLanguages
    ensures lang in CheatTables.Languages
    ensures LanguageExtensions[lang] == CheatTables.LanguageExtensions[lang]
    ensures OneLineComments[lang] == CheatTables.OneLineComments[lang]
    ensures MultiLineComments[lang] == CheatTables.MultiLineComments[lang]
    ensures Keywords[lang] == CheatTables.Keywords[lang]
  {
  }

  /** The globals `clean` and the import-time lookups read. */
  datatype Settings = Settings(exactCopiesOnly: bool, ignoreIdentifiers: bool, language: string)

  /** The settings as the module ships them. */
  const Configured: Settings := Settings(ExactCopiesOnly, IgnoreIdentifiers, Language)

  /**
    The import-time lookups of `LANGUAGE_EXT`, `KEYWORD_PATTERN`,
    `ONE_LINE_COMMENT` and `MULTI_LINE_COMMENT`, in that order; a language
    outside the tables raises `KeyError` before `main` runs. Where it
    succeeds it is the package's profile for the same language.
  */
  function Profiled(language: string): (r: Result<Dumbcopiers.Profile>)
    ensures r.KeyError? <==> language !in LegacyLanguages
    ensures r.KeyError? ==> r.key == language
    ensures r.Ok? ==> r == Dumbcopiers.Setup(Dumbcopiers.Options(language, false, false, "", ""))
  {
    if language !in LanguageExtensions then KeyError(language)
    else if language !in Keywords then KeyError(language)
    else if language !in OneLineComments then KeyError(language)
    else if language !in MultiLineComments then KeyError(language)
    else
      TablesAgreeWithPackage(language);
      CheatTables.MarkersAreLineLocal(language);
      CheatTables.BlocksAreValid(language);
      var stuff: Dumbcopiers.Profile :=
        Dumbcopiers.LanguageStuff(LanguageExtensions[language], OneLineComments[language],
                                  MultiLineComments[language], Keywords[language]);
      Ok(stuff)
  }

  /** The shipped language is profiled; Java, which the package supports, is not. */
  lemma ShippedLanguageProfiled()
    ensures Profiled(Configured.language).Ok?
    ensures Profiled("java") == KeyError("java")
    ensures Dumbcopiers.Setup(Dumbcopiers.Options("java", false, false, "", "")).Ok?
  {
  }

  /**
    `clean(s)` over the globals: unless only exact copies are wanted, drop
    one-line comments, then block comments, then (if identifiers are
    ignored) mask identifiers, then delete spaces, tabs and newlines.
  */
  function Clean(s: string, settings: Settings, stuff: Dumbcopiers.Profile): (r: string)
    ensures settings.exactCopiesOnly ==> r == s
    ensures !settings.exactCopiesOnly ==> forall i :: 0 <= i < |r| ==> !IsBlank(r[i])
  {
    if settings.exactCopiesOnly then s
    else
      var s1 := StripLineComments(s, stuff.oneLineComment);
      var s2 := StripBlockComments(s1, stuff.multiLineComment);
      var s3 := if settings.ignoreIdentifiers then MaskIdentifiers(s2, stuff.keywords) else s2;
      DeleteBlanks(s3)
  }

  /** The package options that correspond to the globals. */
  function PackageOptions(settings: Settings): Dumbcopiers.Options {
    Dumbcopiers.Options(settings.language, settings.exactCopiesOnly, settings.ignoreIdentifiers, "english", "5")
  }

  /** For the same profile and options the two `clean` functions agree. */
  lemma CleanAgreesWithPackage(s: string, settings: Settings, stuff: Dumbcopiers.Profile)
    ensures Clean(s, settings, stuff) == Dumbcopiers.Clean(s, stuff, PackageOptions(settings))
  {
  }

  /** `clean` as `main` applies it. */
  function Cleaner(settings: Settings, stuff: Dumbcopiers.Profile): string -> string {
    s => Clean(s, settings, stuff)
  }

  /** The fixed English column headers `main` reads, which are the package's for English and question 5. */
  lemma ColumnsAreEnglish()
    ensures Dumbcopiers.ColumnsFor(PackageOptions(Configured)) ==
      Ok(Dumbcopiers.Columns("Email address", "First name", "Surname", Response))
  {
    assert "Response " + "5" == Response;
  }

  /** The e-mail domain this version writes after each collaborator's id. */
  const Domain: string := "@uclive.ac.nz"

  /**
    `main()` on rows already read through the fixed headers: the profile
    lookup may fail with `KeyError`; otherwise the rows are collated with
    `clean`.
  */
  method Run(settings: Settings, rows: seq<Row>) returns (outcome: Result<Report>)
    ensures outcome.KeyError? <==> settings.language !in LegacyLanguages
    ensures outcome.KeyError? ==> outcome.key == settings.language
    ensures outcome.Ok? ==> outcome.value == ReportOf(rows, Cleaner(settings, Profiled(settings.language).value), Domain)
  {
    var profile := Profiled(settings.language);
    if profile.KeyError? {
      return KeyError(profile.key);
    }
    var report := Collate(rows, Cleaner(settings, profile.value), Domain);
    return Ok(report);
  }

  /**
    For a language both versions cover and the same options, the two
    versions print the same names, clusters and collaborators; only the
    e-mail domain differs.
  */
  lemma SameReportAsPackage(settings: Settings, rows: seq<Row>)
    requires settings.language in LegacyLanguages
    ensures Dumbcopiers.Setup(PackageOptions(settings)).Ok?
    ensures
      var legacy := ReportOf(rows, Cleaner(settings, Profiled(settings.language).value), Domain);
      var package := ReportOf(rows, Dumbcopiers.Cleaner(Dumbcopiers.Setup(PackageOptions(settings)).value, PackageOptions(settings)), Dumbcopiers.Domain);
      legacy.names == package.names && legacy.clusters == package.clusters
      && legacy.collaborators == package.collaborators
      && legacy.emailList == Join(WithDomain(package.collaborators, Domain), ",")
  {
    var opts := PackageOptions(settings);
    var stuff := Profiled(settings.language).value;
    assert Dumbcopiers.Setup(opts).value == stuff;
    var c1 := Cleaner(settings, stuff);
    var c2 := Dumbcopiers.Cleaner(stuff, opts);
    forall s ensures c1(s) == c2(s) {
      CleanAgreesWithPackage(s, settings, stuff);
    }
    ProgsOfAgree(rows, c1, c2);
    assert SortedForms(rows, c1) == SortedForms(rows, c2);
    ReportParts(rows, c1, Domain);
    ReportParts(rows, c2, Dumbcopiers.Domain);
  }
}
