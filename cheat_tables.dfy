/**
  The constant tables of the `cheat` package: per language, the file
  extension, the one-line comment marker (the pattern is the marker
  followed by `[^\n]*`), the block-comment alternatives, the keyword list
  used to build the identifier pattern; and per Moodle interface
  language, the CSV column headers.
*/
module CheatTables {
  import opened PyText
  import opened Canonical

  /** The package defaults; the package's `main` reads its own options instead. */
  const ExactCopiesOnly: bool := false
  const IgnoreIdentifiers: bool := true

  /** The languages every table is indexed by. */
  const Languages: set<string> := {"java", "python", "c", "matlab"}

  const LanguageExtensions: map<string, string> :=
    map["java" := ".java", "python" := ".py", "c" := ".c", "matlab" := ".m"]

  const OneLineComments: map<string, string> :=
    map["java" := "//", "python" := "#", "c" := "//", "matlab" := "%"]

  /** The two Java alternatives, slash-star and slash-star-star, tried in that order. */
  const JavaBlocks: seq<Delimiters> := [Delimiters("/*", "*/"), Delimiters("/**", "*/")]

  /** MATLAB's one alternative, `%{` to `}%`. */
  const MatlabBlocks: seq<Delimiters> := [Delimiters("%{", "}%")]

  const MultiLineComments: map<string, seq<Delimiters>> :=
    map[
      "java" := JavaBlocks,
      "python" := [Delimiters("'''", "'''"), Delimiters("\"\"\"", "\"\"\"")],
      "c" := [Delimiters("/*", "*/")],
      "matlab" := MatlabBlocks
    ]

  const JavaKeywords: seq<string> :=
    ["case", "switch", "if", "for", "while",
     "void", "int", "float", "double", "char",
     "do", "else", "break", "long", "short", "boolean",
     "byte", "return", "class", "interface", "enum"]

  /** Lists `and` twice, at positions 6 and 13. */
  const PythonKeywords: seq<string> :=
    ["def", "for", "if", "while", "class", "return", "and",
     "pass", "in", "try", "except", "print", "input",
     "and", "from", "not", "or", "else", "elif"]

  const CKeywords: seq<string> :=
    ["case", "switch", "if", "for", "while", "struct",
     "void", "typedef", "int", "float", "double", "char",
     "do", "else", "const", "break", "long", "short",
     "signed", "include", "define", "return"]

  const MatlabKeywords: seq<string> :=
    ["break", "case", "catch", "continue", "for", "function",
     "if", "return", "switch", "try", "while", "else"]

  const Keywords: map<string, seq<string>> :=
    map["java" := JavaKeywords, "python" := PythonKeywords, "c" := CKeywords, "matlab" := MatlabKeywords]

  /** The column-header keys every Moodle language defines. */
  const HeaderKeys: set<string> := {"response", "email", "first_name", "surname"}

  const HeadersLang: map<string, map<string, string>> :=
    map[
      "english" := map["response" := "Response", "email" := "Email address",
                       "first_name" := "First name", "surname" := "Surname"],
      "french" := map["response" := "R\U{e9}ponse", "email" := "Adresse de courriel",
                      "first_name" := "Pr\U{e9}nom", "surname" := "Nom"]
    ]

  /** All four language tables are indexed by the same four languages. */
  lemma TablesShareLanguages()
    ensures LanguageExtensions.Keys == Languages
    ensures OneLineComments.Keys == Languages
    ensures MultiLineComments.Keys == Languages
    ensures Keywords.Keys == Languages
  {
  }

  /**
    Each one-line marker is non-empty and holds no newline, so stripping
    it works line by line; `//` serves Java and C, `#` Python, `%` MATLAB.
  */
  lemma MarkersAreLineLocal(lang: string)
    requires lang in OneLineComments
    ensures OneLineComments[lang] != []
    ensures forall j :: 0 <= j < |OneLineComments[lang]| ==> OneLineComments[lang][j] != '\n'
    ensures OneLineComments[lang] == (if lang == "python" then "#" else if lang == "matlab" then "%" else "//")
  {
  }

  /** MATLAB's block comments are `%{ ... }%`. */
  lemma MatlabBlocksListed()
    ensures "matlab" in MultiLineComments && MultiLineComments["matlab"] == MatlabBlocks
  {
  }

  /** Every block alternative has a non-empty opener and closer. */
  lemma BlocksAreValid(lang: string)
    requires lang in MultiLineComments
    ensures ValidDelimiters(MultiLineComments[lang])
  {
  }

  predicate AllIdentifiers(words: seq<string>) {
    forall k :: 0 <= k < |words| ==> IsIdentifier(words[k])
  }

  /** A list whose two halves are identifier lists is one. */
  lemma AllIdentifiersSplit(words: seq<string>, m: nat)
    requires m <= |words|
    requires AllIdentifiers(words[..m]) && AllIdentifiers(words[m..])
    ensures AllIdentifiers(words)
  {
    forall k | 0 <= k < |words| ensures IsIdentifier(words[k]) {
      if k < m {
        assert words[k] == words[..m][k];
      } else {
        assert words[k] == words[m..][k - m];
      }
    }
  }

  lemma JavaKeywordsFront() ensures AllIdentifiers(JavaKeywords[..7]) { }
  lemma JavaKeywordsMiddle() ensures AllIdentifiers(JavaKeywords[7..][..7]) { }
  lemma JavaKeywordsBack() ensures AllIdentifiers(JavaKeywords[14..]) { }

  lemma JavaKeywordsAreIdentifiers() ensures AllIdentifiers(JavaKeywords) {
    JavaKeywordsMiddle();
    JavaKeywordsBack();
    AllIdentifiersSplit(JavaKeywords[7..], 7);
    JavaKeywordsFront();
    AllIdentifiersSplit(JavaKeywords, 7);
  }

  lemma PythonKeywordsFront() ensures AllIdentifiers(PythonKeywords[..7]) { }
  lemma PythonKeywordsMiddle() ensures AllIdentifiers(PythonKeywords[7..][..7]) { }
  lemma PythonKeywordsBack() ensures AllIdentifiers(PythonKeywords[14..]) { }

  lemma PythonKeywordsAreIdentifiers() ensures AllIdentifiers(PythonKeywords) {
    PythonKeywordsMiddle();
    PythonKeywordsBack();
    AllIdentifiersSplit(PythonKeywords[7..], 7);
    PythonKeywordsFront();
    AllIdentifiersSplit(PythonKeywords, 7);
  }

  lemma CKeywordsFront() ensures AllIdentifiers(CKeywords[..7]) { }
  lemma CKeywordsMiddle() ensures AllIdentifiers(CKeywords[7..][..7]) { }
  lemma CKeywordsBack() ensures AllIdentifiers(CKeywords[14..]) { }

  lemma CKeywordsAreIdentifiers() ensures AllIdentifiers(CKeywords) {
    CKeywordsMiddle();
    CKeywordsBack();
    AllIdentifiersSplit(CKeywords[7..], 7);
    CKeywordsFront();
    AllIdentifiersSplit(CKeywords, 7);
  }

  lemma MatlabKeywordsFront() ensures AllIdentifiers(MatlabKeywords[..6]) { }
  lemma MatlabKeywordsBack() ensures AllIdentifiers(MatlabKeywords[6..]) { }

  lemma MatlabKeywordsAreIdentifiers() ensures AllIdentifiers(MatlabKeywords) {
    MatlabKeywordsFront();
    MatlabKeywordsBack();
    AllIdentifiersSplit(MatlabKeywords, 6);
  }

  /** Every keyword is an ASCII identifier, so whole-token masking can recognise it. */
  lemma KeywordsAreIdentifiers(lang: string)
    requires lang in Keywords
    ensures AllIdentifiers(Keywords[lang])
  {
    if lang == "java" {
      JavaKeywordsAreIdentifiers();
    } else if lang == "python" {
      PythonKeywordsAreIdentifiers();
    } else if lang == "c" {
      CKeywordsAreIdentifiers();
    } else {
      MatlabKeywordsAreIdentifiers();
    }
  }

  /** The placeholder `xxx` is no language's keyword. */
  lemma PlaceholderIsNoKeyword(lang: string)
    requires lang in Keywords
    ensures Placeholder !in Keywords[lang]
  {
  }

  /**
    Java's second block alternative never matches where the first does
    not: its three-character opener begins with the first one's two
    characters, and a closer after the longer opener is a closer after the
    shorter one.
  */
  lemma JavaSecondAlternativeRedundant(s: string)
    ensures BlockMatchLength(s, JavaBlocks) == BlockMatchLength(s, JavaBlocks[..1])
  {
    var tail := JavaBlocks[1..];
    if OccursAt(s, 0, "/**") {
      assert OccursAt(s, 0, "/*") by { assert s[..2] == s[..3][..2]; }
      if Find(s[2..], "*/").None? {
        assert s[2..][1..] == s[3..];
        ContainsDrop(s[2..], 1, "*/");
        assert BlockMatchLength(s, tail) == None by {
          assert tail[1..] == [];
        }
      }
    } else if !OccursAt(s, 0, "/*") {
      assert tail[1..] == [];
      if |s| >= 3 {
        assert s[..2] == s[..3][..2];
      }
    }
  }

  /** Hence Java block-comment removal is the same with or without the second alternative. */
  lemma {:induction false} JavaBlockStripSimplifies(s: string)
    ensures StripBlockComments(s, JavaBlocks) == StripBlockComments(s, JavaBlocks[..1])
    decreases |s|
  {
    if s != [] {
      JavaSecondAlternativeRedundant(s);
      match BlockMatchLength(s, JavaBlocks)
      case Some(n) =>
        JavaBlockStripSimplifies(s[n..]);
      case None =>
        JavaBlockStripSimplifies(s[1..]);
    }
  }

  /** The python list with its second `and` dropped. */
  const PythonKeywordsDeduplicated: seq<string> := PythonKeywords[..13] + PythonKeywords[14..]

  /** Python's repeated `and` changes neither keyword membership nor masking. */
  lemma PythonDuplicateHarmless(s: string)
    ensures PythonKeywords[6] == PythonKeywords[13] == "and"
    ensures forall w :: w in PythonKeywords <==> w in PythonKeywordsDeduplicated
    ensures MaskIdentifiers(s, PythonKeywords) == MaskIdentifiers(s, PythonKeywordsDeduplicated)
  {
    assert forall w :: w in PythonKeywords <==> w in PythonKeywordsDeduplicated by {
      forall w ensures w in PythonKeywords <==> w in PythonKeywordsDeduplicated {
        if w in PythonKeywords {
          var k :| 0 <= k < |PythonKeywords| && PythonKeywords[k] == w;
          if k == 13 {
            assert PythonKeywordsDeduplicated[6] == w;
          } else if k < 13 {
            assert PythonKeywordsDeduplicated[k] == w;
          } else {
            assert PythonKeywordsDeduplicated[k - 1] == w;
          }
        }
        if w in PythonKeywordsDeduplicated {
          var k :| 0 <= k < |PythonKeywordsDeduplicated| && PythonKeywordsDeduplicated[k] == w;
          if k < 13 {
            assert PythonKeywords[k] == w;
          } else {
            assert PythonKeywords[k + 1] == w;
          }
        }
      }
    }
    MaskSameMembership(s, PythonKeywords, PythonKeywordsDeduplicated);
  }

  /** Both Moodle languages define the same four column headers. */
  lemma HeadersShareKeys()
    ensures HeadersLang.Keys == {"english", "french"}
    ensures forall l :: l in HeadersLang ==> HeadersLang[l].Keys == HeaderKeys
  {
  }
}
