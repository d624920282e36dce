/**
  python_code_checkr: the answer assembly for Python answers. `_remove_cruft`
  comments out imports, leaves the main guard as it is and redirects the
  exact `main()` block to `diddle()`; `_add_cruft` puts the result after a
  fixed prelude of test imports.
*/
module PythonCodeCheckr {
  import opened PyText

  /** The main guard, without its colon, as counted and replaced. */
  const MainGuard: string := "if __name__ == '__main__'"

  /** The main block the last rule rewrites: the guard, then `main()` indented by four spaces. */
  const MainCall: string := MainGuard + ":\n    main()\n"

  /** What that block becomes. */
  const DiddleCall: string := MainGuard + ":\n    diddle()\n"

  /**
    `_remove_cruft`: comment out `import ` and then `from `; replace the
    main guard by itself, at most one fewer times than it occurs in the
    answer (a count of `-1` when it is absent, meaning all); then rewrite
    the main block.
  */
  function RemoveCruft(answer: string): (r: string)
    ensures !Contains(answer, "import ") && !Contains(answer, "from ") && !Contains(answer, MainCall) ==> r == answer
  {
    var mainCalls := Count(answer, MainGuard);
    var s1 := Replace(answer, "import ", "#import ");
    var s2 := Replace(s1, "from ", "#from ");
    var s3 := ReplaceUpTo(s2, MainGuard, MainGuard, mainCalls - 1);
    var r := Replace(s3, MainCall, DiddleCall);
    assert !Contains(answer, "import ") && !Contains(answer, "from ") && !Contains(answer, MainCall) ==> r == answer by {
      if !Contains(answer, "import ") && !Contains(answer, "from ") && !Contains(answer, MainCall) {
        ReplaceAbsent(answer, "import ", "#import ", -1);
        ReplaceAbsent(answer, "from ", "#from ", -1);
        ReplaceSelf(s2, MainGuard, mainCalls - 1);
        ReplaceAbsent(answer, MainCall, DiddleCall, -1);
      }
    }
    r
  }

  /** The guard rule changes nothing, whatever the number of main guards: only three rules act. */
  lemma GuardRuleIsIdentity(answer: string)
    ensures RemoveCruft(answer) ==
      Replace(Replace(Replace(answer, "import ", "#import "), "from ", "#from "), MainCall, DiddleCall)
  {
    var s2 := Replace(Replace(answer, "import ", "#import "), "from ", "#from ");
    ReplaceSelf(s2, MainGuard, Count(answer, MainGuard) - 1);
  }

  /** The exact main block is redirected to `diddle()`. */
  lemma MainBlockRewritten()
    ensures RemoveCruft(MainCall) == DiddleCall
  {
    MainCallHasNoImport();
    ReplaceAbsent(MainCall, "import ", "#import ", -1);
    ReplaceAbsent(MainCall, "from ", "#from ", -1);
    GuardRuleIsIdentity(MainCall);
    ShortAbsent([], MainCall);
    ReplaceAtFront(MainCall, DiddleCall, [], -1);
    EmptyBack(MainCall);
    EmptyBack(DiddleCall);
  }

  lemma MainCallHasNoImport()
    ensures !Contains(MainCall, "import ") && !Contains(MainCall, "from ")
  {
    MainCallHasNo("import ");
    MainCallHasNo("from ");
  }

  lemma MainCallHasNo(t: string)
    requires t == "import " || t == "from "
    ensures !Contains(MainCall, t)
  {
    AbsentAnchored(MainCall, t, 0);
  }

  /** The same block indented by two spaces is left alone. */
  lemma TwoSpaceBlockKept()
    ensures RemoveCruft(MainGuard + ":\n  main()\n") == MainGuard + ":\n  main()\n"
  {
    var s := MainGuard + ":\n  main()\n";
    AbsentAnchored(s, "import ", 0);
    AbsentAnchored(s, "from ", 0);
    ShortAbsent(s, MainCall);
  }

  /** A module or imported name: no spaces and no line breaks. */
  predicate Bare(w: string) {
    forall i :: 0 <= i < |w| ==> w[i] != ' ' && w[i] != '\n'
  }

  /** The `import` rule comments out the `import` of a `from` clause. */
  lemma ImportRuleInFromClause(m: string, n: string)
    requires Bare(m) && Bare(n) && !Contains(m + " ", "import ")
    ensures Replace("from " + m + " import " + n, "import ", "#import ") == "from " + m + " #import " + n
  {
    var a := "from " + m + " ";
    NoImportBeforeName(m);
    ReplacedAfter(a, "import ", "#import ", n);
    ImportClausePieces(a, m, n);
  }

  /** No `import ` starts before the one that follows the module name. */
  lemma NoImportBeforeName(m: string)
    requires !Contains(m + " ", "import ")
    ensures !Contains("from " + m + " " + "import "[..6], "import ")
  {
    var t := "import ";
    AbsentAfterPad("from ", m + " ", t);
    assert "from " + (m + " ") == "from " + m + " ";
    assert t[..|t| - 1] == "import";
    AbsentBeforeName("from " + m + " ", "import", t);
  }

  lemma ImportClausePieces(a: string, m: string, n: string)
    requires a == "from " + m + " "
    ensures a + "import " + n == "from " + m + " import " + n
    ensures a + "#import " + n == "from " + m + " #import " + n
  {
  }

  /** The `from` rule then comments out the `from`. */
  lemma FromRuleInFromClause(m: string, n: string)
    requires Bare(m) && Bare(n) && !Contains(m + " ", "from ")
    ensures Replace("from " + m + " #import " + n, "from ", "#from ") == "#from " + m + " #import " + n
  {
    var b := m + " " + ("#" + ("import " + n));
    NoFromAfterModule(m, n);
    ReplaceAtFront("from ", "#from ", b, -1);
    CommentedFromPieces(m, n);
  }

  /** What follows `from ` in the commented clause holds no other `from `. */
  lemma NoFromAfterModule(m: string, n: string)
    requires Bare(n) && !Contains(m + " ", "from ")
    ensures !Contains(m + " " + ("#" + ("import " + n)), "from ")
  {
    var t := "from ";
    AbsentAnchored("import ", t, 0);
    AbsentBeforeName("import ", n, t);
    AbsentAfterPad("#", "import " + n, t);
    AbsentAcross(m + " ", "#" + ("import " + n), t, '#');
  }

  lemma CommentedFromPieces(m: string, n: string)
    ensures "from " + (m + " " + ("#" + ("import " + n))) == "from " + m + " #import " + n
    ensures "#from " + (m + " " + ("#" + ("import " + n))) == "#from " + m + " #import " + n
  {
  }

  /**
    `from m import n` becomes `#from m #import n`, for names that do not
    themselves end in `import` or `from`.
  */
  lemma FromImportCommented(m: string, n: string)
    requires Bare(m) && Bare(n)
    requires !Contains(m + " ", "import ") && !Contains(m + " ", "from ")
    ensures RemoveCruft("from " + m + " import " + n) == "#from " + m + " #import " + n
  {
    var answer := "from " + m + " import " + n;
    var r := "#from " + m + " #import " + n;
    ImportRuleInFromClause(m, n);
    FromRuleInFromClause(m, n);
    GuardRuleIsIdentity(answer);
    assert MainCall[26] == '\n';
    assert forall i :: 0 <= i < |r| ==> r[i] != '\n';
    AbsentWithoutChar(r, MainCall, 26);
    ReplaceAbsent(r, MainCall, DiddleCall, -1);
  }

  /** The fixed text `_add_cruft` puts before the answer. */
  const Prelude: string := "\n" + UnittestImport + "\n" + DiddleImport + "\n\n"

  const UnittestImport: string := "import unittest"

  const DiddleImport: string := "from diddle_unittest_for_coderunner import diddle"

  /**
    `_add_cruft`: the prelude, the answer and a newline. The static-import
    line the source computes is never used, so `importStatic` has no effect.
  */
  function AddCruft(answer: string, importStatic: Option<string>): (r: string)
    ensures |r| == |Prelude| + |answer| + 1
    ensures r[..|Prelude|] == Prelude && r[|Prelude|..] == answer + "\n"
  {
    Prelude + answer + "\n"
  }

  /** Whatever `importStatic` holds, the output is the one for no static import. */
  lemma AddCruftIgnoresStaticImport(answer: string, importStatic: Option<string>)
    ensures AddCruft(answer, importStatic) == AddCruft(answer, None)
  {
  }

  /**
    Unlike the Java template, the Python prelude never shows a static
    import: an answer without `import static ` stays without one, even when
    `importStatic` names a class.
  */
  lemma NoStaticImportEvenWhenGiven(answer: string, importStatic: Option<string>)
    requires !Contains(answer, "import static ")
    ensures !Contains(AddCruft(answer, importStatic), "import static ")
  {
    var t := "import static ";
    PreludeHasNoStaticImport();
    ShortAbsent("\n", t);
    AbsentAcrossNewline(answer, "\n", t);
    AbsentAcrossNewline(Prelude, answer + "\n", t);
    assert AddCruft(answer, importStatic) == Prelude + (answer + "\n");
  }

  lemma PreludeHasNoStaticImport()
    ensures Prelude != [] && Prelude[|Prelude| - 1] == '\n'
    ensures !Contains(Prelude, "import static ")
  {
    var t := "import static ";
    ShortAbsent("\n", t);
    ShortAbsent("\n\n", t);
    ImportLinesHaveNoStaticImport();
    AbsentAcrossNewline("\n", UnittestImport, t);
    AbsentAcrossNewline("\n" + UnittestImport, "\n", t);
    AbsentAcrossNewline("\n" + UnittestImport + "\n", DiddleImport, t);
    AbsentAcrossNewline("\n" + UnittestImport + "\n" + DiddleImport, "\n\n", t);
  }

  lemma ImportLinesHaveNoStaticImport()
    ensures !Contains(UnittestImport, "import static ") && !Contains(DiddleImport, "import static ")
  {
    AbsentAnchored(UnittestImport, "import static ", 7);
    DiddleImportHasNoStaticImport();
  }

  lemma DiddleImportHasNoStaticImport()
    ensures !Contains(DiddleImport, "import static ")
  {
    AbsentAnchored(DiddleImport, "import static ", 7);
  }

  /**
    The output opens with the line `import unittest`, then the line
    importing `diddle`, and only after them the unchanged answer.
  */
  lemma ImportsBeforeAnswer(answer: string, importStatic: Option<string>)
    ensures var r := AddCruft(answer, importStatic); var n := |UnittestImport|;
      r[0] == '\n' && OccursAt(r, 1, UnittestImport) && r[n + 1] == '\n'
      && OccursAt(r, n + 2, DiddleImport) && r[n + 2 + |DiddleImport|] == '\n'
      && n + 2 + |DiddleImport| < |Prelude| && r[|Prelude|..] == answer + "\n"
  {
    var r := AddCruft(answer, importStatic);
    var n := |UnittestImport|;
    assert r[1..n + 1] == UnittestImport;
    assert r[n + 2..n + 2 + |DiddleImport|] == DiddleImport;
  }

  /**
    `_assemble_student_answer`: the rewritten answer after the prelude,
    whatever `import_static` is; an answer without imports, `from` clauses
    or the main block follows the prelude as it is.
  */
  function AssembleStudentAnswer(answer: string, importStatic: Option<string>): (r: string)
    ensures |r| > |Prelude| && r[..|Prelude|] == Prelude && r[|Prelude|..] == RemoveCruft(answer) + "\n"
    ensures !Contains(answer, "import ") && !Contains(answer, "from ") && !Contains(answer, MainCall) ==> r == Prelude + answer + "\n"
  {
    AddCruft(RemoveCruft(answer), importStatic)
  }

  /** An assembled `from` clause follows the prelude commented out, whatever `importStatic` is. */
  lemma AssembledFromImport(m: string, n: string, importStatic: Option<string>)
    requires Bare(m) && Bare(n)
    requires !Contains(m + " ", "import ") && !Contains(m + " ", "from ")
    ensures AssembleStudentAnswer("from " + m + " import " + n, importStatic)
      == Prelude + "#from " + m + " #import " + n + "\n"
  {
    FromImportCommented(m, n);
    var d := "#from " + m + " #import " + n;
    PreludeThen(AssembleStudentAnswer("from " + m + " import " + n, importStatic), d);
    Regrouped(Prelude, "#from ", m, " #import ", n);
  }

  /** Concatenation regrouped: the prelude, then a line built of four pieces. */
  lemma Regrouped(p: string, a: string, m: string, b: string, n: string)
    ensures p + (a + m + b + n + "\n") == p + a + m + b + n + "\n"
  {
  }

  /** Text made of the prelude and then `d` and a newline is `Prelude + d + "\n"`. */
  lemma PreludeThen(r: string, d: string)
    requires |r| > |Prelude| && r[..|Prelude|] == Prelude && r[|Prelude|..] == d + "\n"
    ensures r == Prelude + (d + "\n")
  {
    assert r == r[..|Prelude|] + r[|Prelude|..];
  }
}
