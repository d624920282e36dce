/**
  java_code_findbugs: the earlier answer assembly for a FindBugs run. Its
  `_remove_cruft` has seven of the nine rules of `JavaCodeCheckr` (no
  `final` rules), its `_add_cruft` template is shorter and keeps the
  4-space indentation of the source, and `assemble_tester` wraps the
  pieces in a `Tester` class.
*/
module JavaCodeFindbugs {
  import opened PyText
  import JavaCodeCheckr

  /**
    `_remove_cruft`: seven `str.replace` calls, applied in this order. Text
    in which none of the seven search strings occurs comes back unchanged.
  */
  function RemoveCruft(answer: string): (r: string)
    ensures (forall k :: 0 <= k < |CruftTargets| ==> !Contains(answer, CruftTargets[k])) ==> r == answer
  {
    var s1 := Replace(answer, "public class ", "class ");
    var s2 := Replace(s1, "public abstract class ", "abstract class ");
    var s3 := Replace(s2, "abstract public class ", "abstract class ");
    var s4 := Replace(s3, "public interface ", "interface ");
    var s5 := Replace(s4, "public enum ", "enum ");
    var s6 := Replace(s5, "package ", "// package ");
    var r := Replace(s6, "import ", "// import ");
    assert (forall k :: 0 <= k < |CruftTargets| ==> !Contains(answer, CruftTargets[k])) ==> r == answer by {
      if forall k :: 0 <= k < |CruftTargets| ==> !Contains(answer, CruftTargets[k]) {
        assert !Contains(answer, CruftTargets[0]) && !Contains(answer, CruftTargets[1]);
        assert !Contains(answer, CruftTargets[2]) && !Contains(answer, CruftTargets[3]);
        assert !Contains(answer, CruftTargets[4]) && !Contains(answer, CruftTargets[5]);
        assert !Contains(answer, CruftTargets[6]);
        ReplaceAbsent(answer, "public class ", "class ", -1);
        ReplaceAbsent(answer, "public abstract class ", "abstract class ", -1);
        ReplaceAbsent(answer, "abstract public class ", "abstract class ", -1);
        ReplaceAbsent(answer, "public interface ", "interface ", -1);
        ReplaceAbsent(answer, "public enum ", "enum ", -1);
        ReplaceAbsent(answer, "package ", "// package ", -1);
        ReplaceAbsent(answer, "import ", "// import ", -1);
      }
    }
    r
  }

  /** The strings `_remove_cruft` searches for, in order. */
  const CruftTargets: seq<string> :=
    ["public class ", "public abstract class ", "abstract public class ",
     "public interface ", "public enum ", "package ", "import "]

  /** `public class X` becomes `class X`. */
  lemma PublicClassRewritten(name: string)
    requires JavaCodeCheckr.SimpleName(name)
    ensures RemoveCruft("public class " + name) == "class " + name
  {
    ReplacedAtFront("public class ", "class ", name);
    JavaCodeCheckr.KeptShort("class ", name, "public abstract class ", "abstract class ");
    JavaCodeCheckr.KeptShort("class ", name, "abstract public class ", "abstract class ");
    JavaCodeCheckr.KeptShort("class ", name, "public interface ", "interface ");
    JavaCodeCheckr.KeptShort("class ", name, "public enum ", "enum ");
    JavaCodeCheckr.KeptShort("class ", name, "package ", "// package ");
    JavaCodeCheckr.KeptShort("class ", name, "import ", "// import ");
  }

  /** The first four rules leave `public final class X` alone. */
  lemma FinalClassUntouchedEarly(name: string)
    requires JavaCodeCheckr.SimpleName(name)
    ensures var d := "public final class " + name;
      Replace(d, "public class ", "class ") == d
      && Replace(d, "public abstract class ", "abstract class ") == d
      && Replace(d, "abstract public class ", "abstract class ") == d
      && Replace(d, "public interface ", "interface ") == d
  {
    var p := "public final class ";
    JavaCodeCheckr.KeptAnchored(p, name, "public class ", "class ", 7);
    JavaCodeCheckr.KeptShort(p, name, "public abstract class ", "abstract class ");
    JavaCodeCheckr.KeptShort(p, name, "abstract public class ", "abstract class ");
    JavaCodeCheckr.KeptAnchored(p, name, "public interface ", "interface ", 0);
  }

  /** The `enum` rule leaves `public final class X` alone. */
  lemma FinalClassUntouchedByEnum(name: string)
    requires JavaCodeCheckr.SimpleName(name)
    ensures Replace("public final class " + name, "public enum ", "enum ") == "public final class " + name
  {
    JavaCodeCheckr.KeptAnchored("public final class ", name, "public enum ", "enum ", 0);
  }

  /** The `package` and `import` rules leave `public final class X` alone. */
  lemma FinalClassUntouchedLate(name: string)
    requires JavaCodeCheckr.SimpleName(name)
    ensures var d := "public final class " + name;
      Replace(d, "package ", "// package ") == d
      && Replace(d, "import ", "// import ") == d
  {
    FinalClassUntouchedBy(name, "package ", "// package ");
    FinalClassUntouchedBy(name, "import ", "// import ");
  }

  lemma FinalClassUntouchedBy(name: string, t: string, replacement: string)
    requires JavaCodeCheckr.SimpleName(name) && (t == "package " || t == "import ")
    ensures Replace("public final class " + name, t, replacement) == "public final class " + name
  {
    JavaCodeCheckr.KeptAnchored("public final class ", name, t, replacement, 0);
  }

  /** With no `final` rule, `public final class X` is left exactly as it is. */
  lemma PublicFinalClassKept(name: string)
    requires JavaCodeCheckr.SimpleName(name)
    ensures RemoveCruft("public final class " + name) == "public final class " + name
  {
    FinalClassUntouchedEarly(name);
    FinalClassUntouchedByEnum(name);
    FinalClassUntouchedLate(name);
  }

  /** The two versions part ways on a final class: only java_code_checkr drops its `public`. */
  lemma FinalClassDiffers(name: string)
    requires JavaCodeCheckr.SimpleName(name)
    ensures RemoveCruft("public final class " + name) != JavaCodeCheckr.RemoveCruft("public final class " + name)
  {
    PublicFinalClassKept(name);
    JavaCodeCheckr.PublicFinalClassRewritten(name);
    assert |"public final class " + name| != |"final class " + name|;
  }

  /** `package P` is commented out as `// package P`. */
  lemma PackageCommentedOut(name: string)
    requires JavaCodeCheckr.SimpleName(name)
    ensures RemoveCruft("package " + name) == "// package " + name
  {
    JavaCodeCheckr.KeptShort("package ", name, "public class ", "class ");
    JavaCodeCheckr.KeptShort("package ", name, "public abstract class ", "abstract class ");
    JavaCodeCheckr.KeptShort("package ", name, "abstract public class ", "abstract class ");
    JavaCodeCheckr.KeptShort("package ", name, "public interface ", "interface ");
    JavaCodeCheckr.KeptShort("package ", name, "public enum ", "enum ");
    ReplacedAtFront("package ", "// package ", name);
    JavaCodeCheckr.KeptAnchored("// package ", name, "import ", "// import ", 0);
  }

  /** `import M` is commented out as `// import M`. */
  lemma ImportCommentedOut(name: string)
    requires JavaCodeCheckr.SimpleName(name)
    ensures RemoveCruft("import " + name) == "// import " + name
  {
    JavaCodeCheckr.KeptShort("import ", name, "public class ", "class ");
    JavaCodeCheckr.KeptShort("import ", name, "public abstract class ", "abstract class ");
    JavaCodeCheckr.KeptShort("import ", name, "abstract public class ", "abstract class ");
    JavaCodeCheckr.KeptShort("import ", name, "public interface ", "interface ");
    JavaCodeCheckr.KeptShort("import ", name, "public enum ", "enum ");
    JavaCodeCheckr.KeptShort("import ", name, "package ", "// package ");
    ReplacedAtFront("import ", "// import ", name);
  }

  /** The `_add_cruft` template up to its imports, indented as in the source. */
  const PackageDecl: string := "package foobar;"
  const UtilImport: string := "import java.util.*;"
  const StreamImport: string := "import java.util.stream.*;"
  const PackageLine: string := "\n    " + PackageDecl + "\n"
  const UtilLine: string := "    " + UtilImport + "\n"
  const StreamLine: string := "    " + StreamImport + "\n"
  const Imports: string := PackageLine + "\n" + UtilLine + StreamLine

  /** The comment marking the static-import slot. */
  const SlotComment: string := "    " + "// if you need a static import, it'll be put here\n"

  /** The template up to the static-import slot. */
  const Header: string :=
    Imports
    + "\n"
    + SlotComment
    + "    "

  /**
    `_add_cruft`: the header, the static-import line (the same line as in
    `JavaCodeCheckr`, empty unless `import_static` is truthy), then the
    answer, each followed by a newline and the template's indentation.
  */
  function AddCruft(answer: string, importStatic: Option<string>): (r: string)
    ensures |r| >= |answer| + 5 && r[|r| - |answer| - 5..] == answer + "\n    "
  {
    AnswerLast(Header + JavaCodeCheckr.StaticImport(importStatic) + "\n    ", answer);
    Header + JavaCodeCheckr.StaticImport(importStatic) + "\n    " + answer + "\n    "
  }

  lemma AnswerLast(front: string, answer: string)
    ensures var r := front + answer + "\n    ";
      |r| >= |answer| + 5 && r[|r| - |answer| - 5..] == answer + "\n    "
  {
    assert front + answer + "\n    " == front + (answer + "\n    ");
  }

  /** The first line of the template declares the package. */
  lemma PackageDeclared()
    ensures Contains(Imports, PackageDecl)
  {
    var p := PackageDecl;
    OccursAtJoin("\n    ", p);
    OccursAtAppend("\n    " + p, 5, p, "\n");
    ContainsAppend(PackageLine, "\n", p);
    ContainsAppend(PackageLine + "\n", UtilLine, p);
    ContainsAppend(PackageLine + "\n" + UtilLine, StreamLine, p);
  }

  /** The template imports `java.util`. */
  lemma UtilImported()
    ensures Contains(Imports, UtilImport)
  {
    var u := UtilImport;
    OccursAtJoin("    ", u);
    OccursAtAppend("    " + u, 4, u, "\n");
    ContainsPrepend(PackageLine + "\n", UtilLine, u);
    ContainsAppend(PackageLine + "\n" + UtilLine, StreamLine, u);
  }

  /** The template imports `java.util.stream`. */
  lemma StreamImported()
    ensures Contains(Imports, StreamImport)
  {
    var v := StreamImport;
    OccursAtJoin("    ", v);
    OccursAtAppend("    " + v, 4, v, "\n");
    ContainsPrepend(PackageLine + "\n" + UtilLine, StreamLine, v);
  }

  /** What `Imports` holds, the assembled text holds. */
  lemma AddCruftKeeps(answer: string, importStatic: Option<string>, p: string)
    requires Contains(Imports, p)
    ensures Contains(AddCruft(answer, importStatic), p)
  {
    var c := SlotComment;
    ContainsAppend(Imports, "\n", p);
    ContainsAppend(Imports + "\n", c, p);
    ContainsAppend(Imports + "\n" + c, "    ", p);
    ContainsAppend(Header, JavaCodeCheckr.StaticImport(importStatic), p);
    ContainsAppend(Header + JavaCodeCheckr.StaticImport(importStatic), "\n    ", p);
    ContainsAppend(Header + JavaCodeCheckr.StaticImport(importStatic) + "\n    ", answer, p);
    ContainsAppend(Header + JavaCodeCheckr.StaticImport(importStatic) + "\n    " + answer, "\n    ", p);
  }

  /** Whatever the answer, the assembled text declares package `foobar` and the two imports. */
  lemma AddCruftDeclarations(answer: string, importStatic: Option<string>)
    ensures Contains(AddCruft(answer, importStatic), "package foobar;")
    ensures Contains(AddCruft(answer, importStatic), "import java.util.*;")
    ensures Contains(AddCruft(answer, importStatic), "import java.util.stream.*;")
  {
    PackageDeclared();
    UtilImported();
    StreamImported();
    AddCruftKeeps(answer, importStatic, PackageDecl);
    AddCruftKeeps(answer, importStatic, UtilImport);
    AddCruftKeeps(answer, importStatic, StreamImport);
  }

  /** A truthy `import_static` puts its static import into the text. */
  lemma StaticImportShown(answer: string, cls: string)
    requires cls != []
    ensures Contains(AddCruft(answer, Some(cls)), "import static foobar." + cls + ".*;")
  {
    var line := "import static foobar." + cls + ".*;";
    assert JavaCodeCheckr.StaticImport(Some(cls)) == line;
    OccursAtJoin(Header, line);
    OccursAtAppend(Header + line, |Header|, line, "\n    ");
    OccursAtAppend(Header + line + "\n    ", |Header|, line, answer);
    OccursAtAppend(Header + line + "\n    " + answer, |Header|, line, "\n    ");
  }

  /** The indented comment marking the static-import slot holds no static import. */
  lemma SlotCommentHasNoStaticImport()
    ensures !Contains(SlotComment, "import static ")
  {
    JavaCodeCheckr.SlotCommentLineClean();
    AbsentAfterPad("    ", "// if you need a static import, it'll be put here\n", "import static ");
  }

  /** The fixed part of the template holds no static import. */
  lemma HeaderHasNoStaticImport()
    ensures !Contains(Header, "import static ")
  {
    var t := "import static ";
    var h := PackageLine;
    AbsentAnchored(h, t, 7);
    JavaCodeCheckr.NoStaticImportLine(h, "\n");
    h := h + "\n";
    JavaCodeCheckr.NoStaticImportLine(h, UtilLine);
    h := h + UtilLine;
    JavaCodeCheckr.NoStaticImportLine(h, StreamLine);
    h := h + StreamLine;
    JavaCodeCheckr.NoStaticImportLine(h, "\n");
    h := h + "\n";
    SlotCommentHasNoStaticImport();
    AbsentAcrossNewline(h, SlotComment, t);
    h := h + SlotComment;
    ShortAbsent("    ", t);
    AbsentAcrossNewline(h, "    ", t);
  }

  /** Without a truthy `import_static`, and none in the answer, no static import appears. */
  lemma StaticImportOnlyWhenGiven(answer: string, importStatic: Option<string>)
    requires importStatic.None? || importStatic.value == []
    requires !Contains(answer, "import static ")
    ensures !Contains(AddCruft(answer, importStatic), "import static ")
  {
    var t := "import static ";
    var h := Header;
    HeaderHasNoStaticImport();
    assert h + JavaCodeCheckr.StaticImport(importStatic) == h;
    AbsentAfterPad("\n    ", answer, t);
    AbsentAcrossNewline(h, "\n    " + answer, t);
    assert h + ("\n    " + answer) == h + "\n    " + answer;
    ShortAbsent("\n    ", t);
    AbsentAcrossNewline(h + "\n    " + answer, "\n    ", t);
    assert AddCruft(answer, importStatic) == h + "\n    " + answer + "\n    ";
  }

  /**
    `assemble_student_answer`: the rewritten answer inside the template;
    an answer without any of the search strings is wrapped as it is.
  */
  function AssembleStudentAnswer(answer: string, importStatic: Option<string>): (r: string)
    ensures (forall k :: 0 <= k < |CruftTargets| ==> !Contains(answer, CruftTargets[k])) ==> r == AddCruft(answer, importStatic)
  {
    AddCruft(RemoveCruft(answer), importStatic)
  }

  /** A final class keeps its `public` all the way into the assembled text, where it comes last. */
  lemma AssembledFinalClass(name: string, importStatic: Option<string>)
    requires JavaCodeCheckr.SimpleName(name)
    ensures var r := AssembleStudentAnswer("public final class " + name, importStatic);
      var d := "public final class " + name;
      |r| >= |d| + 5 && r[|r| - |d| - 5..] == d + "\n    "
  {
    PublicFinalClassKept(name);
  }

  /** The text between the support files and the test code in `assemble_tester`. */
  const TesterHead: string := "\npublic class Tester {\n    public static void main(String[] args) {\n        "

  /** The text after the test code. */
  const TesterTail: string := "\n    }\n}\n"

  /**
    The text `assemble_tester` writes out (the file write itself is not
    modelled): the answer, then the support files, then the test code
    inside `Tester.main`, in that order.
  */
  function TesterText(answer: string, supportFiles: string, testcode: string): (t: string)
    ensures var i := 1;
      var j := i + |answer| + 1;
      var k := j + |supportFiles| + |TesterHead|;
      OccursAt(t, i, answer) && OccursAt(t, j, supportFiles)
      && OccursAt(t, j + |supportFiles|, TesterHead) && OccursAt(t, k, testcode)
      && i + |answer| < j && j + |supportFiles| < k
  {
    PiecesInOrder(answer, supportFiles, TesterHead, testcode, TesterTail);
    "\n" + answer + "\n" + supportFiles + TesterHead + testcode + TesterTail
  }

  /** Pieces written one after the other stand at the offsets their lengths give. */
  lemma PiecesInOrder(answer: string, supportFiles: string, head: string, testcode: string, tail: string)
    requires head != []
    ensures var t := "\n" + answer + "\n" + supportFiles + head + testcode + tail;
      var i := 1;
      var j := i + |answer| + 1;
      var k := j + |supportFiles| + |head|;
      OccursAt(t, i, answer) && OccursAt(t, j, supportFiles)
      && OccursAt(t, j + |supportFiles|, head) && OccursAt(t, k, testcode)
      && i + |answer| < j && j + |supportFiles| < k
  {
    var a := "\n" + answer;
    OccursAtJoin("\n", answer);
    OccursAtAppend(a, 1, answer, "\n");
    OccursAtAppend(a + "\n", 1, answer, supportFiles);
    OccursAtAppend(a + "\n" + supportFiles, 1, answer, head);
    OccursAtAppend(a + "\n" + supportFiles + head, 1, answer, testcode);
    OccursAtAppend(a + "\n" + supportFiles + head + testcode, 1, answer, tail);
    var b := a + "\n";
    OccursAtJoin(b, supportFiles);
    OccursAtAppend(b + supportFiles, |b|, supportFiles, head);
    OccursAtAppend(b + supportFiles + head, |b|, supportFiles, testcode);
    OccursAtAppend(b + supportFiles + head + testcode, |b|, supportFiles, tail);
    var c := b + supportFiles;
    OccursAtJoin(c, head);
    OccursAtAppend(c + head, |c|, head, testcode);
    OccursAtAppend(c + head + testcode, |c|, head, tail);
    var d := c + head;
    OccursAtJoin(d, testcode);
    OccursAtAppend(d + testcode, |d|, testcode, tail);
  }
}
