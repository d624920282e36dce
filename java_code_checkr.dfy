/**
  java_code_checkr: the rewriting that turns a student's Java answer into
  part of a single-file build (`_remove_cruft`, `_add_cruft`,
  `_assemble_student_answer`) and the ten spec checks, each returning a
  `Verdict` where the Python prints a line or raises
  `CodeOutOfSpecException`.
*/
module JavaCodeCheckr {
  import opened PyText
  import opened JavaPatterns
  import Canonical

  /**
    `_remove_cruft`: nine `str.replace` calls, applied in this order. Text
    in which none of the nine search strings occurs comes back unchanged.
  */
  function RemoveCruft(answer: string): (r: string)
    ensures (forall k :: 0 <= k < |CruftTargets| ==> !Contains(answer, CruftTargets[k])) ==> r == answer
  {
    var s1 := Replace(answer, "public class ", "class ");
    var s2 := Replace(s1, "public abstract class ", "abstract class ");
    var s3 := Replace(s2, "abstract public class ", "abstract class ");
    var s4 := Replace(s3, "public final class ", "final class ");
    var s5 := Replace(s4, "final public class ", "final class ");
    var s6 := Replace(s5, "public interface ", "interface ");
    var s7 := Replace(s6, "public enum ", "enum ");
    var s8 := Replace(s7, "package ", "// package ");
    var r := Replace(s8, "import ", "// import ");
    assert (forall k :: 0 <= k < |CruftTargets| ==> !Contains(answer, CruftTargets[k])) ==> r == answer by {
      if forall k :: 0 <= k < |CruftTargets| ==> !Contains(answer, CruftTargets[k]) {
        assert !Contains(answer, CruftTargets[0]) && !Contains(answer, CruftTargets[1]);
        assert !Contains(answer, CruftTargets[2]) && !Contains(answer, CruftTargets[3]);
        assert !Contains(answer, CruftTargets[4]) && !Contains(answer, CruftTargets[5]);
        assert !Contains(answer, CruftTargets[6]) && !Contains(answer, CruftTargets[7]);
        assert !Contains(answer, CruftTargets[8]);
        ReplaceAbsent(answer, "public class ", "class ", -1);
        ReplaceAbsent(answer, "public abstract class ", "abstract class ", -1);
        ReplaceAbsent(answer, "abstract public class ", "abstract class ", -1);
        ReplaceAbsent(answer, "public final class ", "final class ", -1);
        ReplaceAbsent(answer, "final public class ", "final class ", -1);
        ReplaceAbsent(answer, "public interface ", "interface ", -1);
        ReplaceAbsent(answer, "public enum ", "enum ", -1);
        ReplaceAbsent(answer, "package ", "// package ", -1);
        ReplaceAbsent(answer, "import ", "// import ", -1);
      }
    }
    r
  }

  /** The strings `_remove_cruft` searches for, in order. */
  const CruftTargets: seq<string> :=
    ["public class ", "public abstract class ", "abstract public class ",
     "public final class ", "final public class ", "public interface ",
     "public enum ", "package ", "import "]

  /** A declared name: no spaces, so it cannot complete any of the search strings. */
  predicate SimpleName(name: string) {
    forall i :: 0 <= i < |name| ==> name[i] != ' '
  }

  /** A rule whose search string is longer than the fixed text leaves it and a simple name alone. */
  lemma KeptShort(p: string, name: string, t: string, replacement: string)
    requires SimpleName(name) && |p| < |t| && t[|t| - 1] == ' '
    ensures Replace(p + name, t, replacement) == p + name
  {
    ShortAbsent(p, t);
    Untouched(p, name, t, replacement);
  }

  /** A rule whose search string is ruled out in the fixed text at every space leaves it alone. */
  lemma KeptAnchored(p: string, name: string, t: string, replacement: string, k: nat)
    requires SimpleName(name) && t != [] && k < |t| && t[|t| - 1] == ' '
    requires forall j :: |t| - 1 <= j < |p| && p[j] == ' ' ==> p[j - |t| + 1] != t[0] || p[j - |t| + 1 + k] != t[k]
    ensures Replace(p + name, t, replacement) == p + name
  {
    AbsentAnchored(p, t, k);
    Untouched(p, name, t, replacement);
  }

  /** `public class X` becomes `class X`. */
  lemma PublicClassRewritten(name: string)
    requires SimpleName(name)
    ensures RemoveCruft("public class " + name) == "class " + name
  {
    ReplacedAtFront("public class ", "class ", name);
    KeptShort("class ", name, "public abstract class ", "abstract class ");
    KeptShort("class ", name, "abstract public class ", "abstract class ");
    KeptShort("class ", name, "public final class ", "final class ");
    KeptShort("class ", name, "final public class ", "final class ");
    KeptShort("class ", name, "public interface ", "interface ");
    KeptShort("class ", name, "public enum ", "enum ");
    KeptShort("class ", name, "package ", "// package ");
    KeptShort("class ", name, "import ", "// import ");
  }

  /** The rules around the one that fires on `public final class X` leave it, and then `final class X`, alone. */
  lemma FinalClassKept(name: string)
    requires SimpleName(name)
    ensures Replace("public final class " + name, "public class ", "class ") == "public final class " + name
    ensures Replace("final class " + name, "public enum ", "enum ") == "final class " + name
    ensures Replace("final class " + name, "package ", "// package ") == "final class " + name
    ensures Replace("final class " + name, "import ", "// import ") == "final class " + name
  {
    KeptAnchored("public final class ", name, "public class ", "class ", 7);
    LateRulesKeep("final class ", name);
  }

  /** The `enum`, `package` and `import` rules leave a declaration `p + name` alone. */
  lemma LateRulesKeep(p: string, name: string)
    requires SimpleName(name) && (p == "final class " || p == "abstract class ")
    ensures Replace(p + name, "public enum ", "enum ") == p + name
    ensures Replace(p + name, "package ", "// package ") == p + name
    ensures Replace(p + name, "import ", "// import ") == p + name
  {
    KeptAnchored(p, name, "public enum ", "enum ", 0);
    LateRulesKeepPackage(p, name);
    LateRulesKeepImport(p, name);
  }

  lemma LateRulesKeepPackage(p: string, name: string)
    requires SimpleName(name) && (p == "final class " || p == "abstract class ")
    ensures Replace(p + name, "package ", "// package ") == p + name
  {
    KeptAnchored(p, name, "package ", "// package ", 0);
  }

  lemma LateRulesKeepImport(p: string, name: string)
    requires SimpleName(name) && (p == "final class " || p == "abstract class ")
    ensures Replace(p + name, "import ", "// import ") == p + name
  {
    KeptAnchored(p, name, "import ", "// import ", 0);
  }

  /** `public final class X` becomes `final class X`; the first rule does not fire on it. */
  lemma PublicFinalClassRewritten(name: string)
    requires SimpleName(name)
    ensures RemoveCruft("public final class " + name) == "final class " + name
  {
    FinalClassKept(name);
    KeptShort("public final class ", name, "public abstract class ", "abstract class ");
    KeptShort("public final class ", name, "abstract public class ", "abstract class ");
    ReplacedAtFront("public final class ", "final class ", name);
    KeptShort("final class ", name, "final public class ", "final class ");
    KeptShort("final class ", name, "public interface ", "interface ");
  }

  /** The first rule turns `abstract public class X` into `abstract class X`. */
  lemma AbstractPublicFirstRule(name: string)
    requires SimpleName(name)
    ensures Replace("abstract public class " + name, "public class ", "class ") == "abstract class " + name
  {
    AbsentAnchored("abstract " + "public class "[..12], "public class ", 0);
    ReplacedAfter("abstract ", "public class ", "class ", name);
    AbstractPublicPieces(name);
  }

  lemma AbstractPublicPieces(name: string)
    ensures "abstract " + "public class " + name == "abstract public class " + name
    ensures "abstract " + "class " + name == "abstract class " + name
  {
    assert "abstract " + "public class " == "abstract public class ";
    assert "abstract " + "class " == "abstract class ";
  }

  /** The later rules leave `abstract class X` alone. */
  lemma AbstractClassKept(name: string)
    requires SimpleName(name)
    ensures Replace("abstract class " + name, "public enum ", "enum ") == "abstract class " + name
    ensures Replace("abstract class " + name, "package ", "// package ") == "abstract class " + name
    ensures Replace("abstract class " + name, "import ", "// import ") == "abstract class " + name
  {
    LateRulesKeep("abstract class ", name);
  }

  /** `abstract public class X` becomes `abstract class X`, already through the first rule. */
  lemma AbstractPublicClassRewritten(name: string)
    requires SimpleName(name)
    ensures RemoveCruft("abstract public class " + name) == "abstract class " + name
  {
    AbstractPublicFirstRule(name);
    KeptShort("abstract class ", name, "public abstract class ", "abstract class ");
    KeptShort("abstract class ", name, "abstract public class ", "abstract class ");
    KeptShort("abstract class ", name, "public final class ", "final class ");
    KeptShort("abstract class ", name, "final public class ", "final class ");
    KeptShort("abstract class ", name, "public interface ", "interface ");
    AbstractClassKept(name);
  }

  /** `public interface I` becomes `interface I`. */
  lemma PublicInterfaceRewritten(name: string)
    requires SimpleName(name)
    ensures RemoveCruft("public interface " + name) == "interface " + name
  {
    KeptAnchored("public interface ", name, "public class ", "class ", 0);
    KeptShort("public interface ", name, "public abstract class ", "abstract class ");
    KeptShort("public interface ", name, "abstract public class ", "abstract class ");
    KeptShort("public interface ", name, "public final class ", "final class ");
    KeptShort("public interface ", name, "final public class ", "final class ");
    ReplacedAtFront("public interface ", "interface ", name);
    KeptShort("interface ", name, "public enum ", "enum ");
    KeptAnchored("interface ", name, "package ", "// package ", 0);
    KeptAnchored("interface ", name, "import ", "// import ", 0);
  }

  /** `public enum E` becomes `enum E`. */
  lemma PublicEnumRewritten(name: string)
    requires SimpleName(name)
    ensures RemoveCruft("public enum " + name) == "enum " + name
  {
    KeptShort("public enum ", name, "public class ", "class ");
    KeptShort("public enum ", name, "public abstract class ", "abstract class ");
    KeptShort("public enum ", name, "abstract public class ", "abstract class ");
    KeptShort("public enum ", name, "public final class ", "final class ");
    KeptShort("public enum ", name, "final public class ", "final class ");
    KeptShort("public enum ", name, "public interface ", "interface ");
    ReplacedAtFront("public enum ", "enum ", name);
    KeptShort("enum ", name, "package ", "// package ");
    KeptShort("enum ", name, "import ", "// import ");
  }

  /** `package P` is commented out as `// package P`. */
  lemma PackageCommentedOut(name: string)
    requires SimpleName(name)
    ensures RemoveCruft("package " + name) == "// package " + name
  {
    KeptShort("package ", name, "public class ", "class ");
    KeptShort("package ", name, "public abstract class ", "abstract class ");
    KeptShort("package ", name, "abstract public class ", "abstract class ");
    KeptShort("package ", name, "public final class ", "final class ");
    KeptShort("package ", name, "final public class ", "final class ");
    KeptShort("package ", name, "public interface ", "interface ");
    KeptShort("package ", name, "public enum ", "enum ");
    ReplacedAtFront("package ", "// package ", name);
    KeptAnchored("// package ", name, "import ", "// import ", 0);
  }

  /** `import` lines, commented or not, get one more `// ` at each pass. */
  lemma ImportCommentedOut(name: string)
    requires SimpleName(name)
    ensures RemoveCruft("import " + name) == "// import " + name
    ensures RemoveCruft("// import " + name) == "// // import " + name
  {
    ImportCommentedOnce(name);
    ImportCommentedAgain(name);
  }

  lemma ImportCommentedOnce(name: string)
    requires SimpleName(name)
    ensures RemoveCruft("import " + name) == "// import " + name
  {
    KeptShort("import ", name, "public class ", "class ");
    KeptShort("import ", name, "public abstract class ", "abstract class ");
    KeptShort("import ", name, "abstract public class ", "abstract class ");
    KeptShort("import ", name, "public final class ", "final class ");
    KeptShort("import ", name, "final public class ", "final class ");
    KeptShort("import ", name, "public interface ", "interface ");
    KeptShort("import ", name, "public enum ", "enum ");
    KeptShort("import ", name, "package ", "// package ");
    ReplacedAtFront("import ", "// import ", name);
  }

  lemma ImportCommentedAgain(name: string)
    requires SimpleName(name)
    ensures RemoveCruft("// import " + name) == "// // import " + name
  {
    KeptShort("// import ", name, "public class ", "class ");
    KeptShort("// import ", name, "public abstract class ", "abstract class ");
    KeptShort("// import ", name, "abstract public class ", "abstract class ");
    KeptShort("// import ", name, "public final class ", "final class ");
    KeptShort("// import ", name, "final public class ", "final class ");
    KeptShort("// import ", name, "public interface ", "interface ");
    KeptShort("// import ", name, "public enum ", "enum ");
    KeptAnchored("// import ", name, "package ", "// package ", 0);
    CommentedImportRule(name);
  }

  /** The `import` rule fires once more on a commented `import`. */
  lemma CommentedImportRule(name: string)
    requires SimpleName(name)
    ensures Replace("// import " + name, "import ", "// import ") == "// // import " + name
  {
    AbsentAnchored("// " + "import "[..6], "import ", 0);
    ReplacedAfter("// ", "import ", "// import ", name);
    CommentPieces(name);
  }

  lemma CommentPieces(name: string)
    ensures "// " + "import " + name == "// import " + name
    ensures "// " + "// import " + name == "// // import " + name
  {
    assert "// " + "import " == "// import ";
    assert "// " + "// import " == "// // import ";
  }

  /** Hence `_remove_cruft` is not idempotent. */
  lemma RemoveCruftNotIdempotent(name: string)
    requires SimpleName(name)
    ensures RemoveCruft(RemoveCruft("import " + name)) != RemoveCruft("import " + name)
  {
    ImportCommentedOut(name);
    assert |"// // import " + name| != |"// import " + name|;
  }

  /** The first two lines of the `_add_cruft` template, with `_package` (`foobar`) filled in. */
  const PackageLine: string := "\npackage foobar;\n"

  /** The template through the `java.awt` imports. */
  const AwtImports: string :=
    PackageLine
    + "\n"
    + "import java.awt.Color;\n"
    + "import java.awt.BorderLayout;\n"
    + "import java.awt.Container;\n"
    + "import java.awt.Dimension;\n"
    + "import java.awt.Graphics;\n"
    + "import java.awt.Image;\n"

  /** The template through `java.util.function.*`. */
  const UtilImports: string :=
    AwtImports
    + "import java.io.*;\n"
    + "import java.nio.file.*;\n"
    + "import java.util.*;\n"
    + "import java.util.function.*;\n"

  /** The template up to the static-import slot. */
  const Header: string :=
    UtilImports
    + "import java.util.stream.*;\n"
    + "import javax.swing.*;\n"
    + "\n"
    + "// if you need a static import, it'll be put here\n"

  /** The static-import line: empty unless `import_static` is truthy (neither `None` nor empty). */
  function StaticImport(importStatic: Option<string>): (line: string)
    ensures line != [] <==> importStatic.Some? && importStatic.value != []
  {
    if importStatic.Some? && importStatic.value != [] then "import static foobar." + importStatic.value + ".*;" else ""
  }

  /**
    `_add_cruft`: the fixed header, the static-import line, then the
    answer. The result starts with the package declaration and ends with
    the answer and a newline.
  */
  function AddCruft(answer: string, importStatic: Option<string>): (r: string)
    ensures OccursAt(r, 0, PackageLine)
    ensures |r| > |PackageLine| + |answer| && r[|r| - |answer| - 1..] == answer + "\n"
  {
    HeaderStart();
    FramedBy(Header, StaticImport(importStatic), answer);
    Header + StaticImport(importStatic) + "\n" + answer + "\n"
  }

  /** Text that starts with the package declaration keeps it in front of a line and the answer. */
  lemma FramedBy(h: string, line: string, answer: string)
    requires |h| > |PackageLine| && h[..|PackageLine|] == PackageLine
    ensures var r := h + line + "\n" + answer + "\n";
      OccursAt(r, 0, PackageLine) && |r| > |PackageLine| + |answer| && r[|r| - |answer| - 1..] == answer + "\n"
  {
    Assoc5(h, line, "\n", answer, "\n");
    PrefixOccurs(h, PackageLine, line + "\n" + answer + "\n");
    EndsWithLine(h + line + "\n", answer);
  }

  /** The template starts with the package declaration. */
  lemma HeaderStart()
    ensures |Header| > |PackageLine| && Header[..|PackageLine|] == PackageLine
  {
    assert AwtImports[..|PackageLine|] == PackageLine;
    assert UtilImports[..|PackageLine|] == PackageLine;
  }

  lemma Assoc5(a: string, b: string, c: string, d: string, e: string)
    ensures a + b + c + d + e == a + (b + c + d + e)
  {
  }

  /** A prefix of `h` starts `h + rest`. */
  lemma PrefixOccurs(h: string, p: string, rest: string)
    requires |p| <= |h| && h[..|p|] == p
    ensures OccursAt(h + rest, 0, p)
  {
    assert (h + rest)[..|p|] == h[..|p|];
  }

  /** `front + answer + "\n"` ends with the answer and the newline. */
  lemma EndsWithLine(front: string, answer: string)
    ensures |front + answer + "\n"| > |answer|
    ensures (front + answer + "\n")[|front + answer + "\n"| - |answer| - 1..] == answer + "\n"
  {
    assert (front + answer + "\n")[|front|..] == answer + "\n";
  }

  /** A truthy `import_static` puts its static import into the text. */
  lemma StaticImportShown(answer: string, cls: string)
    requires cls != []
    ensures Contains(AddCruft(answer, Some(cls)), "import static foobar." + cls + ".*;")
  {
    var line := "import static foobar." + cls + ".*;";
    assert StaticImport(Some(cls)) == line;
    OccursAtJoin(Header, line);
    OccursAtAppend(Header + line, |Header|, line, "\n");
    OccursAtAppend(Header + line + "\n", |Header|, line, answer);
    OccursAtAppend(Header + line + "\n" + answer, |Header|, line, "\n");
  }

  /** Appending a line that lacks `import static ` keeps it absent. */
  lemma NoStaticImportLine(h: string, line: string)
    requires !Contains(h, "import static ") && h != [] && h[|h| - 1] == '\n'
    requires forall j :: 13 <= j < |line| && line[j] == ' ' ==> line[j - 13] != 'i' || line[j - 6] != 's'
    ensures !Contains(h + line, "import static ")
  {
    AbsentAnchored(line, "import static ", 7);
    AbsentAcrossNewline(h, line, "import static ");
  }

  /** The template through the `java.awt` imports holds no static import. */
  lemma AwtImportsHaveNoStaticImport()
    ensures !Contains(AwtImports, "import static ")
  {
    var h := PackageLine + "\n" + "import java.awt.Color;\n" + "import java.awt.BorderLayout;\n";
    FirstAwtImportsHaveNoStaticImport();
    var h2 := h + "import java.awt.Container;\n" + "import java.awt.Dimension;\n";
    MiddleAwtImportsHaveNoStaticImport(h);
    NoStaticImportLine(h2, "import java.awt.Graphics;\n");
    NoStaticImportLine(h2 + "import java.awt.Graphics;\n", "import java.awt.Image;\n");
  }

  lemma FirstAwtImportsHaveNoStaticImport()
    ensures !Contains(PackageLine + "\n" + "import java.awt.Color;\n" + "import java.awt.BorderLayout;\n", "import static ")
  {
    AbsentAnchored(PackageLine, "import static ", 7);
    NoStaticImportLine(PackageLine, "\n");
    NoStaticImportLine(PackageLine + "\n", "import java.awt.Color;\n");
    NoStaticImportLine(PackageLine + "\n" + "import java.awt.Color;\n", "import java.awt.BorderLayout;\n");
  }

  lemma MiddleAwtImportsHaveNoStaticImport(h: string)
    requires !Contains(h, "import static ") && h != [] && h[|h| - 1] == '\n'
    ensures !Contains(h + "import java.awt.Container;\n" + "import java.awt.Dimension;\n", "import static ")
  {
    NoStaticImportLine(h, "import java.awt.Container;\n");
    NoStaticImportLine(h + "import java.awt.Container;\n", "import java.awt.Dimension;\n");
  }

  lemma UtilImportsHaveNoStaticImport()
    ensures !Contains(UtilImports, "import static ")
  {
    AwtImportsHaveNoStaticImport();
    var h := AwtImports + "import java.io.*;\n" + "import java.nio.file.*;\n";
    FileImportsHaveNoStaticImport();
    NoStaticImportLine(h, "import java.util.*;\n");
    NoStaticImportLine(h + "import java.util.*;\n", "import java.util.function.*;\n");
  }

  lemma FileImportsHaveNoStaticImport()
    requires !Contains(AwtImports, "import static ")
    ensures !Contains(AwtImports + "import java.io.*;\n" + "import java.nio.file.*;\n", "import static ")
  {
    NoStaticImportLine(AwtImports, "import java.io.*;\n");
    NoStaticImportLine(AwtImports + "import java.io.*;\n", "import java.nio.file.*;\n");
  }

  /** The fixed part of the template holds no static import. */
  lemma HeaderHasNoStaticImport()
    ensures !Contains(Header, "import static ")
  {
    UtilImportsHaveNoStaticImport();
    var h := UtilImports + "import java.util.stream.*;\n" + "import javax.swing.*;\n";
    LastImportsHaveNoStaticImport();
    SlotLinesHaveNoStaticImport(h);
  }

  lemma SlotLinesHaveNoStaticImport(h: string)
    requires !Contains(h, "import static ") && h != [] && h[|h| - 1] == '\n'
    ensures !Contains(h + "\n" + "// if you need a static import, it'll be put here\n", "import static ")
  {
    NoStaticImportLine(h, "\n");
    SlotCommentLineClean();
    AbsentAcrossNewline(h + "\n", "// if you need a static import, it'll be put here\n", "import static ");
  }

  /** The comment marking the static-import slot holds no static import: it has `import` but then a comma. */
  lemma SlotCommentLineClean()
    ensures !Contains("// if you need a static import, it'll be put here\n", "import static ")
  {
    var t := "import static ";
    var a := "// if you need a static import";
    var b := ", it'll be put here\n";
    NoStaticImportIn(a);
    NoStaticImportIn(b);
    AbsentAcross(a, b, t, ',');
    assert a + b == "// if you need a static import, it'll be put here\n";
  }

  lemma NoStaticImportIn(x: string)
    requires x == "// if you need a static import" || x == ", it'll be put here\n"
    ensures !Contains(x, "import static ")
  {
    AbsentAnchored(x, "import static ", 7);
  }

  lemma LastImportsHaveNoStaticImport()
    requires !Contains(UtilImports, "import static ")
    ensures !Contains(UtilImports + "import java.util.stream.*;\n" + "import javax.swing.*;\n", "import static ")
  {
    NoStaticImportLine(UtilImports, "import java.util.stream.*;\n");
    NoStaticImportLine(UtilImports + "import java.util.stream.*;\n", "import javax.swing.*;\n");
  }

  /** Without a truthy `import_static`, the result has a static import only if the answer does. */
  lemma StaticImportOnlyWhenGiven(answer: string, importStatic: Option<string>)
    requires importStatic.None? || importStatic.value == []
    requires !Contains(answer, "import static ")
    ensures !Contains(AddCruft(answer, importStatic), "import static ")
  {
    var t := "import static ";
    var h := Header;
    HeaderHasNoStaticImport();
    assert h + StaticImport(importStatic) == h;
    ShortAbsent("\n", t);
    AbsentAcrossNewline(h, "\n", t);
    AbsentAcrossNewline(h + "\n", answer, t);
    AbsentAcrossNewline(h + "\n" + answer, "\n", t);
    assert AddCruft(answer, importStatic) == h + "\n" + answer + "\n";
  }

  /**
    `_assemble_student_answer`: the rewritten answer inside the template,
    which starts with the package declaration; an answer without any of
    the search strings is wrapped as it is.
  */
  function AssembleStudentAnswer(answer: string, importStatic: Option<string>): (r: string)
    ensures OccursAt(r, 0, PackageLine)
    ensures (forall k :: 0 <= k < |CruftTargets| ==> !Contains(answer, CruftTargets[k])) ==> r == AddCruft(answer, importStatic)
  {
    AddCruft(RemoveCruft(answer), importStatic)
  }

  /** A public class declaration loses its `public` in the assembled file: the template wraps `class X`. */
  lemma AssembledPublicClass(name: string, importStatic: Option<string>)
    requires SimpleName(name)
    ensures AssembleStudentAnswer("public class " + name, importStatic) == AddCruft("class " + name, importStatic)
  {
    PublicClassRewritten(name);
  }

  // The checks.

  /** The number of times a truthy `existing_author` occurs; `0` for `None` or the empty string. */
  function ExistingAuthors(answer: string, existingAuthor: Option<string>): nat {
    if existingAuthor.Some? && existingAuthor.value != [] then Count(answer, existingAuthor.value) else 0
  }

  /**
    `check_for_author`: raises when some class has no `@author`, or when
    the existing author accounts for all of them.
  */
  function CheckForAuthor(answer: string, existingAuthor: Option<string>): (r: Verdict)
    ensures r.OutOfSpec? <==>
      Count(answer, "class") > Count(answer, "@author") || ExistingAuthors(answer, existingAuthor) >= Count(answer, "@author")
    ensures r.OutOfSpec? ==> r.message == Complaint("doesn't credit all authors.")
    ensures r.Passed? ==> r.printed == Some("Additional author added")
    ensures !Contains(answer, "@author") ==> r.OutOfSpec?
  {
    CountPositiveIffContains(answer, "@author");
    var classes := Count(answer, "class");
    var authors := Count(answer, "@author");
    if classes > authors || ExistingAuthors(answer, existingAuthor) >= authors then
      OutOfSpec(Complaint("doesn't credit all authors."))
    else
      Passed(Some("Additional author added"))
  }

  /** `check_for_extends`: raises unless `class SUB extends SUP` matches, spacing aside. */
  function CheckForExtends(answer: string, subclass: string, superclass: string): (r: Verdict)
    ensures r.OutOfSpec? ==>
      r.message == Complaint("you were supposed to define\n    " + subclass + " extends " + superclass + ".")
    ensures r.Passed? ==> r.printed == Some(subclass + " extends " + superclass)
  {
    if !ExtendsFound(answer, subclass, superclass) then
      OutOfSpec(Complaint("you were supposed to define\n    " + subclass + " extends " + superclass + "."))
    else
      Passed(Some(subclass + " extends " + superclass))
  }

  /** A single-spaced declaration anywhere in the answer passes the extends check. */
  lemma DeclaredExtendsPasses(a: string, subclass: string, superclass: string, b: string)
    ensures CheckForExtends(a + "class " + subclass + " extends " + superclass + b, subclass, superclass).Passed?
  {
    ExtendsDeclared(a, subclass, superclass, b);
  }

  /** Passing for a superclass `sup + more` passes for `sup`: `extends Shapes` satisfies `Shape`. */
  lemma ExtendsCheckSuperPrefix(answer: string, subclass: string, superclass: string, more: string)
    requires CheckForExtends(answer, subclass, superclass + more).Passed?
    ensures CheckForExtends(answer, subclass, superclass).Passed?
  {
    ExtendsSuperPrefix(answer, subclass, superclass, more);
  }

  /** An answer without the word `class` fails the extends check. */
  lemma ExtendsCheckNeedsClass(answer: string, subclass: string, superclass: string)
    requires !Contains(answer, "class")
    ensures CheckForExtends(answer, subclass, superclass).OutOfSpec?
  {
    ExtendsNeedsClass(answer, subclass, superclass);
  }

  /** `check_for_enum`: raises unless `enum NAME` matches, spacing aside. */
  function CheckForEnum(answer: string, name: string): (r: Verdict)
    ensures r.OutOfSpec? ==> r.message == Complaint("you were supposed to define\n    enum " + name + ".")
    ensures r.Passed? ==> r.printed == Some("Specified enum declared")
  {
    if !EnumFound(answer, name) then
      OutOfSpec(Complaint("you were supposed to define\n    enum " + name + "."))
    else
      Passed(Some("Specified enum declared"))
  }

  /** A single-spaced enum declaration anywhere in the answer passes; a longer name counts too. */
  lemma DeclaredEnumPasses(a: string, name: string, more: string, b: string)
    ensures CheckForEnum(a + "enum " + name + b, name).Passed?
    ensures CheckForEnum(a + "enum " + name + more + b, name).Passed?
  {
    EnumDeclared(a, name, b);
    EnumDeclared(a, name + more, b);
    assert a + "enum " + (name + more) + b == a + "enum " + name + more + b;
    EnumPrefix(a + "enum " + name + more + b, name, more);
  }

  /** An answer without the word `enum` fails the enum check. */
  lemma EnumCheckNeedsKeyword(answer: string, name: string)
    requires !Contains(answer, "enum")
    ensures CheckForEnum(answer, name).OutOfSpec?
  {
    EnumNeedsKeyword(answer, name);
  }

  /** `check_for_enum_in_switch`: raises unless a `switch` is followed, across any text, by `case CONST:`. */
  function CheckForEnumInSwitch(answer: string, constant: string): (r: Verdict)
    ensures r.OutOfSpec? ==> r.message == Complaint("you were supposed to use\n    case " + constant + ":.")
    ensures r.Passed? ==> r.printed == Some("Switch uses enum constants")
  {
    if !SwitchCaseFound(answer, constant) then
      OutOfSpec(Complaint("you were supposed to use\n    case " + constant + ":."))
    else
      Passed(Some("Switch uses enum constants"))
  }

  /** A `switch` with `case CONST:` anywhere after it, newlines included, passes. */
  lemma SwitchCasePasses(a: string, b: string, constant: string, d: string)
    ensures CheckForEnumInSwitch(a + "switch" + b + "case " + constant + ":" + d, constant).Passed?
  {
    SwitchCaseDeclared(a, b, constant, d);
  }

  /** An answer without `switch` fails, whatever cases it has. */
  lemma SwitchCheckNeedsSwitch(answer: string, constant: string)
    requires !Contains(answer, "switch")
    ensures CheckForEnumInSwitch(answer, constant).OutOfSpec?
  {
    SwitchCaseNeedsSwitch(answer, constant);
  }

  /** `check_for_reference`: raises exactly when the name does not occur. */
  function CheckForReference(answer: string, name: string): (r: Verdict)
    ensures r.OutOfSpec? <==> !Contains(answer, name)
    ensures r.OutOfSpec? ==> r.message == Complaint("it doesn't contains any reference to\n    " + name + " :.")
    ensures r.Passed? ==> r.printed == Some("Ok reference to " + name)
  {
    CountPositiveIffContains(answer, name);
    if Count(answer, name) == 0 then
      OutOfSpec(Complaint("it doesn't contains any reference to\n    " + name + " :."))
    else
      Passed(Some("Ok reference to " + name))
  }

  /** `check_for_no_reference`: raises exactly when the name occurs. */
  function CheckForNoReference(answer: string, name: string): (r: Verdict)
    ensures r.OutOfSpec? <==> Contains(answer, name)
    ensures r.OutOfSpec? ==> r.message == Complaint("it contains a reference to\n    " + name + " :.")
    ensures r.Passed? ==> r.printed == Some("No reference to " + name)
  {
    CountPositiveIffContains(answer, name);
    if Count(answer, name) > 0 then
      OutOfSpec(Complaint("it contains a reference to\n    " + name + " :."))
    else
      Passed(Some("No reference to " + name))
  }

  /** For any answer and name, exactly one of the two reference checks raises. */
  lemma ReferenceChecksComplementary(answer: string, name: string)
    ensures CheckForReference(answer, name).OutOfSpec? != CheckForNoReference(answer, name).OutOfSpec?
  {
  }

  /** `check_for_interface`: raises exactly when `interface NAME` does not occur. */
  function CheckForInterface(answer: string, name: string): (r: Verdict)
    ensures r.Passed? <==> Contains(answer, "interface " + name)
    ensures r.OutOfSpec? ==> r.message == Complaint("it doesn't declare\n    interface " + name + " :.")
    ensures r.Passed? ==> r.printed == Some("Declares interface " + name)
  {
    CountPositiveIffContains(answer, "interface " + name);
    if Count(answer, "interface " + name) == 0 then
      OutOfSpec(Complaint("it doesn't declare\n    interface " + name + " :."))
    else
      Passed(Some("Declares interface " + name))
  }

  /** A public interface declaration passes, before and after `_remove_cruft`. */
  lemma DeclaredInterfacePasses(name: string, body: string)
    requires SimpleName(name)
    ensures CheckForInterface("public interface " + name + body, name).Passed?
    ensures CheckForInterface(RemoveCruft("public interface " + name), name).Passed?
  {
    var s := "public interface " + name + body;
    assert s[7..7 + |"interface " + name|] == "interface " + name;
    assert OccursAt(s, 7, "interface " + name);
    PublicInterfaceRewritten(name);
    assert OccursAt("interface " + name, 0, "interface " + name);
  }

  /** `check_for_functional_style_lambdas`: raises exactly when no `->` occurs. */
  function CheckForFunctionalStyleLambdas(answer: string): (r: Verdict)
    ensures r.Passed? <==> Contains(answer, "->")
    ensures r.OutOfSpec? ==> r.message == Complaint("it doesn't contain functional style lambdas")
    ensures r.Passed? ==> r.printed == Some("Uses functional style lambdas")
  {
    CountPositiveIffContains(answer, "->");
    if Count(answer, "->") == 0 then
      OutOfSpec(Complaint("it doesn't contain functional style lambdas"))
    else
      Passed(Some("Uses functional style lambdas"))
  }

  /**
    `check_for_no_procedural_style_loops` as written: `'for ' or 'while '`
    evaluates to `'for '`, so only `for ` is looked for.
  */
  function CheckForNoProceduralStyleLoops(answer: string): (r: Verdict)
    ensures r.OutOfSpec? <==> Contains(answer, "for ")
    ensures r.OutOfSpec? ==> r.message == Complaint("it contains procedural style loops")
    ensures r.Passed? ==> r.printed == Some("No procedural style loops")
  {
    CountPositiveIffContains(answer, "for ");
    if Count(answer, "for ") > 0 then
      OutOfSpec(Complaint("it contains procedural style loops"))
    else
      Passed(Some("No procedural style loops"))
  }

  /** The loop check as evidently intended: either keyword raises. */
  function CheckForNoLoopsIntended(answer: string): (r: Verdict)
    ensures r.OutOfSpec? <==> Contains(answer, "for ") || Contains(answer, "while ")
    ensures CheckForNoProceduralStyleLoops(answer).OutOfSpec? ==> r.OutOfSpec?
  {
    CountPositiveIffContains(answer, "for ");
    CountPositiveIffContains(answer, "while ");
    if Count(answer, "for ") > 0 || Count(answer, "while ") > 0 then
      OutOfSpec(Complaint("it contains procedural style loops"))
    else
      Passed(Some("No procedural style loops"))
  }

  /** A `while` loop passes the check as written and fails the intended one. */
  lemma WhileLoopSlipsThrough()
    ensures CheckForNoProceduralStyleLoops("while (x) {}").Passed?
    ensures CheckForNoLoopsIntended("while (x) {}").OutOfSpec?
  {
    var s := "while (x) {}";
    AbsentAnchored(s, "for ", 0);
    assert s[..6] == "while ";
    assert OccursAt(s, 0, "while ");
  }

  /**
    `check_for_static_method` as written: only the first match of the
    static pattern is inspected, and it passes when that match names
    `main`.
  */
  function CheckForStaticMethod(answer: string): (r: Verdict)
    ensures !Contains(answer, "static") ==> r.Passed?
    ensures r.OutOfSpec? ==> r.message == Complaint("your methods shouldn't be static.")
    ensures r.Passed? ==> r.printed == Some("No static methods")
  {
    match FirstStaticMatch(answer, 0)
    case Some(i) =>
      if !Contains(StaticGroupAt(answer, i).value, "main") then OutOfSpec(Complaint("your methods shouldn't be static."))
      else Passed(Some("No static methods"))
    case None => Passed(Some("No static methods"))
  }

  /** The leftmost match at or after `i` whose group does not name `main`. */
  function FirstNonMainStatic(s: string, i: nat): (r: Option<nat>)
    requires i <= |s|
    ensures r.Some? ==>
      i <= r.value <= |s| && StaticGroupAt(s, r.value).Some? && !Contains(StaticGroupAt(s, r.value).value, "main")
    ensures r.None? <==> forall k :: i <= k <= |s| && StaticGroupAt(s, k).Some? ==>
      Contains(StaticGroupAt(s, k).value, "main")
    decreases |s| - i
  {
    var g := StaticGroupAt(s, i);
    if g.Some? && !Contains(g.value, "main") then Some(i)
    else if i == |s| then None
    else FirstNonMainStatic(s, i + 1)
  }

  /** The static check as evidently intended: every static member must be `main`. */
  function CheckForStaticMethodIntended(answer: string): (r: Verdict)
    ensures r.Passed? <==> forall k :: 0 <= k <= |answer| && StaticGroupAt(answer, k).Some? ==>
      Contains(StaticGroupAt(answer, k).value, "main")
    ensures CheckForStaticMethod(answer).OutOfSpec? ==> r.OutOfSpec?
  {
    if FirstNonMainStatic(answer, 0).Some? then OutOfSpec(Complaint("your methods shouldn't be static."))
    else Passed(Some("No static methods"))
  }

  /**
    The match at a `static` that is followed by a space, a group `g` that
    starts with a non-space and stays on its line, a `(`, and the rest of
    the line without another `(`, has group `g`.
  */
  lemma StaticGroupOf(a: string, g: string, l: string, t: string)
    requires g != [] && !IsRegexSpace(g[0]) && forall k :: 0 <= k < |g| ==> g[k] != '\n'
    requires forall k :: 0 <= k < |l| ==> l[k] != '\n' && l[k] != '('
    requires t == [] || t[0] == '\n'
    ensures StaticGroupAt(a + "static " + g + "(" + l + t, |a|) == Some(g)
  {
    var s := a + "static " + g + "(" + l + t;
    var i := |a|;
    var p := i + 7 + |g|;
    var q := p + 1 + |l|;
    StaticDeclarationFront(a, g, l, t);
    StaticDeclarationLine(a, g, l, t);
    var e := SpaceRunEnd(s, i + 6);
    assert e == i + 7;
    var end := Canonical.LineEnd(s, e);
    assert end == q;
    var last := LastIndex(s, e, q, '(');
    assert last == Some(p);
  }

  lemma StaticDeclarationFront(a: string, g: string, l: string, t: string)
    requires g != []
    ensures var s := a + "static " + g + "(" + l + t; var i := |a|;
      OccursAt(s, i, "static") && s[i + 6] == ' ' && s[i + 7] == g[0]
      && s[i + 7 + |g|] == '(' && s[i + 7..i + 7 + |g|] == g
  {
    var s := a + "static " + g + "(" + l + t;
    assert s[|a|..|a| + 6] == "static";
  }

  /** From the group on, the line runs to the end of `l`, and its last `(` is the one after the group. */
  lemma StaticDeclarationLine(a: string, g: string, l: string, t: string)
    requires forall k :: 0 <= k < |g| ==> g[k] != '\n'
    requires forall k :: 0 <= k < |l| ==> l[k] != '\n' && l[k] != '('
    requires t == [] || t[0] == '\n'
    ensures var s := a + "static " + g + "(" + l + t;
      var p := |a| + 7 + |g|; var q := p + 1 + |l|;
      q <= |s| && (q < |s| ==> s[q] == '\n')
      && (forall k :: |a| + 7 <= k < q ==> s[k] != '\n')
      && (forall k :: p < k < q ==> s[k] != '(')
  {
    var s := a + "static " + g + "(" + l + t;
    var p := |a| + 7 + |g|;
    var q := p + 1 + |l|;
    forall k | |a| + 7 <= k < q ensures s[k] != '\n' {
      if k < p {
        assert s[k] == g[k - |a| - 7];
      } else if k > p {
        assert s[k] == l[k - p - 1];
      }
    }
    forall k | p < k < q ensures s[k] != '(' {
      assert s[k] == l[k - p - 1];
    }
  }

  /** No match starts in `s[..n - 5]` when `s[..n]` holds no `static`. */
  lemma NoMatchBefore(s: string, n: nat)
    requires 5 <= n <= |s| && !Contains(s[..n], "static")
    ensures forall k :: 0 <= k < n - 5 ==> StaticGroupAt(s, k).None?
  {
    forall k | 0 <= k < n - 5 ensures StaticGroupAt(s, k).None? {
      OccursAtPrefix(s, n, k, "static");
    }
  }

  /** A match with none before it is the one `search` finds. */
  lemma FirstMatchIs(s: string, i: nat)
    requires i <= |s| && StaticGroupAt(s, i).Some?
    requires forall k :: 0 <= k < i ==> StaticGroupAt(s, k).None?
    ensures FirstStaticMatch(s, 0) == Some(i)
  {
    var r := FirstStaticMatch(s, 0);
    assert r.Some?;
    assert !(r.value < i) && !(i < r.value);
  }

  /** A declaration with no `static` before it: its `static` is the first, and it matches. */
  lemma DeclarationFacts(a: string, g: string, l: string, t: string)
    requires !Contains(a + "stati", "static")
    requires g != [] && !IsRegexSpace(g[0]) && forall k :: 0 <= k < |g| ==> g[k] != '\n'
    requires forall k :: 0 <= k < |l| ==> l[k] != '\n' && l[k] != '('
    requires t == [] || t[0] == '\n'
    ensures var s := a + "static " + g + "(" + l + t;
      |a| + 5 <= |s| && !Contains(s[..|a| + 5], "static") && StaticGroupAt(s, |a|).Some?
  {
    var s := a + "static " + g + "(" + l + t;
    assert s[..|a| + 5] == (a + "static ")[..|a| + 5] == a + "stati";
    StaticGroupOf(a, g, l, t);
  }

  /**
    For an answer with no match before a static declaration with group
    `g`, the check as written raises exactly when `g` does not name `main`.
  */
  lemma FirstStaticDecides(a: string, g: string, l: string, t: string)
    requires forall k :: 0 <= k < |a| ==> StaticGroupAt(a + "static " + g + "(" + l + t, k).None?
    requires g != [] && !IsRegexSpace(g[0]) && forall k :: 0 <= k < |g| ==> g[k] != '\n'
    requires forall k :: 0 <= k < |l| ==> l[k] != '\n' && l[k] != '('
    requires t == [] || t[0] == '\n'
    ensures CheckForStaticMethod(a + "static " + g + "(" + l + t).OutOfSpec? <==> !Contains(g, "main")
  {
    StaticGroupOf(a, g, l, t);
    FirstMatchIs(a + "static " + g + "(" + l + t, |a|);
  }

  /** The same when no `static` at all comes before the declaration. */
  lemma FirstStaticDeclarationDecides(a: string, g: string, l: string, t: string)
    requires !Contains(a + "stati", "static")
    requires g != [] && !IsRegexSpace(g[0]) && forall k :: 0 <= k < |g| ==> g[k] != '\n'
    requires forall k :: 0 <= k < |l| ==> l[k] != '\n' && l[k] != '('
    requires t == [] || t[0] == '\n'
    ensures CheckForStaticMethod(a + "static " + g + "(" + l + t).OutOfSpec? <==> !Contains(g, "main")
  {
    DeclarationFacts(a, g, l, t);
    NoMatchBefore(a + "static " + g + "(" + l + t, |a| + 5);
    FirstStaticDecides(a, g, l, t);
  }

  /** A static field, with no `(` on its line, is no match. */
  lemma StaticFieldNoMatch(a: string, f: string, t: string)
    requires f != [] && !IsRegexSpace(f[0])
    requires forall k :: 0 <= k < |f| ==> f[k] != '\n' && f[k] != '('
    requires t == [] || t[0] == '\n'
    ensures StaticGroupAt(a + "static " + f + t, |a|).None?
  {
    var s := a + "static " + f + t;
    var i := |a|;
    var q := i + 7 + |f|;
    assert s[i + 6] == ' ' && s[i + 7] == f[0];
    var e := SpaceRunEnd(s, i + 6);
    assert e == i + 7;
    forall k | e <= k < q ensures s[k] != '\n' && s[k] != '(' {
      assert s[k] == f[k - e];
    }
    assert q < |s| ==> s[q] == '\n';
    var end := Canonical.LineEnd(s, e);
    assert end == q;
  }

  /**
    A static field line, then more lines, then a static declaration with
    group `g`: the field is no match, so the declaration decides.
  */
  lemma FieldThenDeclaration(a: string, f: string, m: string, g: string, l: string, t: string)
    requires !Contains(a + "stati", "static")
    requires f != [] && !IsRegexSpace(f[0])
    requires forall k :: 0 <= k < |f| ==> f[k] != '\n' && f[k] != '('
    requires m != [] && m[0] == '\n' && !Contains(f + m + "stati", "static")
    requires g != [] && !IsRegexSpace(g[0]) && forall k :: 0 <= k < |g| ==> g[k] != '\n'
    requires forall k :: 0 <= k < |l| ==> l[k] != '\n' && l[k] != '('
    requires t == [] || t[0] == '\n'
    ensures CheckForStaticMethod(a + "static " + f + m + "static " + g + "(" + l + t).OutOfSpec? <==> !Contains(g, "main")
  {
    var pre := a + "static " + f + m;
    var rest := m + "static " + g + "(" + l + t;
    var s := pre + "static " + g + "(" + l + t;
    assert s == a + "static " + f + rest;
    StaticFieldNoMatch(a, f, rest);
    NoMatchBeforeField(a, f, rest);
    NoMatchAfterField(a, f, m, "static " + g + "(" + l + t);
    assert s == a + "static " + f + m + ("static " + g + "(" + l + t);
    FirstStaticDecides(pre, g, l, t);
  }

  /** No match starts before the field's `static`, nor in the rest of that word. */
  lemma NoMatchBeforeField(a: string, f: string, rest: string)
    requires !Contains(a + "stati", "static")
    ensures forall k :: 0 <= k < |a| + 7 && k != |a| ==> StaticGroupAt(a + "static " + f + rest, k).None?
  {
    var s := a + "static " + f + rest;
    assert s[..|a| + 5] == a + "stati";
    NoMatchBefore(s, |a| + 5);
    forall k | |a| < k < |a| + 7 ensures StaticGroupAt(s, k).None? {
      assert s[k] == "static "[k - |a|];
      assert s[k] != 's';
      assert !OccursAt(s, k, "static");
    }
  }

  /** No match starts between the field's `static` and the next `static`, when `f + m` holds none. */
  lemma NoMatchAfterField(a: string, f: string, m: string, rest: string)
    requires !Contains(f + m + "stati", "static") && |rest| >= 5 && rest[..5] == "stati"
    ensures var s := a + "static " + f + m + rest;
      forall k :: |a| + 7 <= k < |a| + 7 + |f + m| ==> StaticGroupAt(s, k).None?
  {
    var s := a + "static " + f + m + rest;
    var lo := |a| + 7;
    var n := lo + |f + m| + 5;
    assert s[lo..n] == f + m + "stati";
    forall k | lo <= k < lo + |f + m| ensures StaticGroupAt(s, k).None? {
      assert s[k..k + 6] == (f + m + "stati")[k - lo..k - lo + 6];
      assert !OccursAt(f + m + "stati", k - lo, "static");
    }
  }

  /**
    A class with a static field, an instance method and a static `main`,
    written as the pieces the proof below names.
  */
  const FieldAndMain: string :=
    "\nclass Foo {\n    private " + "static " + "final String NAME = \"Fred\";"
    + ("\n\n    void foo() {\n        // stuff\n    }\n\n" + "    public ") + "static " + "void main" + "("
    + "String... args) {" + "\n        // stuff\n    }\n}\n"

  /** `FieldAndMain` passes: the field is no match, and the first match is `main`'s. */
  lemma FieldAndMainPasses()
    ensures CheckForStaticMethod(FieldAndMain).Passed?
  {
    var a := "\nclass Foo {\n    private ";
    var f := "final String NAME = \"Fred\";";
    var m := "\n\n    void foo() {\n        // stuff\n    }\n\n" + "    public ";
    var g := "void main";
    var l := "String... args) {";
    var t := "\n        // stuff\n    }\n}\n";
    FieldAndMainFront();
    FieldAndMainMiddle();
    assert "void main"[5..9] == "main";
    assert OccursAt(g, 5, "main");
    FieldThenDeclaration(a, f, m, g, l, t);
  }

  /** No `static` before the field's. */
  lemma FieldAndMainFront()
    ensures !Contains("\nclass Foo {\n    private " + "stati", "static")
  {
    AbsentAnchored("\nclass Foo {\n    private " + "stati", "static", 0);
  }

  /** No `static` between the field's and `main`'s. */
  lemma FieldAndMainMiddle()
    ensures !Contains("final String NAME = \"Fred\";" + ("\n\n    void foo() {\n        // stuff\n    }\n\n" + "    public ") + "stati", "static")
  {
    var x := "final String NAME = \"Fred\";" + "\n\n    void foo() {\n        // stuff\n    }\n\n";
    var y := "    public " + "stati";
    AbsentWithoutChar(x, "static", 5);
    AbsentAnchored(y, "static", 0);
    AbsentAcrossNewline(x, y, "static");
    assert x + y == "final String NAME = \"Fred\";" + ("\n\n    void foo() {\n        // stuff\n    }\n\n" + "    public ") + "stati";
  }

  /** A `main`, then a static helper: the helper is not caught. */
  const MainThenHelper: string := MainDecl + "\nstatic int f(int x) {}\n"

  const MainDecl: string := "static void main(String[] a) {}"

  lemma MainThenHelperAtMain()
    ensures [] + "static " + "void main" + "(" + "String[] a) {}" + "\nstatic int f(int x) {}\n" == MainThenHelper
  {
    assert [] + "static " + "void main" + "(" == "static void main(";
    assert "static void main(" + "String[] a) {}" == MainDecl;
  }

  lemma MainThenHelperAtHelper()
    ensures MainDecl + "\n" + "static " + "int f" + "(" + "int x) {}" + "\n" == MainThenHelper
  {
    var tail := "\n" + "static " + "int f" + "(" + "int x) {}" + "\n";
    assert tail == "\nstatic int f(int x) {}\n";
    AppendFive(MainDecl, "\n", "static ", "int f", "(" + "int x) {}", "\n");
  }

  lemma AppendFive(x: string, a: string, b: string, c: string, d: string, e: string)
    ensures x + a + b + c + d + e == x + (a + b + c + d + e)
  {
  }

  /** The first match in `MainThenHelper` is `main`'s, so the check as written passes it. */
  lemma MainFirstPasses()
    ensures CheckForStaticMethod(MainThenHelper).Passed?
  {
    MainThenHelperAtMain();
    AbsentAnchored([] + "stati", "static", 0);
    FirstStaticDeclarationDecides([], "void main", "String[] a) {}", "\nstatic int f(int x) {}\n");
    assert OccursAt("void main", 5, "main") by { assert "void main"[5..9] == "main"; }
  }

  /** The helper's declaration in `MainThenHelper` is a match whose group does not name `main`. */
  lemma HelperMatches()
    ensures StaticGroupAt(MainThenHelper, |MainDecl| + 1) == Some("int f")
    ensures !Contains("int f", "main")
  {
    MainThenHelperAtHelper();
    StaticGroupOf(MainDecl + "\n", "int f", "int x) {}", "\n");
    HelperGroupHasNoMain();
  }

  lemma HelperGroupHasNoMain()
    ensures !Contains("int f", "main")
  {
    AbsentAnchored("int f", "main", 0);
  }

  /** The intended check raises on `MainThenHelper`. */
  lemma HelperCaughtByIntended()
    ensures CheckForStaticMethodIntended(MainThenHelper).OutOfSpec?
  {
    HelperMatches();
  }

  /** The check as written passes `MainThenHelper`; the intended check raises. */
  lemma StaticHelperSlipsThrough()
    ensures CheckForStaticMethod(MainThenHelper).Passed?
    ensures CheckForStaticMethodIntended(MainThenHelper).OutOfSpec?
  {
    MainFirstPasses();
    HelperCaughtByIntended();
  }
}
