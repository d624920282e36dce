/**
  The older spec checker for Java answers: four of the checks of
  `JavaCodeCheckr`, with the same conditions, that raise with the
  exception text indented as written in the source and print nothing
  when the answer conforms.
*/
module JavaCodeChecker {
  import opened PyText
  import opened JavaPatterns
  import JavaCodeCheckr

  /**
    `check_for_author`: raises when more classes than `@author` tags
    occur, or when the existing author (if truthy) occurs at least as
    often as the tags; otherwise returns `None`.
  */
  function CheckForAuthor(answer: string, existingAuthor: Option<string>): (r: Verdict)
    ensures r.OutOfSpec? <==>
      Count(answer, "class") > Count(answer, "@author")
      || JavaCodeCheckr.ExistingAuthors(answer, existingAuthor) >= Count(answer, "@author")
    ensures r.OutOfSpec? ==> r.message == IndentedComplaint("doesn't credit all authors.")
    ensures r.Passed? ==> r.printed.None?
    ensures r.OutOfSpec? == JavaCodeCheckr.CheckForAuthor(answer, existingAuthor).OutOfSpec?
  {
    var classes := Count(answer, "class");
    var authors := Count(answer, "@author");
    if classes > authors || JavaCodeCheckr.ExistingAuthors(answer, existingAuthor) >= authors then
      OutOfSpec(IndentedComplaint("doesn't credit all authors."))
    else
      Passed(None)
  }

  /** Without an `@author` tag the answer is always out of spec. */
  lemma NoAuthorRaises(answer: string, existingAuthor: Option<string>)
    requires !Contains(answer, "@author")
    ensures CheckForAuthor(answer, existingAuthor) == OutOfSpec(IndentedComplaint("doesn't credit all authors."))
  {
    CountPositiveIffContains(answer, "@author");
  }

  /** `check_for_extends`: the extends shape of `JavaCodeCheckr`, returning `None` when it matches. */
  function CheckForExtends(answer: string, subclass: string, superclass: string): (r: Verdict)
    ensures r.OutOfSpec? ==>
      r.message == IndentedComplaint("you were supposed to define\n        " + subclass + " extends " + superclass + ".")
    ensures r.Passed? ==> r.printed.None?
    ensures r.OutOfSpec? == JavaCodeCheckr.CheckForExtends(answer, subclass, superclass).OutOfSpec?
  {
    if !ExtendsFound(answer, subclass, superclass) then
      OutOfSpec(IndentedComplaint("you were supposed to define\n        " + subclass + " extends " + superclass + "."))
    else
      Passed(None)
  }

  /**
    A single-spaced declaration passes, and the superclass is matched as a
    prefix: declaring `extends SUP + more` passes the check for `SUP`.
  */
  lemma DeclaredExtendsPasses(a: string, subclass: string, superclass: string, more: string, b: string)
    ensures CheckForExtends(a + "class " + subclass + " extends " + superclass + more + b, subclass, superclass).Passed?
  {
    var s := a + "class " + subclass + " extends " + superclass + more + b;
    assert s == a + "class " + subclass + " extends " + (superclass + more) + b;
    JavaCodeCheckr.DeclaredExtendsPasses(a, subclass, superclass + more, b);
    JavaCodeCheckr.ExtendsCheckSuperPrefix(s, subclass, superclass, more);
  }

  /** Without the word `class` the extends check raises. */
  lemma ExtendsNeedsClassKeyword(answer: string, subclass: string, superclass: string)
    requires !Contains(answer, "class")
    ensures CheckForExtends(answer, subclass, superclass).OutOfSpec?
  {
    JavaCodeCheckr.ExtendsCheckNeedsClass(answer, subclass, superclass);
  }

  /** `check_for_enum`: the enum shape of `JavaCodeCheckr`, returning `None` when it matches. */
  function CheckForEnum(answer: string, name: string): (r: Verdict)
    ensures r.OutOfSpec? ==> r.message == IndentedComplaint("you were supposed to define\n        enum " + name + ".")
    ensures r.Passed? ==> r.printed.None?
    ensures r.OutOfSpec? == JavaCodeCheckr.CheckForEnum(answer, name).OutOfSpec?
  {
    if !EnumFound(answer, name) then
      OutOfSpec(IndentedComplaint("you were supposed to define\n        enum " + name + "."))
    else
      Passed(None)
  }

  /** A declaration of the enum, or of one whose name extends it, passes; no `enum` at all raises. */
  lemma EnumCheckDecided(a: string, name: string, more: string, b: string, other: string)
    requires !Contains(other, "enum")
    ensures CheckForEnum(a + "enum " + name + more + b, name).Passed?
    ensures CheckForEnum(other, name).OutOfSpec?
  {
    JavaCodeCheckr.DeclaredEnumPasses(a, name, more, b);
    JavaCodeCheckr.EnumCheckNeedsKeyword(other, name);
  }

  /** `check_for_enum_in_switch`: the switch shape of `JavaCodeCheckr`, returning `None` when it matches. */
  function CheckForEnumInSwitch(answer: string, constant: string): (r: Verdict)
    ensures r.OutOfSpec? ==> r.message == IndentedComplaint("you were supposed to use\n        case " + constant + ":.")
    ensures r.Passed? ==> r.printed.None?
    ensures r.OutOfSpec? == JavaCodeCheckr.CheckForEnumInSwitch(answer, constant).OutOfSpec?
  {
    if !SwitchCaseFound(answer, constant) then
      OutOfSpec(IndentedComplaint("you were supposed to use\n        case " + constant + ":."))
    else
      Passed(None)
  }

  /** A `switch` followed, across lines, by `case CONST:` passes; no `switch` at all raises. */
  lemma SwitchCheckDecided(a: string, b: string, constant: string, d: string, other: string)
    requires !Contains(other, "switch")
    ensures CheckForEnumInSwitch(a + "switch" + b + "case " + constant + ":" + d, constant).Passed?
    ensures CheckForEnumInSwitch(other, constant).OutOfSpec?
  {
    JavaCodeCheckr.SwitchCasePasses(a, b, constant, d);
    JavaCodeCheckr.SwitchCheckNeedsSwitch(other, constant);
  }
}
