/**
  The fixed regular-expression shapes the Java spec checkers search for,
  written as predicates over ASCII text (`\s` is `IsRegexSpace`, a name
  interpolated into a pattern is taken literally), and the verdict a
  checker returns where the Python raises `CodeOutOfSpecException` or
  prints.
*/
module JavaPatterns {
  import opened PyText
  import opened Canonical

  /** A checker either passes, printing one line or nothing, or raises with a message. */
  datatype Verdict = Passed(printed: Option<string>) | OutOfSpec(message: string)

  /** The exception text of java_code_checkr: flush-left lines around the detail. */
  function Complaint(detail: string): string {
    "\nYour code may well execute...but:\nYour code is out of spec - " + detail + "\n"
  }

  /** The exception text of java_code_checker: its triple-quoted literals keep the 4-space indentation. */
  function IndentedComplaint(detail: string): string {
    "\n    Your code may well execute...but:\n    Your code is out of spec - " + detail + "\n    "
  }

  /** Every character of `s[lo..hi]` is matched by `\s`. */
  predicate AllSpaces(s: string, lo: nat, hi: nat)
    requires lo <= hi <= |s|
  {
    forall k :: lo <= k < hi ==> IsRegexSpace(s[k])
  }

  /** `\s+` starting at `i`, then the literal `w`. */
  predicate SpacesThen(s: string, i: nat, w: string) {
    exists j :: i < j <= |s| && AllSpaces(s, i, j) && OccursAt(s, j, w)
  }

  /** `class\s+SUB\s+extends\s+SUP` matches starting at `i`. */
  predicate ExtendsAt(s: string, i: nat, sub: string, sup: string) {
    OccursAt(s, i, "class")
    && exists j, m :: i + 5 < j && j + |sub| < m && m + 7 <= |s|
         && AllSpaces(s, i + 5, j) && OccursAt(s, j, sub)
         && AllSpaces(s, j + |sub|, m) && OccursAt(s, m, "extends")
         && SpacesThen(s, m + 7, sup)
  }

  /**
    `re.search` of the extends pattern succeeds; then `class`, `extends`
    and both names occur in the text.
  */
  predicate ExtendsFound(s: string, sub: string, sup: string): (found: bool)
    ensures found ==> Contains(s, "class") && Contains(s, "extends") && Contains(s, sub) && Contains(s, sup)
  {
    exists i :: 0 <= i <= |s| && ExtendsAt(s, i, sub, sup)
  }

  /** `enum\s+NAME` matches starting at `i`. */
  predicate EnumAt(s: string, i: nat, name: string) {
    OccursAt(s, i, "enum") && SpacesThen(s, i + 4, name)
  }

  /** `re.search` of the enum pattern succeeds; then `enum` and the name occur in the text. */
  predicate EnumFound(s: string, name: string): (found: bool)
    ensures found ==> Contains(s, "enum") && Contains(s, name)
  {
    exists i :: 0 <= i <= |s| && EnumAt(s, i, name)
  }

  /**
    `switch.*?case\s+CONST:` with `re.DOTALL` matches starting at `i`: any
    text, newlines included, may separate `switch` from `case`.
  */
  predicate SwitchCaseAt(s: string, i: nat, constant: string) {
    OccursAt(s, i, "switch")
    && exists j :: i + 6 <= j <= |s| && OccursAt(s, j, "case") && SpacesThen(s, j + 4, constant + ":")
  }

  /**
    `re.search` of the switch pattern succeeds; then `switch`, `case` and
    the constant with its colon occur in the text.
  */
  predicate SwitchCaseFound(s: string, constant: string): (found: bool)
    ensures found ==> Contains(s, "switch") && Contains(s, "case") && Contains(s, constant + ":")
  {
    exists i :: 0 <= i <= |s| && SwitchCaseAt(s, i, constant)
  }

  /** The end of the longest run of `\s` starting at `k`. */
  function SpaceRunEnd(s: string, k: nat): (e: nat)
    requires k <= |s|
    ensures k <= e <= |s|
    ensures AllSpaces(s, k, e)
    ensures e < |s| ==> !IsRegexSpace(s[e])
    decreases |s| - k
  {
    if k == |s| || !IsRegexSpace(s[k]) then k else SpaceRunEnd(s, k + 1)
  }

  /** The last index in `[lo, hi)` holding `c`, if any. */
  function LastIndex(s: string, lo: nat, hi: nat, c: char): (r: Option<nat>)
    requires lo <= hi <= |s|
    ensures r.Some? ==> lo <= r.value < hi && s[r.value] == c
    ensures r.Some? ==> forall q :: r.value < q < hi ==> s[q] != c
    ensures r.None? <==> forall q :: lo <= q < hi ==> s[q] != c
    decreases hi
  {
    if hi == lo then None
    else if s[hi - 1] == c then Some(hi - 1)
    else LastIndex(s, lo, hi - 1, c)
  }

  /**
    The match of `static\s+(.*)\(` (no `re.DOTALL`) starting at `i`, as its
    group: `\s+` first takes the whole run of whitespace, newlines
    included, and `(.*)` then runs to the last `(` on the line it reached.
    Giving back whitespace never helps: the shorter group ends on the same
    line, or on a line of whitespace only.
  */
  function StaticGroupAt(s: string, i: nat): (g: Option<string>)
    ensures g.Some? ==> OccursAt(s, i, "static")
    ensures g.Some? ==> forall k :: 0 <= k < |g.value| ==> g.value[k] != '\n'
  {
    if !OccursAt(s, i, "static") then None
    else
      var e := SpaceRunEnd(s, i + 6);
      if e == i + 6 then None
      else
        match LastIndex(s, e, LineEnd(s, e), '(')
        case None => None
        case Some(p) => Some(s[e..p])
  }

  /** `pattern.search(s, i)` for the static pattern: the leftmost match at or after `i`. */
  function FirstStaticMatch(s: string, i: nat): (r: Option<nat>)
    requires i <= |s|
    ensures r.Some? ==> i <= r.value <= |s| && StaticGroupAt(s, r.value).Some?
    ensures r.Some? ==> forall k :: i <= k < r.value ==> StaticGroupAt(s, k).None?
    ensures r.None? <==> forall k :: i <= k <= |s| ==> StaticGroupAt(s, k).None?
    decreases |s| - i
  {
    if StaticGroupAt(s, i).Some? then Some(i)
    else if i == |s| then None
    else FirstStaticMatch(s, i + 1)
  }

  /** A text without `static` has no match. */
  lemma NoStaticNoMatch(s: string)
    requires !Contains(s, "static")
    ensures FirstStaticMatch(s, 0).None?
  {
  }

  /**
    The superclass is matched as a prefix: a declaration extending
    `sup + more` satisfies the pattern for `sup`.
  */
  lemma ExtendsSuperPrefix(s: string, sub: string, sup: string, more: string)
    requires ExtendsFound(s, sub, sup + more)
    ensures ExtendsFound(s, sub, sup)
  {
    var i :| 0 <= i <= |s| && ExtendsAt(s, i, sub, sup + more);
    var j, m :| i + 5 < j && j + |sub| < m && m + 7 <= |s|
         && AllSpaces(s, i + 5, j) && OccursAt(s, j, sub)
         && AllSpaces(s, j + |sub|, m) && OccursAt(s, m, "extends")
         && SpacesThen(s, m + 7, sup + more);
    var n :| m + 7 < n <= |s| && AllSpaces(s, m + 7, n) && OccursAt(s, n, sup + more);
    assert s[n..n + |sup|] == (sup + more)[..|sup|];
    assert SpacesThen(s, m + 7, sup);
    assert ExtendsAt(s, i, sub, sup);
  }

  /** `class SUB extends SUP`, single-spaced, satisfies the pattern wherever it stands. */
  lemma ExtendsDeclared(a: string, sub: string, sup: string, b: string)
    ensures ExtendsFound(a + "class " + sub + " extends " + sup + b, sub, sup)
  {
    var s := a + "class " + sub + " extends " + sup + b;
    var i := |a|;
    var j := i + 6;
    var m := j + |sub| + 1;
    var n := m + 8;
    DeclarationFront(a, sub, sup, b);
    DeclarationBack(a, sub, sup, b);
    assert AllSpaces(s, i + 5, j) && AllSpaces(s, j + |sub|, m) && AllSpaces(s, m + 7, n);
    assert SpacesThen(s, m + 7, sup);
    assert ExtendsAt(s, i, sub, sup);
  }

  lemma DeclarationFront(a: string, sub: string, sup: string, b: string)
    ensures var s := a + "class " + sub + " extends " + sup + b;
      OccursAt(s, |a|, "class") && s[|a| + 5] == ' ' && OccursAt(s, |a| + 6, sub)
  {
    var s := a + "class " + sub + " extends " + sup + b;
    assert s[|a|..|a| + 5] == "class";
    assert s[|a| + 6..|a| + 6 + |sub|] == sub;
  }

  lemma DeclarationBack(a: string, sub: string, sup: string, b: string)
    ensures var s := a + "class " + sub + " extends " + sup + b;
      var m := |a| + 7 + |sub|;
      s[m - 1] == ' ' && OccursAt(s, m, "extends") && s[m + 7] == ' ' && OccursAt(s, m + 8, sup)
  {
    var s := a + "class " + sub + " extends " + sup + b;
    var m := |a| + 7 + |sub|;
    assert s[m..m + 7] == "extends";
    assert s[m + 8..m + 8 + |sup|] == sup;
  }

  /** Without the word `class` the extends pattern cannot match. */
  lemma ExtendsNeedsClass(s: string, sub: string, sup: string)
    requires !Contains(s, "class")
    ensures !ExtendsFound(s, sub, sup)
  {
  }

  /** The enum name is matched as a prefix, like the superclass. */
  lemma EnumPrefix(s: string, name: string, more: string)
    requires EnumFound(s, name + more)
    ensures EnumFound(s, name)
  {
    var i :| 0 <= i <= |s| && EnumAt(s, i, name + more);
    var n :| i + 4 < n <= |s| && AllSpaces(s, i + 4, n) && OccursAt(s, n, name + more);
    assert s[n..n + |name|] == (name + more)[..|name|];
    assert EnumAt(s, i, name);
  }

  /** `enum NAME`, single-spaced, satisfies the enum pattern wherever it stands. */
  lemma EnumDeclared(a: string, name: string, b: string)
    ensures EnumFound(a + "enum " + name + b, name)
  {
    var s := a + "enum " + name + b;
    var i := |a|;
    assert s[i..i + 4] == "enum" && s[i + 4] == ' ';
    assert s[i + 5..i + 5 + |name|] == name;
    assert AllSpaces(s, i + 4, i + 5) && OccursAt(s, i + 5, name);
    assert SpacesThen(s, i + 4, name);
    assert EnumAt(s, i, name);
  }

  /** Without the word `enum` the enum pattern cannot match. */
  lemma EnumNeedsKeyword(s: string, name: string)
    requires !Contains(s, "enum")
    ensures !EnumFound(s, name)
  {
  }

  /** A `switch` followed, across any text, by `case CONST:` satisfies the pattern. */
  lemma SwitchCaseDeclared(a: string, b: string, constant: string, d: string)
    ensures SwitchCaseFound(a + "switch" + b + "case " + constant + ":" + d, constant)
  {
    var s := a + "switch" + b + "case " + constant + ":" + d;
    var i := |a|;
    var j := i + 6 + |b|;
    assert s[i..i + 6] == "switch";
    assert s[j..j + 4] == "case" && s[j + 4] == ' ';
    assert s[j + 5..j + 5 + |constant| + 1] == constant + ":";
    assert OccursAt(s, j, "case");
    assert AllSpaces(s, j + 4, j + 5) && OccursAt(s, j + 5, constant + ":");
    assert SpacesThen(s, j + 4, constant + ":");
    assert SwitchCaseAt(s, i, constant);
  }

  /** A `case` with no `switch` anywhere in the text does not satisfy the pattern. */
  lemma SwitchCaseNeedsSwitch(s: string, constant: string)
    requires !Contains(s, "switch")
    ensures !SwitchCaseFound(s, constant)
  {
  }
}
