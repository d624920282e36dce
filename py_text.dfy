/**
  The pieces of Python's `str` that the modelled code relies on:
  substring search (`in`, `str.find`), `str.count`, `str.replace`,
  `str.split` and `str.join`, plus the ASCII character classes that the
  fixed regular expressions of the copy detector and the Java checkers
  use. Strings are sequences of code points, as in Python 3.
*/
module PyText {

  datatype Option<T> = None | Some(value: T)

  /** The outcome of looking a key up in a Python `dict`: the value, or `KeyError(key)`. */
  datatype Result<T> = Ok(value: T) | KeyError(key: string)

  /** `p` occurs in `s` starting at index `i`. */
  predicate OccursAt(s: string, i: int, p: string) {
    0 <= i && i + |p| <= |s| && s[i..i + |p|] == p
  }

  /** Python's `p in s`. */
  predicate Contains(s: string, p: string) {
    exists i :: 0 <= i <= |s| && OccursAt(s, i, p)
  }

  lemma OccursAtTail(s: string, i: int, p: string)
    requires s != [] && 0 <= i
    ensures OccursAt(s[1..], i, p) <==> OccursAt(s, i + 1, p)
  {
    if i + |p| <= |s[1..]| {
      assert s[1..][i..i + |p|] == s[i + 1..i + 1 + |p|];
    }
  }

  lemma OccursAtDrop(s: string, d: nat, i: int, p: string)
    requires d <= |s| && 0 <= i
    ensures OccursAt(s[d..], i, p) <==> OccursAt(s, d + i, p)
  {
    if i + |p| <= |s[d..]| {
      assert s[d..][i..i + |p|] == s[d + i..d + i + |p|];
    }
  }

  /** An occurrence in a prefix of `s` is an occurrence in `s`, and conversely when it fits. */
  lemma OccursAtPrefix(s: string, n: nat, i: int, p: string)
    requires n <= |s| && 0 <= i
    ensures OccursAt(s[..n], i, p) <==> (i + |p| <= n && OccursAt(s, i, p))
  {
    if i + |p| <= n {
      assert s[..n][i..i + |p|] == s[i..i + |p|];
    }
  }

  /** A suffix of `s` holds an occurrence only if `s` does. */
  lemma ContainsDrop(s: string, d: nat, p: string)
    requires d <= |s|
    ensures Contains(s[d..], p) ==> Contains(s, p)
  {
    forall i | 0 <= i <= |s[d..]| && OccursAt(s[d..], i, p) ensures Contains(s, p) {
      OccursAtDrop(s, d, i, p);
      assert OccursAt(s, d + i, p);
    }
  }

  /** `s` holds `p` exactly when it starts with it or its tail holds it. */
  lemma ContainsCons(s: string, p: string)
    requires s != []
    ensures Contains(s, p) <==> OccursAt(s, 0, p) || Contains(s[1..], p)
  {
    ContainsDrop(s, 1, p);
    forall i | 1 <= i <= |s| && OccursAt(s, i, p) ensures Contains(s[1..], p) {
      OccursAtTail(s, i - 1, p);
    }
  }

  /** `p` occurs where `x + p` puts it. */
  lemma OccursAtJoin(x: string, p: string)
    ensures OccursAt(x + p, |x|, p)
  {
    assert (x + p)[|x|..|x| + |p|] == p;
  }

  /** An occurrence survives appending text. */
  lemma OccursAtAppend(s: string, i: nat, p: string, y: string)
    requires OccursAt(s, i, p)
    ensures OccursAt(s + y, i, p)
  {
    assert (s + y)[i..i + |p|] == s[i..i + |p|];
  }

  /** Concatenation regroups. */
  lemma Assoc(a: string, b: string, c: string)
    ensures a + b + c == a + (b + c)
  {
  }

  /** Nothing in front changes nothing. */
  lemma EmptyFront(b: string)
    ensures [] + b == b
  {
  }

  /** Text splits into its first character and the rest, also in front of more text. */
  lemma EmptyBack(a: string)
    ensures a + [] == a
  {
  }

  lemma HeadTail(a: string, b: string)
    requires a != []
    ensures a == [a[0]] + a[1..]
    ensures a + b == [a[0]] + (a[1..] + b)
  {
  }

  /** Slicing after dropping the first character, and dropping it after slicing, agree. */
  lemma SliceShift(s: string, e: nat)
    requires 1 <= e <= |s|
    ensures s[1..][..e - 1] == s[..e][1..]
    ensures s[1..][e - 1..] == s[e..]
  {
  }

  /** Text that is a head before a tail of two parts is the head with the first part, then the second. */
  lemma Regroup(whole: string, tail: string, front: string, head: string, a: string, b: string)
    requires whole == head + tail && tail == a + b && front == head + a
    ensures whole == front + b
  {
  }

  /** Text appended after an occurrence keeps it. */
  lemma ContainsAppend(s: string, y: string, p: string)
    requires Contains(s, p)
    ensures Contains(s + y, p)
  {
    var i :| 0 <= i <= |s| && OccursAt(s, i, p);
    OccursAtAppend(s, i, p, y);
  }

  /** Text put in front of an occurrence keeps it, shifted. */
  lemma ContainsPrepend(x: string, s: string, p: string)
    requires Contains(s, p)
    ensures Contains(x + s, p)
  {
    var i :| 0 <= i <= |s| && OccursAt(s, i, p);
    assert (x + s)[|x| + i..|x| + i + |p|] == s[i..i + |p|];
    assert OccursAt(x + s, |x| + i, p);
  }

  /** Python's `s.find(p)`: the leftmost occurrence, `None` standing for `-1`. */
  function Find(s: string, p: string): (r: Option<nat>)
    ensures r.Some? ==> OccursAt(s, r.value, p)
    ensures r.Some? ==> forall j :: 0 <= j < r.value ==> !OccursAt(s, j, p)
    ensures r.None? <==> !Contains(s, p)
    decreases |s|
  {
    if OccursAt(s, 0, p) then Some(0)
    else if s == [] then None
    else
      var r := Find(s[1..], p);
      ContainsCons(s, p);
      if r.None? then None
      else
        assert forall j :: 1 <= j <= r.value ==> !OccursAt(s, j, p) by {
          forall j | 1 <= j <= r.value ensures !OccursAt(s, j, p) { OccursAtTail(s, j - 1, p); }
        }
        OccursAtTail(s, r.value, p);
        Some(r.value + 1)
  }

  lemma Distribute(n: int, d: int)
    ensures (1 + n) * d == d + n * d
  {
  }

  /**
    Python's `s.count(p)`: occurrences counted left to right without
    overlapping; an empty `p` matches at each of the `|s| + 1` positions.
  */
  function Count(s: string, p: string): (n: nat)
    ensures p != [] ==> n * |p| <= |s|
    decreases |s|
  {
    if p == [] then |s| + 1
    else if s == [] then 0
    else if OccursAt(s, 0, p) then
      var c := Count(s[|p|..], p);
      Distribute(c, |p|);
      1 + c
    else Count(s[1..], p)
  }

  /** `str.count` is non-zero exactly when `in` holds, so `if s.count(p)` tests membership. */
  lemma {:induction false} CountPositiveIffContains(s: string, p: string)
    ensures Count(s, p) > 0 <==> Contains(s, p)
    decreases |s|
  {
    if p == [] {
      assert OccursAt(s, 0, p);
    } else if s == [] {
      assert !Contains(s, p);
    } else if OccursAt(s, 0, p) {
    } else {
      CountPositiveIffContains(s[1..], p);
      ContainsCons(s, p);
    }
  }

  /**
    Python's `s.replace(old, new, count)`: the leftmost non-overlapping
    occurrences of `old`, scanning left to right, become `new`; a negative
    count means all of them, zero means none. Every call in the modelled
    code passes a non-empty `old`.
  */
  function ReplaceUpTo(s: string, target: string, replacement: string, count: int): (r: string)
    requires target != []
    ensures |r| == |s| + Replacements(s, target, count) * (|replacement| - |target|)
    decreases |s|
  {
    if s == [] || count == 0 then s
    else if OccursAt(s, 0, target) then
      var rest := ReplaceUpTo(s[|target|..], target, replacement, count - 1);
      var n := Replacements(s[|target|..], target, count - 1);
      Distribute(n, |replacement| - |target|);
      replacement + rest
    else [s[0]] + ReplaceUpTo(s[1..], target, replacement, count)
  }

  /**
    How many occurrences `s.replace(old, new, count)` rewrites: all that
    `s.count(old)` finds for a negative count, and at most `count` otherwise.
  */
  function Replacements(s: string, target: string, count: int): (n: nat)
    ensures count >= 0 ==> n <= count
    ensures n <= Count(s, target)
  {
    if count < 0 || Count(s, target) <= count then Count(s, target) else count
  }

  /** Python's `s.replace(old, new)`, whose count defaults to `-1`: every occurrence `count` finds is rewritten. */
  function Replace(s: string, target: string, replacement: string): (r: string)
    requires target != []
    ensures |r| == |s| + Count(s, target) * (|replacement| - |target|)
  {
    ReplaceUpTo(s, target, replacement, -1)
  }

  /** Text without any occurrence of `old` comes back unchanged. */
  lemma {:induction false} ReplaceAbsent(s: string, target: string, replacement: string, count: int)
    requires target != [] && !Contains(s, target)
    ensures ReplaceUpTo(s, target, replacement, count) == s
    decreases |s|
  {
    if s != [] && count != 0 {
      ContainsCons(s, target);
      ReplaceAbsent(s[1..], target, replacement, count);
    }
  }

  /** Replacing a string by itself changes nothing, whatever the count. */
  lemma {:induction false} ReplaceSelf(s: string, x: string, count: int)
    requires x != []
    ensures ReplaceUpTo(s, x, x, count) == s
    decreases |s|
  {
    if s == [] || count == 0 {
    } else if OccursAt(s, 0, x) {
      ReplaceSelf(s[|x|..], x, count - 1);
      assert s == s[..|x|] + s[|x|..];
    } else {
      ReplaceSelf(s[1..], x, count);
      assert s == [s[0]] + s[1..];
    }
  }

  /** Python's `s.split(sep)` for a non-empty separator. */
  function Split(s: string, sep: string): (parts: seq<string>)
    requires sep != []
    ensures |parts| >= 1
    decreases |s|
  {
    match Find(s, sep)
    case None => [s]
    case Some(i) => [s[..i]] + Split(s[i + |sep|..], sep)
  }

  /** No part that `split` gives holds the separator. */
  lemma {:induction false} SplitPartsFree(s: string, sep: string)
    requires sep != []
    ensures forall k :: 0 <= k < |Split(s, sep)| ==> !Contains(Split(s, sep)[k], sep)
    decreases |s|
  {
    match Find(s, sep)
    case None =>
    case Some(i) =>
      var tail := Split(s[i + |sep|..], sep);
      SplitPartsFree(s[i + |sep|..], sep);
      HeadBeforeFind(s, sep, i);
      PartsFreeCons(Split(s, sep), s[..i], tail, sep);
  }

  /** The text before the first occurrence of `sep` holds none. */
  lemma HeadBeforeFind(s: string, sep: string, i: nat)
    requires sep != [] && Find(s, sep) == Some(i)
    ensures !Contains(s[..i], sep)
  {
    forall j | 0 <= j <= i ensures !OccursAt(s[..i], j, sep) {
      OccursAtPrefix(s, i, j, sep);
    }
  }

  lemma PartsFreeCons(parts: seq<string>, head: string, tail: seq<string>, sep: string)
    requires parts == [head] + tail
    requires !Contains(head, sep) && forall k :: 0 <= k < |tail| ==> !Contains(tail[k], sep)
    ensures forall k :: 0 <= k < |parts| ==> !Contains(parts[k], sep)
  {
    forall k | 0 <= k < |parts| ensures !Contains(parts[k], sep) {
      if k > 0 { assert parts[k] == tail[k - 1]; }
    }
  }

  /** Python's `sep.join(parts)`. */
  function Join(parts: seq<string>, sep: string): (r: string)
    ensures |r| == TotalLength(parts) + (if parts == [] then 0 else (|parts| - 1) * |sep|)
    decreases |parts|
  {
    if parts == [] then ""
    else if |parts| == 1 then parts[0]
    else
      var tail := Join(parts[1..], sep);
      Distribute(|parts| - 2, |sep|);
      parts[0] + sep + tail
  }

  /** The summed length of the parts. */
  function TotalLength(parts: seq<string>): nat
    decreases |parts|
  {
    if parts == [] then 0 else |parts[0]| + TotalLength(parts[1..])
  }

  /** Splitting and joining with the same separator gives the text back. */
  lemma {:induction false} JoinSplit(s: string, sep: string)
    requires sep != []
    ensures Join(Split(s, sep), sep) == s
    decreases |s|
  {
    var f := Find(s, sep);
    if f.Some? {
      var i := f.value;
      var rest := s[i + |sep|..];
      var tail := Split(rest, sep);
      JoinSplit(rest, sep);
      assert Split(s, sep) == [s[..i]] + tail;
      JoinCons(s[..i], tail, sep);
      AroundOccurrence(s, i, sep);
    }
  }

  lemma JoinCons(head: string, tail: seq<string>, sep: string)
    requires tail != []
    ensures Join([head] + tail, sep) == head + sep + Join(tail, sep)
  {
    assert ([head] + tail)[1..] == tail;
  }

  /** A text is what comes before an occurrence, the occurrence, and what follows it. */
  lemma AroundOccurrence(s: string, i: nat, p: string)
    requires OccursAt(s, i, p)
    ensures s == s[..i] + p + s[i + |p|..]
  {
    assert s[i..i + |p|] == p;
  }

  /**
    Joining parts that hold no separator and splitting again gives the parts
    back, for a one-character separator (a longer one can straddle the
    boundary between two parts).
  */
  lemma {:induction false} SplitJoin(parts: seq<string>, sep: string)
    requires |sep| == 1 && |parts| >= 1
    requires forall k :: 0 <= k < |parts| ==> !Contains(parts[k], sep)
    ensures Split(Join(parts, sep), sep) == parts
    decreases |parts|
  {
    var s := Join(parts, sep);
    if |parts| > 1 {
      var rest := Join(parts[1..], sep);
      var h := parts[0];
      assert s == h + sep + rest;
      FirstSeparator(h, sep, rest);
      SplitJoin(parts[1..], sep);
      assert Split(s, sep) == [s[..|h|]] + Split(rest, sep);
    }
  }

  /** In `h + sep + rest` with no `sep` in `h`, the first separator is the one after `h`. */
  lemma FirstSeparator(h: string, sep: string, rest: string)
    requires |sep| == 1 && !Contains(h, sep)
    ensures var s := h + sep + rest;
      Find(s, sep) == Some(|h|) && s[..|h|] == h && s[|h| + 1..] == rest
  {
    var s := h + sep + rest;
    assert OccursAt(s, |h|, sep) by { assert s[|h|..|h| + 1] == sep; }
    forall j | 0 <= j < |h| ensures !OccursAt(s, j, sep) {
      assert s[j..j + 1] == h[j..j + 1];
      assert !OccursAt(h, j, sep);
    }
    assert s[|h| + 1..] == rest;
    assert s[..|h|] == h;
  }

  /** ASCII `\w`: a letter, a digit or the underscore. */
  predicate IsWordChar(c: char) {
    'a' <= c <= 'z' || 'A' <= c <= 'Z' || '0' <= c <= '9' || c == '_'
  }

  /** The class `[A-Za-z_]` that may open an identifier. */
  predicate IsIdentStart(c: char) {
    'a' <= c <= 'z' || 'A' <= c <= 'Z' || c == '_'
  }

  /** Text matching `[A-Za-z_][A-Za-z0-9_]*` as a whole. */
  predicate IsIdentifier(w: string) {
    w != [] && IsIdentStart(w[0]) && forall i :: 0 <= i < |w| ==> IsWordChar(w[i])
  }

  /** The ASCII part of Python's `\s`: space, `\t`, `\n`, `\v`, `\f`, `\r` and the separators 0x1C to 0x1F. */
  predicate IsRegexSpace(c: char) {
    c == ' ' || '\t' <= c <= '\r' || '\U{1C}' <= c <= '\U{1F}'
  }

  /** A one-character pattern occurs exactly where that character is. */
  lemma OccursAtChar(s: string, i: nat, c: char)
    ensures OccursAt(s, i, [c]) <==> i < |s| && s[i] == c
  {
    if i < |s| {
      assert s[i..i + 1] == [s[i]];
    }
  }

  /** `s.find(c)` for a character is the index of its first appearance. */
  lemma FindFirstChar(s: string, c: char, e: nat)
    requires e < |s| && s[e] == c && forall i :: 0 <= i < e ==> s[i] != c
    ensures Find(s, [c]) == Some(e)
  {
    OccursAtChar(s, e, c);
    var f := Find(s, [c]);
    assert f.Some?;
    OccursAtChar(s, f.value, c);
    assert f.value <= e;
    assert f.value >= e;
  }

  /** `c in s` for a character. */
  lemma ContainsChar(s: string, c: char)
    ensures Contains(s, [c]) <==> exists i :: 0 <= i < |s| && s[i] == c
  {
    forall i | 0 <= i <= |s| {
      OccursAtChar(s, i, c);
    }
  }

  /** A pattern longer than the text does not occur in it. */
  lemma ShortAbsent(s: string, t: string)
    requires |s| < |t|
    ensures !Contains(s, t)
  {
  }

  /**
    An occurrence of `t` ends with `t`'s last character; if every such
    position of `s` is ruled out by the first character of `t` or by the
    one at offset `k`, then `t` does not occur.
  */
  lemma AbsentAnchored(s: string, t: string, k: nat)
    requires t != [] && k < |t|
    requires forall j :: |t| - 1 <= j < |s| && s[j] == t[|t| - 1] ==>
      s[j - |t| + 1] != t[0] || s[j - |t| + 1 + k] != t[k]
    ensures !Contains(s, t)
  {
    forall i | 0 <= i <= |s| ensures !OccursAt(s, i, t) {
      if i + |t| <= |s| {
        var w := s[i..i + |t|];
        assert w[0] == s[i] && w[k] == s[i + k] && w[|t| - 1] == s[i + |t| - 1];
      }
    }
  }

  /**
    A pattern absent from `p` does not occur in `p + name` when `name`
    lacks the pattern's last character: an occurrence would have to end
    inside `p`.
  */
  lemma AbsentBeforeName(p: string, name: string, t: string)
    requires t != [] && !Contains(p, t)
    requires forall i :: 0 <= i < |name| ==> name[i] != t[|t| - 1]
    ensures !Contains(p + name, t)
  {
    var s := p + name;
    forall i | 0 <= i <= |s| && i + |t| <= |s| ensures !OccursAt(s, i, t) {
      var w := s[i..i + |t|];
      if i + |t| <= |p| {
        assert w == p[i..i + |t|];
        assert !OccursAt(p, i, t);
      } else {
        assert w[|t| - 1] == name[i + |t| - 1 - |p|];
      }
    }
  }

  /** Hence replacing such a pattern leaves `p + name` alone. */
  lemma Untouched(p: string, name: string, t: string, replacement: string)
    requires t != [] && !Contains(p, t)
    requires forall i :: 0 <= i < |name| ==> name[i] != t[|t| - 1]
    ensures Replace(p + name, t, replacement) == p + name
  {
    AbsentBeforeName(p, name, t);
    ReplaceAbsent(p + name, t, replacement, -1);
  }

  /** A pattern at the front of such a name is the only one replaced. */
  lemma ReplacedAtFront(t: string, replacement: string, name: string)
    requires t != []
    requires forall i :: 0 <= i < |name| ==> name[i] != t[|t| - 1]
    ensures Replace(t + name, t, replacement) == replacement + name
  {
    AbsentBeforeName([], name, t);
    EmptyFront(name);
    ReplaceAtFront(t, replacement, name, -1);
  }

  /** An occurrence at the front is replaced, and nothing after it when the rest holds none. */
  lemma ReplaceAtFront(t: string, replacement: string, b: string, count: int)
    requires t != [] && count != 0 && !Contains(b, t)
    ensures ReplaceUpTo(t + b, t, replacement, count) == replacement + b
  {
    var s := t + b;
    assert OccursAt(s, 0, t) by { assert s[..|t|] == t; }
    assert s[|t|..] == b;
    ReplaceAbsent(b, t, replacement, count - 1);
  }

  /** The same after a fixed prefix in which no occurrence starts. */
  lemma ReplacedAfter(pre: string, t: string, replacement: string, name: string)
    requires t != [] && !Contains(pre + t[..|t| - 1], t)
    requires forall i :: 0 <= i < |name| ==> name[i] != t[|t| - 1]
    ensures Replace(pre + t + name, t, replacement) == pre + replacement + name
  {
    AbsentBeforeName([], name, t);
    EmptyFront(name);
    ReplaceOnce(pre, t, replacement, name, -1);
  }

  /**
    When `t` first occurs right after `a` (no occurrence starts inside `a`)
    and never in `b`, replacing rewrites exactly that occurrence.
  */
  lemma {:induction false} ReplaceOnce(a: string, t: string, replacement: string, b: string, count: int)
    requires t != [] && count != 0
    requires !Contains(a + t[..|t| - 1], t) && !Contains(b, t)
    ensures ReplaceUpTo(a + t + b, t, replacement, count) == a + replacement + b
    decreases |a|
  {
    if a == [] {
      ReplaceAtFront(t, replacement, b, count);
      EmptyFront(t);
      EmptyFront(replacement);
    } else {
      TailStillFree(a, t);
      ReplaceOnce(a[1..], t, replacement, b, count);
      ReplaceOnceStep(a, t, replacement, b, count);
    }
  }

  /** Dropping the first character of `a` keeps `a + t[..|t| - 1]` free of `t`. */
  lemma TailStillFree(a: string, t: string)
    requires a != [] && t != [] && !Contains(a + t[..|t| - 1], t)
    ensures !Contains(a[1..] + t[..|t| - 1], t)
  {
    var w := a + t[..|t| - 1];
    assert w[1..] == a[1..] + t[..|t| - 1];
    ContainsDrop(w, 1, t);
  }

  /** The step of `ReplaceOnce` past a first character of `a`. */
  lemma ReplaceOnceStep(a: string, t: string, replacement: string, b: string, count: int)
    requires a != [] && t != [] && count != 0
    requires !Contains(a + t[..|t| - 1], t)
    requires ReplaceUpTo(a[1..] + t + b, t, replacement, count) == a[1..] + replacement + b
    ensures ReplaceUpTo(a + t + b, t, replacement, count) == a + replacement + b
  {
    FrontNotAt(a, t, b);
    ConsTail(a, t, b);
    ConsTail(a, replacement, b);
  }

  /** No occurrence of `t` starts at the front of `a + t + b` when none starts inside `a`. */
  lemma FrontNotAt(a: string, t: string, b: string)
    requires a != [] && t != [] && !Contains(a + t[..|t| - 1], t)
    ensures !OccursAt(a + t + b, 0, t)
  {
    var w := a + t[..|t| - 1];
    assert (a + t + b)[..|t|] == w[..|t|];
    assert !OccursAt(w, 0, t);
  }

  /** `a + x + y` is its first character followed by the rest. */
  lemma ConsTail(a: string, x: string, y: string)
    requires a != []
    ensures a + x + y != [] && (a + x + y)[0] == a[0]
    ensures (a + x + y)[1..] == a[1..] + x + y
    ensures a + x + y == [a[0]] + (a[1..] + x + y)
  {
  }

  /**
    A pattern without the character `c` that occurs in neither part does
    not occur across a `c` that ends the first part or starts the second.
  */
  lemma AbsentAcross(a: string, b: string, t: string, c: char)
    requires !Contains(a, t) && !Contains(b, t)
    requires (a != [] && a[|a| - 1] == c) || (b != [] && b[0] == c)
    requires forall k :: 0 <= k < |t| ==> t[k] != c
    ensures !Contains(a + b, t)
  {
    var s := a + b;
    forall i | 0 <= i <= |s| ensures !OccursAt(s, i, t) {
      if i + |t| <= |a| {
        assert s[i..i + |t|] == a[i..i + |t|];
        assert !OccursAt(a, i, t);
      } else if i >= |a| {
        assert s[i..] == b[i - |a|..];
        if i + |t| <= |s| {
          assert s[i..i + |t|] == b[i - |a|..i - |a| + |t|];
        }
        assert !OccursAt(b, i - |a|, t);
      } else if i + |t| <= |s| {
        var n := if a != [] && a[|a| - 1] == c then |a| - 1 else |a|;
        assert s[n] == c;
        assert s[i..i + |t|][n - i] == s[n];
      }
    }
  }

  /** The same across a newline. */
  lemma AbsentAcrossNewline(a: string, b: string, t: string)
    requires !Contains(a, t) && !Contains(b, t)
    requires (a != [] && a[|a| - 1] == '\n') || (b != [] && b[0] == '\n')
    requires forall k :: 0 <= k < |t| ==> t[k] != '\n'
    ensures !Contains(a + b, t)
  {
    AbsentAcross(a, b, t, '\n');
  }

  /** A pattern holding a character the text lacks does not occur in it. */
  lemma AbsentWithoutChar(s: string, t: string, k: nat)
    requires k < |t| && forall i :: 0 <= i < |s| ==> s[i] != t[k]
    ensures !Contains(s, t)
  {
    forall i | 0 <= i <= |s| ensures !OccursAt(s, i, t) {
      if i + |t| <= |s| {
        assert s[i..i + |t|][k] == s[i + k];
      }
    }
  }

  /** Characters that cannot start the pattern, put in front of text without it, do not create it. */
  lemma AbsentAfterPad(pad: string, b: string, t: string)
    requires t != [] && !Contains(b, t)
    requires forall k :: 0 <= k < |pad| ==> pad[k] != t[0]
    ensures !Contains(pad + b, t)
  {
    var s := pad + b;
    forall i | 0 <= i <= |s| ensures !OccursAt(s, i, t) {
      if i < |pad| {
        assert s[i] == pad[i];
      } else if i + |t| <= |s| {
        assert s[i..i + |t|] == b[i - |pad|..i - |pad| + |t|];
        assert !OccursAt(b, i - |pad|, t);
      }
    }
  }
}
