/**
  The part of the copy detector's `main` that does not touch files: the
  student id taken from each CSV row, the `names` and `progs` dictionaries
  filled row by row, the sorted id list, the leader/member scan that
  groups identical canonical forms, the `known` set of collaborators and
  the e-mail list built from it. Both versions of the program share this
  code; they differ in the canonicaliser and the e-mail domain.
*/
module Clustering {
  import opened PyText

  /** The four fields `main` reads from a CSV row, already looked up by column header. */
  datatype Row = Row(email: string, firstName: string, surname: string, response: string)

  /** The canonical form that marks a missing answer; such students are never compared. */
  const Sentinel: string := "-"

  // ---------------------------------------------------------------------
  // Student ids and the two dictionaries
  // ---------------------------------------------------------------------

  /**
    `email.split('@')[0]`: the text before the first `@`, or the whole
    address when it has none, with its case kept.
  */
  function StudentId(email: string): (id: string)
    ensures |id| <= |email| && id == email[..|id|]
    ensures forall i :: 0 <= i < |id| ==> id[i] != '@'
    ensures |id| < |email| ==> email[|id|] == '@'
  {
    var parts := Split(email, "@");
    SplitPartsFree(email, "@");
    assert !Contains(parts[0], "@");
    assert forall i :: 0 <= i < |parts[0]| ==> parts[0][i] != '@' by {
      forall i | 0 <= i < |parts[0]| ensures parts[0][i] != '@' {
        assert parts[0][i..i + 1] == [parts[0][i]];
        assert !OccursAt(parts[0], i, "@");
      }
    }
    match Find(email, "@")
    case None => parts[0]
    case Some(k) =>
      assert email[k..k + 1] == "@";
      parts[0]
  }

  /** The name `main` records for a row. */
  function FullName(row: Row): string {
    row.firstName + " " + row.surname
  }

  function LastRow(rows: seq<Row>): Row
    requires rows != []
  {
    rows[|rows| - 1]
  }

  /** The `names` dictionary after the rows loop: the last row of each id wins. */
  function NamesOf(rows: seq<Row>): map<string, string>
    decreases |rows|
  {
    if rows == [] then map[]
    else NamesOf(rows[..|rows| - 1])[StudentId(LastRow(rows).email) := FullName(LastRow(rows))]
  }

  /** The `progs` dictionary after the rows loop: each id's last response, canonicalised. */
  function ProgsOf(rows: seq<Row>, clean: string -> string): map<string, string>
    decreases |rows|
  {
    if rows == [] then map[]
    else ProgsOf(rows[..|rows| - 1], clean)[StudentId(LastRow(rows).email) := clean(LastRow(rows).response)]
  }

  /** `list(progs)`: the ids in the order they first appear, as a dictionary keeps its keys. */
  function IdsInOrder(rows: seq<Row>): (ids: seq<string>)
    decreases |rows|
  {
    if rows == [] then []
    else
      var ids := IdsInOrder(rows[..|rows| - 1]);
      var id := StudentId(LastRow(rows).email);
      if id in ids then ids else ids + [id]
  }

  predicate Distinct(xs: seq<string>) {
    forall i, j :: 0 <= i < j < |xs| ==> xs[i] != xs[j]
  }

  /** The ids of the rows, without repeats. */
  function IdSet(rows: seq<Row>): set<string> {
    set k | 0 <= k < |rows| :: StudentId(rows[k].email)
  }

  lemma IdSetSnoc(rows: seq<Row>)
    requires rows != []
    ensures IdSet(rows) == IdSet(rows[..|rows| - 1]) + {StudentId(LastRow(rows).email)}
  {
    var init := rows[..|rows| - 1];
    var n := |rows| - 1;
    forall x | x in IdSet(rows) ensures x in IdSet(init) + {StudentId(rows[n].email)} {
      var k :| 0 <= k < |rows| && StudentId(rows[k].email) == x;
      if k < n {
        assert init[k] == rows[k];
      }
    }
    forall x | x in IdSet(init) ensures x in IdSet(rows) {
      var k :| 0 <= k < |init| && StudentId(init[k].email) == x;
      assert rows[k] == init[k];
    }
    assert StudentId(rows[n].email) in IdSet(rows);
  }

  /** `names` has one key per distinct id. */
  lemma {:induction false} NamesKeys(rows: seq<Row>)
    ensures NamesOf(rows).Keys == IdSet(rows)
    decreases |rows|
  {
    if rows != [] {
      NamesKeys(rows[..|rows| - 1]);
      IdSetSnoc(rows);
    }
  }

  /** `progs` has one key per distinct id. */
  lemma {:induction false} ProgsKeys(rows: seq<Row>, clean: string -> string)
    ensures ProgsOf(rows, clean).Keys == IdSet(rows)
    decreases |rows|
  {
    if rows != [] {
      ProgsKeys(rows[..|rows| - 1], clean);
      IdSetSnoc(rows);
    }
  }

  /** `list(progs)` lists each id once. */
  lemma {:induction false} IdsInOrderKeys(rows: seq<Row>)
    ensures Distinct(IdsInOrder(rows))
    ensures forall x :: x in IdsInOrder(rows) <==> x in IdSet(rows)
    decreases |rows|
  {
    if rows != [] {
      IdsInOrderKeys(rows[..|rows| - 1]);
      IdSetSnoc(rows);
    }
  }

  /**
    A later row with the same id overwrites the earlier one: each id maps
    to the name and canonical form of its last row.
  */
  lemma {:induction false} LastRowWins(rows: seq<Row>, clean: string -> string, j: nat)
    requires j < |rows|
    requires forall l :: j < l < |rows| ==> StudentId(rows[l].email) != StudentId(rows[j].email)
    ensures StudentId(rows[j].email) in NamesOf(rows)
    ensures StudentId(rows[j].email) in ProgsOf(rows, clean)
    ensures NamesOf(rows)[StudentId(rows[j].email)] == FullName(rows[j])
    ensures ProgsOf(rows, clean)[StudentId(rows[j].email)] == clean(rows[j].response)
    decreases |rows|
  {
    if j < |rows| - 1 {
      var init := rows[..|rows| - 1];
      assert init[j] == rows[j];
      forall l | j < l < |init| ensures StudentId(init[l].email) != StudentId(init[j].email) {
        assert init[l] == rows[l];
      }
      LastRowWins(init, clean, j);
    }
  }

  /**
    The rows loop: for each row, `stud` is the id, `names[stud]` the full
    name and `progs[stud]` the canonical form of the response.
  */
  method Ingest(rows: seq<Row>, clean: string -> string)
    returns (names: map<string, string>, progs: map<string, string>, order: seq<string>)
    ensures names == NamesOf(rows)
    ensures progs == ProgsOf(rows, clean)
    ensures order == IdsInOrder(rows)
  {
    names := map[];
    progs := map[];
    order := [];
    for i := 0 to |rows|
      invariant names == NamesOf(rows[..i])
      invariant progs == ProgsOf(rows[..i], clean)
      invariant order == IdsInOrder(rows[..i])
    {
      assert rows[..i + 1][..i] == rows[..i];
      var row := rows[i];
      var stud := StudentId(row.email);
      names := names[stud := FullName(row)];
      var code := clean(row.response);
      if stud !in order {
        order := order + [stud];
      }
      progs := progs[stud := code];
    }
    assert rows[..|rows|] == rows;
  }

  /** Two canonicalisers that agree on every text give the same `progs`. */
  lemma {:induction false} ProgsOfAgree(rows: seq<Row>, c1: string -> string, c2: string -> string)
    requires forall s :: c1(s) == c2(s)
    ensures ProgsOf(rows, c1) == ProgsOf(rows, c2)
    decreases |rows|
  {
    if rows != [] {
      ProgsOfAgree(rows[..|rows| - 1], c1, c2);
    }
  }

  // ---------------------------------------------------------------------
  // Python's order on strings and sorting
  // ---------------------------------------------------------------------

  /** Python's `a < b` on `str`: code point by code point, a proper prefix first. */
  predicate Less(a: string, b: string)
    decreases |a|
  {
    if a == [] then b != []
    else if b == [] then false
    else a[0] < b[0] || (a[0] == b[0] && Less(a[1..], b[1..]))
  }

  lemma {:induction false} LessIrreflexive(a: string)
    ensures !Less(a, a)
    decreases |a|
  {
    if a != [] {
      LessIrreflexive(a[1..]);
    }
  }

  lemma {:induction false} LessTransitive(a: string, b: string, c: string)
    requires Less(a, b) && Less(b, c)
    ensures Less(a, c)
    decreases |a|
  {
    if a != [] && a[0] == b[0] && b[0] == c[0] {
      LessTransitive(a[1..], b[1..], c[1..]);
    }
  }

  lemma {:induction false} LessTotal(a: string, b: string)
    ensures a == b || Less(a, b) || Less(b, a)
    decreases |a|
  {
    if a != [] && b != [] && a[0] == b[0] {
      LessTotal(a[1..], b[1..]);
      assert a == [a[0]] + a[1..] && b == [b[0]] + b[1..];
    }
  }

  lemma {:induction false} LessAsymmetric(a: string, b: string)
    ensures !(Less(a, b) && Less(b, a))
    decreases |a|
  {
    if a != [] && b != [] && a[0] == b[0] {
      LessAsymmetric(a[1..], b[1..]);
    }
  }

  lemma HeadIn(xs: seq<string>)
    ensures xs != [] ==> xs[0] in xs
  {
  }

  predicate StrictlySorted(xs: seq<string>) {
    forall i, j :: 0 <= i < j < |xs| ==> Less(xs[i], xs[j])
  }

  lemma SortedIsDistinct(xs: seq<string>)
    requires StrictlySorted(xs)
    ensures Distinct(xs)
  {
    forall i, j | 0 <= i < j < |xs| ensures xs[i] != xs[j] {
      LessIrreflexive(xs[i]);
    }
  }

  /** Putting an id below every element in front of a sorted list keeps it sorted. */
  lemma SortedCons(h: string, t: seq<string>)
    requires StrictlySorted(t) && forall y :: y in t ==> Less(h, y)
    ensures StrictlySorted([h] + t)
  {
    var r := [h] + t;
    forall i, j | 0 <= i < j < |r| ensures Less(r[i], r[j]) {
      assert r[j] == t[j - 1];
      if i == 0 {
        assert t[j - 1] in t;
      } else {
        assert r[i] == t[i - 1];
      }
    }
  }

  /** An id below the head of a sorted list is below all of it. */
  lemma BelowHead(xs: seq<string>, x: string)
    requires StrictlySorted(xs) && xs != [] && Less(x, xs[0])
    ensures forall y :: y in xs ==> Less(x, y)
  {
    forall y | y in xs ensures Less(x, y) {
      var j :| 0 <= j < |xs| && xs[j] == y;
      if j > 0 {
        LessTransitive(x, xs[0], xs[j]);
      }
    }
  }

  /** The head of a sorted list is below an inserted id it does not exceed. */
  lemma HeadBelowRest(xs: seq<string>, x: string, rest: seq<string>)
    requires StrictlySorted(xs) && xs != [] && x !in xs && !Less(x, xs[0])
    requires multiset(rest) == multiset(xs[1..]) + multiset{x}
    ensures forall y :: y in rest ==> Less(xs[0], y)
  {
    LessTotal(x, xs[0]);
    assert xs[0] in xs;
    forall y | y in rest ensures Less(xs[0], y) {
      assert y in multiset(rest);
      if y != x {
        var j :| 0 <= j < |xs[1..]| && xs[1..][j] == y;
        assert xs[j + 1] == y;
      }
    }
  }

  /** Insertion of a new id into a sorted list. */
  function Insert(xs: seq<string>, x: string): (r: seq<string>)
    requires StrictlySorted(xs) && x !in xs
    ensures StrictlySorted(r)
    ensures multiset(r) == multiset(xs) + multiset{x}
    decreases |xs|
  {
    if xs == [] then [x]
    else if Less(x, xs[0]) then
      BelowHead(xs, x);
      SortedCons(x, xs);
      [x] + xs
    else
      assert xs == [xs[0]] + xs[1..];
      var rest := Insert(xs[1..], x);
      HeadBelowRest(xs, x, rest);
      SortedCons(xs[0], rest);
      [xs[0]] + rest
  }

  /** `list.sort()` on distinct ids: ascending, with the same ids. */
  function SortIds(ids: seq<string>): (r: seq<string>)
    requires Distinct(ids)
    ensures StrictlySorted(r)
    ensures multiset(r) == multiset(ids)
    decreases |ids|
  {
    if ids == [] then []
    else
      var init := ids[..|ids| - 1];
      var sorted := SortIds(init);
      assert ids == init + [ids[|ids| - 1]];
      assert ids[|ids| - 1] !in init;
      assert ids[|ids| - 1] !in multiset(sorted);
      Insert(sorted, ids[|ids| - 1])
  }

  /** A strictly ascending list is determined by its elements: sorting ignores dictionary order. */
  lemma {:induction false} SortedUnique(a: seq<string>, b: seq<string>)
    requires StrictlySorted(a) && StrictlySorted(b)
    requires forall x :: x in a <==> x in b
    ensures a == b
    decreases |a|
  {
    HeadIn(a);
    HeadIn(b);
    if a != [] && b != [] {
      assert a[0] == b[0] by {
        forall j | 0 < j < |b| ensures Less(b[0], b[j]) { }
        forall i | 0 < i < |a| ensures Less(a[0], a[i]) { }
        LessAsymmetric(a[0], b[0]);
      }
      forall x ensures x in a[1..] <==> x in b[1..] {
        SortedIsDistinct(a);
        SortedIsDistinct(b);
        assert x in a <==> x == a[0] || x in a[1..];
        assert x in b <==> x == b[0] || x in b[1..];
      }
      SortedUnique(a[1..], b[1..]);
      assert a == [a[0]] + a[1..] && b == [b[0]] + b[1..];
    }
  }

  // ---------------------------------------------------------------------
  // The scan: specification
  // ---------------------------------------------------------------------

  /** A printed group: the leader, then the copiers found after it. */
  datatype Cluster = Cluster(leader: string, members: seq<string>)

  /** Everyone in a cluster. */
  function Students(c: Cluster): set<string> {
    {c.leader} + set x | x in c.members
  }

  /** `progs[stud]` for each id of the sorted list, position by position. */
  function FormsOf(studs: seq<string>, progs: map<string, string>): (forms: seq<string>)
    requires forall k :: 0 <= k < |studs| ==> studs[k] in progs
    ensures |forms| == |studs|
    ensures forall k :: 0 <= k < |studs| ==> forms[k] == progs[studs[k]]
  {
    if studs == [] then [] else [progs[studs[0]]] + FormsOf(studs[1..], progs)
  }

  /** The ids at positions `lo` to `hi - 1` whose form is `v`, in list order. */
  function Holders(studs: seq<string>, forms: seq<string>, v: string, lo: nat, hi: nat): (r: seq<string>)
    requires |studs| == |forms| && lo <= hi <= |studs|
    ensures |r| <= hi - lo
    decreases hi
  {
    if hi == lo then []
    else Holders(studs, forms, v, lo, hi - 1) + (if forms[hi - 1] == v then [studs[hi - 1]] else [])
  }

  /** No earlier position holds the same form as position `i`. */
  predicate IsFirstHolder(forms: seq<string>, i: nat)
    requires i < |forms|
  {
    forall l :: 0 <= l < i ==> forms[l] != forms[i]
  }

  /** The later holders of the form at position `i`. */
  function LaterHolders(studs: seq<string>, forms: seq<string>, i: nat): seq<string>
    requires |studs| == |forms| && i < |studs|
  {
    Holders(studs, forms, forms[i], i + 1, |studs|)
  }

  /** The copiers the inner loop finds for leader position `i`: later holders, for a first holder only. */
  function ClusterMembers(studs: seq<string>, forms: seq<string>, i: nat): seq<string>
    requires |studs| == |forms| && i < |studs|
  {
    if IsFirstHolder(forms, i) then LaterHolders(studs, forms, i) else []
  }

  /** Position `i` leads the cluster `c`. */
  predicate LeadsAt(studs: seq<string>, forms: seq<string>, i: nat, c: Cluster)
    requires |studs| == |forms| && i < |studs|
  {
    forms[i] != Sentinel && IsFirstHolder(forms, i) && LaterHolders(studs, forms, i) != []
    && c == Cluster(studs[i], LaterHolders(studs, forms, i))
  }

  /** The cluster printed in outer iteration `i`, if any. */
  function ClusterAt(studs: seq<string>, forms: seq<string>, i: nat): seq<Cluster>
    requires |studs| == |forms| && i < |studs|
  {
    var members := LaterHolders(studs, forms, i);
    if forms[i] != Sentinel && IsFirstHolder(forms, i) && members != [] then [Cluster(studs[i], members)] else []
  }

  /** The clusters printed by the first `i` outer iterations. */
  function GroupsUpTo(studs: seq<string>, forms: seq<string>, i: nat): seq<Cluster>
    requires |studs| == |forms| && i <= |studs|
  {
    if i == 0 then [] else GroupsUpTo(studs, forms, i - 1) + ClusterAt(studs, forms, i - 1)
  }

  /** Some position before `i` holds the form of position `k`. */
  predicate SharedBefore(forms: seq<string>, k: nat, i: nat)
    requires k < |forms|
  {
    exists l :: 0 <= l < i && l < |forms| && forms[l] == forms[k]
  }

  /** Some other position holds the form of position `k`. */
  predicate HasTwin(forms: seq<string>, k: nat)
    requires k < |forms|
  {
    exists m :: 0 <= m < |forms| && m != k && forms[m] == forms[k]
  }

  /**
    `known` after the first `i` outer iterations: the ids whose form is not
    the sentinel, is shared with someone else, and was first seen before `i`.
  */
  function ClaimedUpTo(studs: seq<string>, forms: seq<string>, i: nat): set<string>
    requires |studs| == |forms|
  {
    set k | 0 <= k < |studs| && forms[k] != Sentinel && SharedBefore(forms, k, i) && HasTwin(forms, k) :: studs[k]
  }

  /** All printed clusters. */
  function Grouping(studs: seq<string>, forms: seq<string>): seq<Cluster>
    requires |studs| == |forms|
  {
    GroupsUpTo(studs, forms, |studs|)
  }

  /** `known` after the scan. */
  function Collaborators(studs: seq<string>, forms: seq<string>): set<string>
    requires |studs| == |forms|
  {
    ClaimedUpTo(studs, forms, |studs|)
  }

  // ---------------------------------------------------------------------
  // Facts about holders
  // ---------------------------------------------------------------------

  /** Which ids are holders. */
  lemma {:induction false} HoldersElems(studs: seq<string>, forms: seq<string>, v: string, lo: nat, hi: nat)
    requires |studs| == |forms| && lo <= hi <= |studs|
    ensures forall x :: x in Holders(studs, forms, v, lo, hi) <==>
      exists t :: lo <= t < hi && forms[t] == v && studs[t] == x
    decreases hi
  {
    if hi > lo {
      HoldersElems(studs, forms, v, lo, hi - 1);
    }
  }

  /** Holders over adjacent ranges concatenate. */
  lemma {:induction false} HoldersSplit(studs: seq<string>, forms: seq<string>, v: string, lo: nat, mid: nat, hi: nat)
    requires |studs| == |forms| && lo <= mid <= hi <= |studs|
    ensures Holders(studs, forms, v, lo, hi) == Holders(studs, forms, v, lo, mid) + Holders(studs, forms, v, mid, hi)
    decreases hi
  {
    if hi > mid {
      HoldersSplit(studs, forms, v, lo, mid, hi - 1);
    }
  }

  /** A range has no holders exactly when nobody in it holds `v`. */
  lemma {:induction false} HoldersNone(studs: seq<string>, forms: seq<string>, v: string, lo: nat, hi: nat)
    requires |studs| == |forms| && lo <= hi <= |studs|
    ensures Holders(studs, forms, v, lo, hi) == [] <==> forall t :: lo <= t < hi ==> forms[t] != v
    decreases hi
  {
    if hi > lo {
      HoldersNone(studs, forms, v, lo, hi - 1);
    }
  }

  /** The holders of a sorted id list are sorted, and come after any id before `lo`. */
  lemma {:induction false} HoldersSorted(studs: seq<string>, forms: seq<string>, v: string, lo: nat, hi: nat)
    requires |studs| == |forms| && lo <= hi <= |studs| && StrictlySorted(studs)
    ensures StrictlySorted(Holders(studs, forms, v, lo, hi))
    ensures forall p, x :: 0 <= p < lo && x in Holders(studs, forms, v, lo, hi) ==> Less(studs[p], x)
    decreases hi
  {
    HoldersElems(studs, forms, v, lo, hi);
    if hi > lo {
      var h := Holders(studs, forms, v, lo, hi - 1);
      HoldersSorted(studs, forms, v, lo, hi - 1);
      HoldersElems(studs, forms, v, lo, hi - 1);
      if forms[hi - 1] == v {
        var r := h + [studs[hi - 1]];
        forall i, j | 0 <= i < j < |r| ensures Less(r[i], r[j]) {
          if j == |h| {
            assert r[i] == h[i] && h[i] in h;
            var t :| lo <= t < hi - 1 && forms[t] == v && studs[t] == h[i];
            assert Less(studs[t], studs[hi - 1]);
          } else {
            assert r[i] == h[i] && r[j] == h[j];
          }
        }
      }
    }
  }

  /** The holders of a list without repeats have no repeats. */
  lemma {:induction false} HoldersDistinct(studs: seq<string>, forms: seq<string>, v: string, lo: nat, hi: nat)
    requires |studs| == |forms| && lo <= hi <= |studs| && Distinct(studs)
    ensures Distinct(Holders(studs, forms, v, lo, hi))
    decreases hi
  {
    if hi > lo {
      var h := Holders(studs, forms, v, lo, hi - 1);
      HoldersDistinct(studs, forms, v, lo, hi - 1);
      HoldersElems(studs, forms, v, lo, hi - 1);
      if forms[hi - 1] == v {
        var r := h + [studs[hi - 1]];
        forall i, j | 0 <= i < j < |r| ensures r[i] != r[j] {
          if j == |h| {
            assert r[i] == h[i] && h[i] in h;
            var t :| lo <= t < hi - 1 && forms[t] == v && studs[t] == h[i];
            assert studs[t] != studs[hi - 1];
          } else {
            assert r[i] == h[i] && r[j] == h[j];
          }
        }
      }
    }
  }

  // ---------------------------------------------------------------------
  // How `known` grows
  // ---------------------------------------------------------------------

  /** An iteration whose form is the sentinel or was seen before adds nobody to `known`. */
  lemma ClaimedStepUnchanged(studs: seq<string>, forms: seq<string>, i: nat)
    requires |studs| == |forms| && i < |studs|
    requires forms[i] == Sentinel || !IsFirstHolder(forms, i)
    ensures ClaimedUpTo(studs, forms, i + 1) == ClaimedUpTo(studs, forms, i)
  {
    forall x | x in ClaimedUpTo(studs, forms, i + 1) ensures x in ClaimedUpTo(studs, forms, i) {
      var k :| 0 <= k < |studs| && forms[k] != Sentinel && SharedBefore(forms, k, i + 1) && HasTwin(forms, k) && studs[k] == x;
      var l :| 0 <= l < i + 1 && l < |forms| && forms[l] == forms[k];
      if l == i {
        var l' :| 0 <= l' < i && forms[l'] == forms[i];
        assert SharedBefore(forms, k, i);
      } else {
        assert SharedBefore(forms, k, i);
      }
    }
    forall x | x in ClaimedUpTo(studs, forms, i) ensures x in ClaimedUpTo(studs, forms, i + 1) {
      var k :| 0 <= k < |studs| && forms[k] != Sentinel && SharedBefore(forms, k, i) && HasTwin(forms, k) && studs[k] == x;
      var l :| 0 <= l < i && l < |forms| && forms[l] == forms[k];
      assert SharedBefore(forms, k, i + 1);
    }
  }

  /**
    The first holder of a non-sentinel form adds itself and all later
    holders to `known`, provided there is at least one later holder.
  */
  lemma ClaimedStepFirst(studs: seq<string>, forms: seq<string>, i: nat)
    requires |studs| == |forms| && i < |studs|
    requires forms[i] != Sentinel && IsFirstHolder(forms, i)
    ensures ClaimedUpTo(studs, forms, i + 1) == ClaimedUpTo(studs, forms, i) +
      (if LaterHolders(studs, forms, i) == [] then {} else Students(Cluster(studs[i], LaterHolders(studs, forms, i))))
  {
    ClaimedStepFirstNew(studs, forms, i);
    ClaimedStepFirstOld(studs, forms, i);
  }

  /** The first direction of `ClaimedStepFirst`: iteration `i` claims nobody outside its cluster. */
  lemma ClaimedStepFirstNew(studs: seq<string>, forms: seq<string>, i: nat)
    requires |studs| == |forms| && i < |studs|
    requires forms[i] != Sentinel && IsFirstHolder(forms, i)
    ensures ClaimedUpTo(studs, forms, i + 1) <= ClaimedUpTo(studs, forms, i) +
      (if LaterHolders(studs, forms, i) == [] then {} else Students(Cluster(studs[i], LaterHolders(studs, forms, i))))
  {
    var later := LaterHolders(studs, forms, i);
    var added := if later == [] then {} else Students(Cluster(studs[i], later));
    HoldersElems(studs, forms, forms[i], i + 1, |studs|);
    forall x | x in ClaimedUpTo(studs, forms, i + 1) ensures x in ClaimedUpTo(studs, forms, i) + added {
      var k :| 0 <= k < |studs| && forms[k] != Sentinel && SharedBefore(forms, k, i + 1) && HasTwin(forms, k) && studs[k] == x;
      var l :| 0 <= l < i + 1 && l < |forms| && forms[l] == forms[k];
      if l < i {
        assert SharedBefore(forms, k, i);
      } else {
        var m :| 0 <= m < |forms| && m != k && forms[m] == forms[k];
        assert k >= i && m >= i;
        if k == i {
          assert studs[m] in later;
        } else {
          assert studs[k] in later;
        }
      }
    }
  }

  /** The second direction of `ClaimedStepFirst`: iteration `i` keeps `known` and claims its whole cluster. */
  lemma ClaimedStepFirstOld(studs: seq<string>, forms: seq<string>, i: nat)
    requires |studs| == |forms| && i < |studs|
    requires forms[i] != Sentinel && IsFirstHolder(forms, i)
    ensures ClaimedUpTo(studs, forms, i) +
      (if LaterHolders(studs, forms, i) == [] then {} else Students(Cluster(studs[i], LaterHolders(studs, forms, i))))
      <= ClaimedUpTo(studs, forms, i + 1)
  {
    var later := LaterHolders(studs, forms, i);
    var added := if later == [] then {} else Students(Cluster(studs[i], later));
    HoldersElems(studs, forms, forms[i], i + 1, |studs|);
    forall x | x in ClaimedUpTo(studs, forms, i) + added ensures x in ClaimedUpTo(studs, forms, i + 1) {
      if x in ClaimedUpTo(studs, forms, i) {
        var k :| 0 <= k < |studs| && forms[k] != Sentinel && SharedBefore(forms, k, i) && HasTwin(forms, k) && studs[k] == x;
        var l :| 0 <= l < i && l < |forms| && forms[l] == forms[k];
        assert SharedBefore(forms, k, i + 1);
      } else if x == studs[i] {
        assert later != [] && later[0] in later;
        var t :| i + 1 <= t < |studs| && forms[t] == forms[i] && studs[t] == later[0];
        assert SharedBefore(forms, i, i + 1);
        assert HasTwin(forms, i);
      } else {
        assert x in later;
        var t :| i + 1 <= t < |studs| && forms[t] == forms[i] && studs[t] == x;
        assert SharedBefore(forms, t, i + 1);
        assert HasTwin(forms, t);
      }
    }
  }

  lemma StudentsSnoc(leader: string, members: seq<string>, x: string)
    ensures Students(Cluster(leader, members + [x])) == Students(Cluster(leader, members)) + {x}
  {
    assert forall y :: y in members + [x] <==> y in members || y == x;
  }

  /** Taking one more copier adds it and the leader to `known`. */
  lemma KnownGrows(known0: set<string>, known: set<string>, leader: string, copiers: seq<string>, x: string)
    requires known == known0 + (if copiers == [] then {} else Students(Cluster(leader, copiers)))
    ensures known + {x} + {leader} == known0 + Students(Cluster(leader, copiers + [x]))
  {
    StudentsSnoc(leader, copiers, x);
    if copiers == [] {
      assert Students(Cluster(leader, copiers)) == {leader};
    }
  }

  /** A later holder of a first-seen form is not yet in `known`. */
  lemma FirstHolderUnclaimed(studs: seq<string>, forms: seq<string>, i: nat, j: nat)
    requires |studs| == |forms| && Distinct(studs) && i < j < |studs|
    requires IsFirstHolder(forms, i) && forms[j] == forms[i]
    ensures studs[j] !in ClaimedUpTo(studs, forms, i)
  {
    assert forall k :: 0 <= k < |studs| && studs[k] == studs[j] ==> k == j;
  }

  /** Every holder of a form seen before is already in `known`. */
  lemma RepeatClaimed(studs: seq<string>, forms: seq<string>, i: nat, j: nat)
    requires |studs| == |forms| && i < j < |studs|
    requires forms[i] != Sentinel && !IsFirstHolder(forms, i) && forms[j] == forms[i]
    ensures studs[j] in ClaimedUpTo(studs, forms, i)
  {
    var l :| 0 <= l < i && forms[l] == forms[i];
    assert SharedBefore(forms, j, i);
    assert HasTwin(forms, j);
  }

  // ---------------------------------------------------------------------
  // The scan
  // ---------------------------------------------------------------------

  /**
    What the inner loop relies on about `known`: a later holder of the
    leader's form is already known exactly when that form was seen before.
  */
  predicate KnownFits(studs: seq<string>, forms: seq<string>, i: nat, known: set<string>)
    requires |studs| == |forms| && i < |studs|
  {
    forall j :: i < j < |studs| && forms[j] == forms[i] ==> (studs[j] in known <==> !IsFirstHolder(forms, i))
  }

  /** `known` after the first `i` outer iterations fits iteration `i`. */
  lemma ClaimedFits(studs: seq<string>, forms: seq<string>, i: nat)
    requires |studs| == |forms| && Distinct(studs) && i < |studs| && forms[i] != Sentinel
    ensures KnownFits(studs, forms, i, ClaimedUpTo(studs, forms, i))
  {
    forall j | i < j < |studs| && forms[j] == forms[i]
      ensures studs[j] in ClaimedUpTo(studs, forms, i) <==> !IsFirstHolder(forms, i)
    {
      if IsFirstHolder(forms, i) {
        FirstHolderUnclaimed(studs, forms, i, j);
      } else {
        RepeatClaimed(studs, forms, i, j);
      }
    }
  }

  /**
    The inner loop of the scan for leader position `i`: every later id
    with the leader's form that is not yet in `known` becomes a copier, and
    copier and leader join `known`. Only the first holder of a form finds
    copiers; for a form seen before, every holder is already known.
  */
  method CollectCopiers(studs: seq<string>, progs: map<string, string>, i: nat, known0: set<string>)
    returns (copiers: seq<string>, known: set<string>)
    requires Distinct(studs)
    requires forall k :: 0 <= k < |studs| ==> studs[k] in progs
    requires i < |studs|
    requires KnownFits(studs, FormsOf(studs, progs), i, known0)
    ensures copiers == ClusterMembers(studs, FormsOf(studs, progs), i)
    ensures known == known0 + (if copiers == [] then {} else Students(Cluster(studs[i], copiers)))
  {
    ghost var forms := FormsOf(studs, progs);
    ghost var first := IsFirstHolder(forms, i);
    var stud := studs[i];
    copiers := [];
    known := known0;
    for j := i + 1 to |studs|
      invariant first ==> copiers == Holders(studs, forms, forms[i], i + 1, j)
      invariant !first ==> copiers == []
      invariant known == known0 + (if copiers == [] then {} else Students(Cluster(stud, copiers)))
    {
      var other := studs[j];
      CollectStep(studs, forms, i, j, copiers, known0, known);
      if progs[stud] == progs[other] && other !in known {
        KnownGrows(known0, known, stud, copiers, other);
        copiers := copiers + [other];
        known := known + {other};
        known := known + {stud};
      }
    }
  }

  /**
    One step of the inner loop: the id at `j` is taken exactly when the
    leader is a first holder and `j` holds its form.
  */
  lemma CollectStep(studs: seq<string>, forms: seq<string>, i: nat, j: nat, copiers: seq<string>,
                    known0: set<string>, known: set<string>)
    requires |studs| == |forms| && Distinct(studs) && i < j < |studs|
    requires KnownFits(studs, forms, i, known0)
    requires IsFirstHolder(forms, i) ==> copiers == Holders(studs, forms, forms[i], i + 1, j)
    requires !IsFirstHolder(forms, i) ==> copiers == []
    requires known == known0 + (if copiers == [] then {} else Students(Cluster(studs[i], copiers)))
    ensures (forms[i] == forms[j] && studs[j] !in known) <==> (IsFirstHolder(forms, i) && forms[j] == forms[i])
    ensures Holders(studs, forms, forms[i], i + 1, j + 1)
      == Holders(studs, forms, forms[i], i + 1, j) + (if forms[j] == forms[i] then [studs[j]] else [])
  {
    if forms[j] == forms[i] && IsFirstHolder(forms, i) {
      HolderNotLater(studs, forms, forms[i], i + 1, j, j);
      NewCopierUnknown(studs[i], studs[j], copiers, known0, known);
    }
  }

  /** An id that is neither known, the leader nor a copier so far stays unknown. */
  lemma NewCopierUnknown(leader: string, x: string, copiers: seq<string>, known0: set<string>, known: set<string>)
    requires x !in known0 && x != leader && x !in copiers
    requires known == known0 + (if copiers == [] then {} else Students(Cluster(leader, copiers)))
    ensures x !in known
  {
  }

  /** With distinct ids, the id at a position at or past `hi` is not among the holders before `hi`. */
  lemma {:induction false} HolderNotLater(studs: seq<string>, forms: seq<string>, v: string, lo: nat, hi: nat, j: nat)
    requires |studs| == |forms| && Distinct(studs) && lo <= hi <= j < |studs|
    ensures studs[j] !in Holders(studs, forms, v, lo, hi)
    decreases hi
  {
    if hi > lo {
      HolderNotLater(studs, forms, v, lo, hi - 1, j);
      assert studs[hi - 1] != studs[j];
    }
  }

  /**
    The nested loops of `main` over the sorted ids: skip the sentinel, run
    the inner loop, and print the group when it has copiers.
  */
  method Scan(studs: seq<string>, progs: map<string, string>) returns (clusters: seq<Cluster>, known: set<string>)
    requires Distinct(studs)
    requires forall k :: 0 <= k < |studs| ==> studs[k] in progs
    ensures clusters == Grouping(studs, FormsOf(studs, progs))
    ensures known == Collaborators(studs, FormsOf(studs, progs))
  {
    ghost var forms := FormsOf(studs, progs);
    clusters := [];
    known := {};
    for i := 0 to |studs|
      invariant clusters == GroupsUpTo(studs, forms, i)
      invariant known == ClaimedUpTo(studs, forms, i)
    {
      var stud := studs[i];
      if progs[stud] == Sentinel {
        ClaimedStepUnchanged(studs, forms, i);
        continue;
      }
      var copiers;
      ghost var known0 := known;
      ClaimedFits(studs, forms, i);
      copiers, known := CollectCopiers(studs, progs, i, known);
      ScanStep(studs, forms, i, copiers, known0, known);
      if copiers != [] {
        clusters := clusters + [Cluster(stud, copiers)];
      }
    }
  }

  /** One outer iteration for a non-sentinel form keeps both loop invariants of the scan. */
  lemma ScanStep(studs: seq<string>, forms: seq<string>, i: nat, copiers: seq<string>,
                 known0: set<string>, known: set<string>)
    requires |studs| == |forms| && i < |studs| && forms[i] != Sentinel
    requires known0 == ClaimedUpTo(studs, forms, i)
    requires copiers == ClusterMembers(studs, forms, i)
    requires known == known0 + (if copiers == [] then {} else Students(Cluster(studs[i], copiers)))
    ensures known == ClaimedUpTo(studs, forms, i + 1)
    ensures GroupsUpTo(studs, forms, i + 1)
      == GroupsUpTo(studs, forms, i) + (if copiers == [] then [] else [Cluster(studs[i], copiers)])
  {
    if IsFirstHolder(forms, i) {
      ClaimedStepFirst(studs, forms, i);
    } else {
      ClaimedStepUnchanged(studs, forms, i);
    }
  }

  // ---------------------------------------------------------------------
  // What the scan prints
  // ---------------------------------------------------------------------

  lemma {:induction false} GroupsUpToMembers(studs: seq<string>, forms: seq<string>, i: nat)
    requires |studs| == |forms| && i <= |studs|
    ensures forall c :: c in GroupsUpTo(studs, forms, i) <==> exists t :: 0 <= t < i && LeadsAt(studs, forms, t, c)
    decreases i
  {
    if i > 0 {
      GroupsUpToMembers(studs, forms, i - 1);
      forall c | c in GroupsUpTo(studs, forms, i) ensures exists t :: 0 <= t < i && LeadsAt(studs, forms, t, c) {
        if c !in GroupsUpTo(studs, forms, i - 1) {
          assert LeadsAt(studs, forms, i - 1, c);
        }
      }
    }
  }

  lemma {:induction false} GroupsUpToDistinctLeaders(studs: seq<string>, forms: seq<string>, i: nat)
    requires |studs| == |forms| && i <= |studs| && Distinct(studs)
    ensures forall a, b :: 0 <= a < b < |GroupsUpTo(studs, forms, i)| ==>
      GroupsUpTo(studs, forms, i)[a].leader != GroupsUpTo(studs, forms, i)[b].leader
    decreases i
  {
    if i > 0 {
      var g := GroupsUpTo(studs, forms, i - 1);
      GroupsUpToDistinctLeaders(studs, forms, i - 1);
      GroupsUpToMembers(studs, forms, i - 1);
      var r := GroupsUpTo(studs, forms, i);
      forall a, b | 0 <= a < b < |r| ensures r[a].leader != r[b].leader {
        if b == |g| {
          assert r[a] == g[a] && g[a] in g;
          var t :| 0 <= t < i - 1 && LeadsAt(studs, forms, t, g[a]);
          assert r[b].leader == studs[i - 1];
        } else {
          assert r[a] == g[a] && r[b] == g[b];
        }
      }
    }
  }

  /** A leader and its copiers are exactly the holders of its form. */
  lemma LeadsAtClass(studs: seq<string>, forms: seq<string>, i: nat, c: Cluster)
    requires |studs| == |forms| && i < |studs| && LeadsAt(studs, forms, i, c)
    ensures [c.leader] + c.members == Holders(studs, forms, forms[i], 0, |studs|)
  {
    var v := forms[i];
    HoldersSplit(studs, forms, v, 0, i, |studs|);
    HoldersSplit(studs, forms, v, i, i + 1, |studs|);
    HoldersNone(studs, forms, v, 0, i);
    assert Holders(studs, forms, v, i, i + 1) == [studs[i]];
  }

  /** A non-empty range of holders has a first holder. */
  lemma {:induction false} FirstHolderExists(studs: seq<string>, forms: seq<string>, v: string, lo: nat, hi: nat)
    returns (i: nat)
    requires |studs| == |forms| && lo <= hi <= |studs|
    requires Holders(studs, forms, v, lo, hi) != []
    ensures lo <= i < hi && forms[i] == v && forall t :: lo <= t < i ==> forms[t] != v
    decreases hi
  {
    if Holders(studs, forms, v, lo, hi - 1) != [] {
      i := FirstHolderExists(studs, forms, v, lo, hi - 1);
    } else {
      HoldersNone(studs, forms, v, lo, hi - 1);
      i := hi - 1;
    }
  }

  /**
    Every printed cluster is a whole group of students sharing one
    non-sentinel form, at least two of them, leader first.
  */
  lemma ClusterIsWholeGroup(studs: seq<string>, forms: seq<string>, c: Cluster)
    requires |studs| == |forms| && c in Grouping(studs, forms)
    ensures exists v :: v != Sentinel && [c.leader] + c.members == Holders(studs, forms, v, 0, |studs|)
    ensures |c.members| >= 1
  {
    GroupsUpToMembers(studs, forms, |studs|);
    var i :| 0 <= i < |studs| && LeadsAt(studs, forms, i, c);
    LeadsAtClass(studs, forms, i, c);
  }

  /** Every group of at least two students sharing a non-sentinel form is printed as a cluster. */
  lemma EveryGroupClustered(studs: seq<string>, forms: seq<string>, v: string)
    requires |studs| == |forms|
    requires v != Sentinel && |Holders(studs, forms, v, 0, |studs|)| >= 2
    ensures exists c :: c in Grouping(studs, forms) && [c.leader] + c.members == Holders(studs, forms, v, 0, |studs|)
  {
    var i := GroupLeader(studs, forms, v);
    var c := Cluster(studs[i], LaterHolders(studs, forms, i));
    assert LeadsAt(studs, forms, i, c);
    GroupsUpToMembers(studs, forms, |studs|);
  }

  /** The first holder of a form shared by two or more ids leads the group of its holders. */
  lemma GroupLeader(studs: seq<string>, forms: seq<string>, v: string) returns (i: nat)
    requires |studs| == |forms|
    requires |Holders(studs, forms, v, 0, |studs|)| >= 2
    ensures i < |studs| && forms[i] == v && IsFirstHolder(forms, i)
    ensures Holders(studs, forms, v, 0, |studs|) == [studs[i]] + LaterHolders(studs, forms, i)
    ensures LaterHolders(studs, forms, i) != []
  {
    i := FirstHolderExists(studs, forms, v, 0, |studs|);
    HoldersSplit(studs, forms, v, 0, i, |studs|);
    HoldersSplit(studs, forms, v, i, i + 1, |studs|);
    HoldersNone(studs, forms, v, 0, i);
    assert Holders(studs, forms, v, i, i + 1) == [studs[i]];
  }

  /** Each student appears in at most one printed cluster. */
  lemma OneClusterPerStudent(studs: seq<string>, forms: seq<string>, a: nat, b: nat, x: string)
    requires |studs| == |forms| && Distinct(studs)
    requires a < |Grouping(studs, forms)| && b < |Grouping(studs, forms)|
    requires x in Students(Grouping(studs, forms)[a]) && x in Students(Grouping(studs, forms)[b])
    ensures a == b
  {
    var g := Grouping(studs, forms);
    var n := |studs|;
    GroupsUpToMembers(studs, forms, n);
    GroupsUpToDistinctLeaders(studs, forms, n);
    assert g[a] in g && g[b] in g;
    var ia :| 0 <= ia < n && LeadsAt(studs, forms, ia, g[a]);
    var ib :| 0 <= ib < n && LeadsAt(studs, forms, ib, g[b]);
    LeadsAtClass(studs, forms, ia, g[a]);
    LeadsAtClass(studs, forms, ib, g[b]);
    HoldersElems(studs, forms, forms[ia], 0, n);
    HoldersElems(studs, forms, forms[ib], 0, n);
    assert x in [g[a].leader] + g[a].members;
    assert x in [g[b].leader] + g[b].members;
    var ta :| 0 <= ta < n && forms[ta] == forms[ia] && studs[ta] == x;
    var tb :| 0 <= tb < n && forms[tb] == forms[ib] && studs[tb] == x;
    assert ta == tb;
    assert ia == ib;
  }

  /**
    A leader is never among its own copiers, copiers are not repeated, and
    no student claimed as a copier leads any cluster.
  */
  lemma ClaimedNeverLeads(studs: seq<string>, forms: seq<string>, a: nat, b: nat)
    requires |studs| == |forms| && Distinct(studs)
    requires a < |Grouping(studs, forms)| && b < |Grouping(studs, forms)|
    ensures Grouping(studs, forms)[b].leader !in Grouping(studs, forms)[a].members
    ensures Distinct(Grouping(studs, forms)[a].members)
  {
    var g := Grouping(studs, forms);
    var n := |studs|;
    GroupsUpToMembers(studs, forms, n);
    assert g[a] in g;
    var ia :| 0 <= ia < n && LeadsAt(studs, forms, ia, g[a]);
    HoldersDistinct(studs, forms, forms[ia], ia + 1, n);
    HoldersElems(studs, forms, forms[ia], ia + 1, n);
    assert g[a].leader !in g[a].members;
    if g[b].leader in g[a].members {
      OneClusterPerStudent(studs, forms, a, b, g[b].leader);
    }
  }

  /** On a sorted id list each cluster is ascending: its leader is the smallest id of its group. */
  lemma LeaderIsSmallest(studs: seq<string>, forms: seq<string>, c: Cluster)
    requires |studs| == |forms| && StrictlySorted(studs) && c in Grouping(studs, forms)
    ensures StrictlySorted([c.leader] + c.members)
  {
    GroupsUpToMembers(studs, forms, |studs|);
    var i :| 0 <= i < |studs| && LeadsAt(studs, forms, i, c);
    HoldersSorted(studs, forms, forms[i], i + 1, |studs|);
    var r := [c.leader] + c.members;
    forall p, q | 0 <= p < q < |r| ensures Less(r[p], r[q]) {
      if p == 0 {
        assert r[q] == c.members[q - 1] && r[q] in c.members;
      } else {
        assert r[p] == c.members[p - 1] && r[q] == c.members[q - 1];
      }
    }
  }

  /** Nobody whose form is the sentinel is ever in a cluster. */
  lemma SentinelNeverClustered(studs: seq<string>, forms: seq<string>, c: Cluster, t: nat)
    requires |studs| == |forms| && Distinct(studs) && c in Grouping(studs, forms)
    requires t < |studs| && studs[t] in Students(c)
    ensures forms[t] != Sentinel
  {
    GroupsUpToMembers(studs, forms, |studs|);
    var i :| 0 <= i < |studs| && LeadsAt(studs, forms, i, c);
    LeadsAtClass(studs, forms, i, c);
    HoldersElems(studs, forms, forms[i], 0, |studs|);
    assert studs[t] in [c.leader] + c.members;
  }

  /** After the scan, `known` is exactly the set of students in printed clusters. */
  lemma KnownIsClustered(studs: seq<string>, forms: seq<string>)
    requires |studs| == |forms| && Distinct(studs)
    ensures forall x :: x in Collaborators(studs, forms) <==> exists c :: c in Grouping(studs, forms) && x in Students(c)
  {
    var n := |studs|;
    var g := Grouping(studs, forms);
    GroupsUpToMembers(studs, forms, n);
    forall x | x in Collaborators(studs, forms) ensures exists c :: c in g && x in Students(c) {
      var k :| 0 <= k < n && forms[k] != Sentinel && SharedBefore(forms, k, n) && HasTwin(forms, k) && studs[k] == x;
      var m :| 0 <= m < n && m != k && forms[m] == forms[k];
      var h := Holders(studs, forms, forms[k], 0, n);
      HoldersElems(studs, forms, forms[k], 0, n);
      HoldersDistinct(studs, forms, forms[k], 0, n);
      assert studs[k] in h && studs[m] in h && studs[k] != studs[m];
      TwoElements(h, studs[k], studs[m]);
      EveryGroupClustered(studs, forms, forms[k]);
      var c :| c in g && [c.leader] + c.members == h;
      assert x in [c.leader] + c.members;
    }
    forall x, c | c in g && x in Students(c) ensures x in Collaborators(studs, forms) {
      var i :| 0 <= i < n && LeadsAt(studs, forms, i, c);
      LeadsAtClass(studs, forms, i, c);
      HoldersElems(studs, forms, forms[i], 0, n);
      HoldersElems(studs, forms, forms[i], i + 1, n);
      assert x in [c.leader] + c.members;
      var t :| 0 <= t < n && forms[t] == forms[i] && studs[t] == x;
      assert SharedBefore(forms, t, n);
      if t == i {
        assert c.members[0] in c.members;
        var u :| i + 1 <= u < n && forms[u] == forms[i] && studs[u] == c.members[0];
        assert HasTwin(forms, t);
      } else {
        assert HasTwin(forms, t);
      }
    }
  }

  // ---------------------------------------------------------------------
  // The sorted ids, the collaborator list and the e-mail list
  // ---------------------------------------------------------------------

  /** `studs` after `studs.sort()`: every id once, ascending, whatever the row order. */
  function SortedIds(rows: seq<Row>): (studs: seq<string>)
    ensures StrictlySorted(studs)
    ensures forall x :: x in studs <==> x in IdSet(rows)
  {
    IdsInOrderKeys(rows);
    var r := SortIds(IdsInOrder(rows));
    assert forall x :: x in r <==> x in multiset(r);
    r
  }

  /** Every sorted id has an entry in `progs`. */
  lemma SortedIdsHaveForms(rows: seq<Row>, clean: string -> string)
    ensures forall k :: 0 <= k < |SortedIds(rows)| ==> SortedIds(rows)[k] in ProgsOf(rows, clean)
  {
    ProgsKeys(rows, clean);
  }

  /** The elements of `xs` that are in `s`, in list order. */
  function Keep(xs: seq<string>, s: set<string>): (r: seq<string>)
    ensures forall x :: x in r <==> x in xs && x in s
    ensures StrictlySorted(xs) ==> StrictlySorted(r)
    decreases |xs|
  {
    if xs == [] then []
    else
      var rest := Keep(xs[1..], s);
      assert forall x :: x in xs <==> x == xs[0] || x in xs[1..];
      if xs[0] !in s then rest
      else
        assert StrictlySorted(xs) ==> StrictlySorted([xs[0]] + rest) by {
          if StrictlySorted(xs) {
            forall y | y in rest ensures Less(xs[0], y) {
              var j :| 0 <= j < |xs[1..]| && xs[1..][j] == y;
              assert xs[j + 1] == y;
            }
            var r := [xs[0]] + rest;
            forall i, j | 0 <= i < j < |r| ensures Less(r[i], r[j]) {
              assert r[j] == rest[j - 1] && rest[j - 1] in rest;
              if i > 0 {
                assert r[i] == rest[i - 1];
              }
            }
          }
        }
        [xs[0]] + rest
  }

  /**
    `sorted(s)` for a set of ids: ascending, each element once. The
    ascending list of a set is unique (`SortedUnique`), so the order in
    which the set is walked does not matter.
  */
  method SortedList(s: set<string>) returns (r: seq<string>)
    ensures StrictlySorted(r)
    ensures forall x :: x in r <==> x in s
  {
    r := [];
    var rest := s;
    while rest != {}
      invariant rest <= s
      invariant StrictlySorted(r)
      invariant forall x :: x in r <==> x in s && x !in rest
      decreases |rest|
    {
      var x :| x in rest;
      r := Insert(r, x);
      assert forall y :: y in r <==> y in multiset(r);
      rest := rest - {x};
    }
  }

  /** The address list for some ids: each id followed by the domain. */
  function WithDomain(ids: seq<string>, domain: string): seq<string> {
    seq(|ids|, k requires 0 <= k < |ids| => ids[k] + domain)
  }

  /** The loop that appends `stud + domain` for each listed collaborator. */
  method EmailList(ids: seq<string>, domain: string) returns (emails: seq<string>)
    ensures |emails| == |ids|
    ensures forall k :: 0 <= k < |ids| ==> emails[k] == ids[k] + domain
  {
    emails := [];
    for k := 0 to |ids|
      invariant |emails| == k
      invariant forall m :: 0 <= m < k ==> emails[m] == ids[m] + domain
    {
      emails := emails + [ids[k] + domain];
    }
  }

  /** An address built from an id gives the id back, the way ids are taken from addresses. */
  lemma IdOfAddress(id: string, domain: string)
    requires forall i :: 0 <= i < |id| ==> id[i] != '@'
    requires domain != [] && domain[0] == '@'
    ensures StudentId(id + domain) == id
  {
    var e := id + domain;
    FindFirstChar(e, '@', |id|);
    assert e[..|id|] == id;
  }

  /**
    The printed address list splits at its commas back into the addresses,
    as long as neither the ids nor the domain hold a comma.
  */
  lemma EmailListSplits(ids: seq<string>, domain: string)
    requires ids != []
    requires forall k, i :: 0 <= k < |ids| && 0 <= i < |ids[k]| ==> ids[k][i] != ','
    requires forall i :: 0 <= i < |domain| ==> domain[i] != ','
    ensures Split(Join(WithDomain(ids, domain), ","), ",") == WithDomain(ids, domain)
  {
    var emails := WithDomain(ids, domain);
    forall k | 0 <= k < |emails| ensures !Contains(emails[k], ",") {
      var e := emails[k];
      assert e == ids[k] + domain;
      assert forall i :: 0 <= i < |e| ==> e[i] != ',' by {
        forall i | 0 <= i < |e| ensures e[i] != ',' {
          if i < |ids[k]| {
            assert e[i] == ids[k][i];
          } else {
            assert e[i] == domain[i - |ids[k]|];
          }
        }
      }
      ContainsChar(e, ',');
    }
    SplitJoin(emails, ",");
  }

  // ---------------------------------------------------------------------
  // The whole report
  // ---------------------------------------------------------------------

  /**
    What `main` prints, as data: the names, the clusters in the order
    printed, the collaborators in ascending order and the comma-joined
    e-mail list.
  */
  datatype Report = Report(names: map<string, string>, clusters: seq<Cluster>, collaborators: seq<string>, emailList: string)

  /** The canonical form of each sorted id. */
  function SortedForms(rows: seq<Row>, clean: string -> string): (forms: seq<string>)
    ensures |forms| == |SortedIds(rows)|
    ensures forall k :: 0 <= k < |forms| ==>
      SortedIds(rows)[k] in ProgsOf(rows, clean) && forms[k] == ProgsOf(rows, clean)[SortedIds(rows)[k]]
  {
    SortedIdsHaveForms(rows, clean);
    FormsOf(SortedIds(rows), ProgsOf(rows, clean))
  }

  /** The report the rows give, for a canonicaliser and an e-mail domain. */
  function ReportOf(rows: seq<Row>, clean: string -> string, domain: string): Report {
    var studs := SortedIds(rows);
    var forms := SortedForms(rows, clean);
    var listed := Keep(studs, Collaborators(studs, forms));
    Report(NamesOf(rows), Grouping(studs, forms), listed, Join(WithDomain(listed, domain), ","))
  }

  /** The parts of the report, named. */
  lemma ReportParts(rows: seq<Row>, clean: string -> string, domain: string)
    ensures ReportOf(rows, clean, domain).clusters == Grouping(SortedIds(rows), SortedForms(rows, clean))
    ensures ReportOf(rows, clean, domain).collaborators ==
      Keep(SortedIds(rows), Collaborators(SortedIds(rows), SortedForms(rows, clean)))
  {
  }

  /**
    The printed address list names exactly the listed collaborators: it is
    empty when there are none, and otherwise it splits at its commas into
    one address per collaborator, in order, each of which is the
    collaborator's id followed by the domain and gives that id back.
  */
  lemma EmailListNamesCollaborators(rows: seq<Row>, clean: string -> string, domain: string)
    requires domain != [] && domain[0] == '@'
    requires forall i :: 0 <= i < |domain| ==> domain[i] != ','
    requires forall k, i :: 0 <= k < |rows| && 0 <= i < |rows[k].email| ==> rows[k].email[i] != ','
    ensures ReportOf(rows, clean, domain).collaborators == [] ==> ReportOf(rows, clean, domain).emailList == ""
    ensures var rep := ReportOf(rows, clean, domain); var parts := Split(rep.emailList, ",");
      rep.collaborators != [] ==>
        |parts| == |rep.collaborators|
        && forall k :: 0 <= k < |parts| ==>
             parts[k] == rep.collaborators[k] + domain && StudentId(parts[k]) == rep.collaborators[k]
  {
    var rep := ReportOf(rows, clean, domain);
    var studs := SortedIds(rows);
    assert rep.collaborators == Keep(studs, Collaborators(studs, SortedForms(rows, clean)));
    assert rep.emailList == Join(WithDomain(rep.collaborators, domain), ",");
    AddressList(rows, rep.collaborators, domain);
  }

  /** The address list of ids drawn from the rows, split back at its commas. */
  lemma AddressList(rows: seq<Row>, listed: seq<string>, domain: string)
    requires domain != [] && domain[0] == '@'
    requires forall i :: 0 <= i < |domain| ==> domain[i] != ','
    requires forall k, i :: 0 <= k < |rows| && 0 <= i < |rows[k].email| ==> rows[k].email[i] != ','
    requires forall x :: x in listed ==> x in IdSet(rows)
    ensures listed == [] ==> Join(WithDomain(listed, domain), ",") == ""
    ensures var parts := Split(Join(WithDomain(listed, domain), ","), ",");
      listed != [] ==>
        |parts| == |listed|
        && forall k :: 0 <= k < |parts| ==> parts[k] == listed[k] + domain && StudentId(parts[k]) == listed[k]
  {
    IdsAreBare(rows, listed);
    if listed != [] {
      EmailListSplits(listed, domain);
      forall k | 0 <= k < |listed| ensures StudentId(listed[k] + domain) == listed[k] {
        IdOfAddress(listed[k], domain);
      }
    }
  }

  /** Ids taken from comma-free addresses hold neither `@` nor a comma. */
  lemma IdsAreBare(rows: seq<Row>, ids: seq<string>)
    requires forall k, i :: 0 <= k < |rows| && 0 <= i < |rows[k].email| ==> rows[k].email[i] != ','
    requires forall x :: x in ids ==> x in IdSet(rows)
    ensures forall m, i :: 0 <= m < |ids| && 0 <= i < |ids[m]| ==> ids[m][i] != ',' && ids[m][i] != '@'
  {
    forall m, i | 0 <= m < |ids| && 0 <= i < |ids[m]| ensures ids[m][i] != ',' && ids[m][i] != '@' {
      var x := ids[m];
      assert x in ids;
      var k :| 0 <= k < |rows| && StudentId(rows[k].email) == x;
      assert x[i] == rows[k].email[i];
    }
  }

  /** The rows loop, the sort, the scan and the collaborator loop, in order. */
  method Collate(rows: seq<Row>, clean: string -> string, domain: string) returns (report: Report)
    ensures report == ReportOf(rows, clean, domain)
  {
    var names, progs, order := Ingest(rows, clean);
    IdsInOrderKeys(rows);
    var studs := SortIds(order);
    assert studs == SortedIds(rows);
    SortedIdsHaveForms(rows, clean);
    SortedIsDistinct(studs);
    var clusters, known := Scan(studs, progs);
    ghost var forms := FormsOf(studs, progs);
    var listed := SortedList(known);
    SortedUnique(listed, Keep(studs, known));
    var emails := EmailList(listed, domain);
    assert emails == WithDomain(listed, domain);
    report := Report(names, clusters, listed, Join(emails, ","));
  }

  /** A list holding two different elements has at least two entries. */
  lemma TwoElements(h: seq<string>, a: string, b: string)
    requires a in h && b in h && a != b
    ensures |h| >= 2
  {
    var i :| 0 <= i < |h| && h[i] == a;
    var j :| 0 <= j < |h| && h[j] == b;
    assert i != j;
  }

  /** Positions with equal non-sentinel forms are in one printed cluster. */
  lemma EqualFormsGrouped(studs: seq<string>, forms: seq<string>, tx: nat, ty: nat)
    requires |studs| == |forms| && Distinct(studs)
    requires tx < |studs| && ty < |studs| && tx != ty
    requires forms[tx] == forms[ty] != Sentinel
    ensures exists c :: c in Grouping(studs, forms) && studs[tx] in Students(c) && studs[ty] in Students(c)
  {
    var v := forms[tx];
    var h := Holders(studs, forms, v, 0, |studs|);
    HoldersElems(studs, forms, v, 0, |studs|);
    assert studs[tx] in h && studs[ty] in h;
    TwoElements(h, studs[tx], studs[ty]);
    EveryGroupClustered(studs, forms, v);
    var c :| c in Grouping(studs, forms) && [c.leader] + c.members == h;
    assert studs[tx] in [c.leader] + c.members && studs[ty] in [c.leader] + c.members;
  }

  /** Two students whose canonical forms are equal, and not the sentinel, are printed in one cluster. */
  lemma EqualFormsClustered(rows: seq<Row>, clean: string -> string, domain: string, x: string, y: string)
    requires x in ProgsOf(rows, clean) && y in ProgsOf(rows, clean) && x != y
    requires ProgsOf(rows, clean)[x] == ProgsOf(rows, clean)[y] != Sentinel
    ensures exists c :: c in ReportOf(rows, clean, domain).clusters && x in Students(c) && y in Students(c)
  {
    var studs := SortedIds(rows);
    var forms := SortedForms(rows, clean);
    var tx := PositionOf(rows, clean, x);
    var ty := PositionOf(rows, clean, y);
    SortedIsDistinct(studs);
    EqualFormsGrouped(studs, forms, tx, ty);
    ReportParts(rows, clean, domain);
  }

  /** Where an id with an entry in `progs` sits in the sorted list, and its form there. */
  lemma PositionOf(rows: seq<Row>, clean: string -> string, x: string) returns (t: nat)
    requires x in ProgsOf(rows, clean)
    ensures t < |SortedIds(rows)| && SortedIds(rows)[t] == x
    ensures SortedForms(rows, clean)[t] == ProgsOf(rows, clean)[x]
  {
    ProgsKeys(rows, clean);
    var studs := SortedIds(rows);
    assert x in studs;
    t :| 0 <= t < |studs| && studs[t] == x;
  }

  /** Everyone in a printed cluster has the leader's canonical form, which is not the sentinel. */
  lemma ClusterSharesForm(rows: seq<Row>, clean: string -> string, domain: string, c: Cluster, x: string)
    requires c in ReportOf(rows, clean, domain).clusters && x in Students(c)
    ensures x in ProgsOf(rows, clean) && c.leader in ProgsOf(rows, clean)
    ensures ProgsOf(rows, clean)[x] == ProgsOf(rows, clean)[c.leader] != Sentinel
  {
    var studs := SortedIds(rows);
    var forms := SortedForms(rows, clean);
    ReportParts(rows, clean, domain);
    ClusterIsWholeGroup(studs, forms, c);
    var v :| v != Sentinel && [c.leader] + c.members == Holders(studs, forms, v, 0, |studs|);
    HoldersElems(studs, forms, v, 0, |studs|);
    assert x in [c.leader] + c.members && c.leader in [c.leader] + c.members;
    SortedIdsHaveForms(rows, clean);
  }

  /** On a sorted id list, the listed collaborators are, ascending, the students of the printed clusters. */
  lemma KeptCollaborators(studs: seq<string>, forms: seq<string>)
    requires |studs| == |forms| && StrictlySorted(studs)
    ensures StrictlySorted(Keep(studs, Collaborators(studs, forms)))
    ensures forall x :: x in Keep(studs, Collaborators(studs, forms)) <==>
      exists c :: c in Grouping(studs, forms) && x in Students(c)
  {
    SortedIsDistinct(studs);
    KnownIsClustered(studs, forms);
    forall x | x in Collaborators(studs, forms) ensures x in studs {
      var k :| 0 <= k < |studs| && forms[k] != Sentinel && SharedBefore(forms, k, |studs|) && HasTwin(forms, k) && studs[k] == x;
    }
  }

  /** The listed collaborators are, in ascending order, exactly the students of the printed clusters. */
  lemma CollaboratorsListed(rows: seq<Row>, clean: string -> string, domain: string)
    ensures StrictlySorted(ReportOf(rows, clean, domain).collaborators)
    ensures forall x :: x in ReportOf(rows, clean, domain).collaborators <==>
      exists c :: c in ReportOf(rows, clean, domain).clusters && x in Students(c)
  {
    ReportParts(rows, clean, domain);
    KeptCollaborators(SortedIds(rows), SortedForms(rows, clean));
  }
}
