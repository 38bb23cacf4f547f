/** Stage 5 of the merge, row by row: which alternates a system ends up with, whatever the order of the extensions. */
module MergeExtensions {
  import opened Wrappers
  import opened CStrings
  import opened Sorting
  import opened MergeModel
  import opened MergeProofs

  // ---------------------------------------------------------------- one list of alternates

  lemma {:induction false} AddNamesAppend(alternates: seq<string>, a: seq<string>, b: seq<string>, ids: set<string>)
    ensures AddNames(alternates, a + b, ids) == AddNames(AddNames(alternates, a, ids), b, ids)
    decreases |b|
  {
    if b == [] {
      assert a + b == a;
    } else {
      assert (a + b)[..|a + b| - 1] == a + b[..|b| - 1];
      AddNamesAppend(alternates, a, b[..|b| - 1], ids);
    }
  }

  predicate LowerCase(names: seq<string>) {
    forall n | n in names :: Fold(n) == n
  }

  lemma ContainsFoldedSplit(a: seq<string>, b: seq<string>, n: string)
    ensures ContainsFolded(a + b, n) <==> ContainsFolded(a, n) || ContainsFolded(b, n)
  {
    hide Fold;
    if ContainsFolded(a, n) {
      var i :| 0 <= i < |a| && Fold(a[i]) == Fold(n);
      assert (a + b)[i] == a[i];
    }
    if ContainsFolded(b, n) {
      var i :| 0 <= i < |b| && Fold(b[i]) == Fold(n);
      assert (a + b)[|a| + i] == b[i];
    }
  }

  /**
   * What may be listed after the old alternates: each wanted name of an existing core once, unless it is there already.
   */
  ghost predicate NamesAdded(alternates: seq<string>, names: seq<string>, ids: set<string>, added: seq<string>) {
    && NoRepeats(added)
    && forall n :: n in added <==> n in names && Fold(n) in ids && !ContainsFolded(alternates, n)
  }

  lemma ContainsFoldedLower(added: seq<string>, n: string)
    requires LowerCase(added) && Fold(n) == n
    ensures ContainsFolded(added, n) <==> n in added
  {
    if n in added { var i :| 0 <= i < |added| && added[i] == n; }
  }

  /** The old alternates stay in front; behind them stands a listing of `NamesAdded`. */
  lemma {:induction false} AddNamesShape(alternates: seq<string>, names: seq<string>, ids: set<string>)
    requires LowerCase(names)
    ensures var r := AddNames(alternates, names, ids);
      && alternates <= r && NamesAdded(alternates, names, ids, r[|alternates|..])
    decreases |names|
  {
    hide Fold, ContainsFolded;
    if names != [] {
      var init, name := names[..|names| - 1], names[|names| - 1];
      AddNamesShape(alternates, init, ids);
      var before := AddNames(alternates, init, ids);
      var added := before[|alternates|..];
      assert before == alternates + added;
      ContainsFoldedSplit(alternates, added, name);
      ContainsFoldedLower(added, name);
      assert forall n :: n in names <==> n in init || n == name;
      assert (before + [name])[|alternates|..] == added + [name];
    }
  }

  /** Another order of the same names: the same prefix, then the same names in some order. */
  lemma AddNamesPermuted(alternates: seq<string>, a: seq<string>, b: seq<string>, ids: set<string>)
    requires LowerCase(a) && Permuted(a, b)
    ensures var r, s := AddNames(alternates, a, ids), AddNames(alternates, b, ids);
      && alternates <= r && alternates <= s && Permuted(r[|alternates|..], s[|alternates|..])
  {
    hide Fold, ContainsFolded, AddNames;
    PermutedMembers(a, b);
    AddNamesShape(alternates, a, ids);
    AddNamesShape(alternates, b, ids);
    SameSetPermuted(AddNames(alternates, a, ids)[|alternates|..], AddNames(alternates, b, ids)[|alternates|..]);
  }

  // ---------------------------------------------------------------- every extension, seen from one row

  ghost function Wanted(id: string): Sourced -> seq<string> {
    (s: Sourced) => if Fold(s.extension.systemId) == Fold(id) then s.extension.addCores else []
  }

  /** Every name the extensions want added to system `id`. */
  ghost function NamesFor(es: seq<Sourced>, id: string): seq<string> {
    FlatMap(Wanted(id), es)
  }

  ghost predicate Touched(es: seq<Sourced>, id: string) {
    exists s :: s in es && Fold(s.extension.systemId) == Fold(id)
  }

  /** A row after all extensions. */
  ghost function RowAfter(row: Row, es: seq<Sourced>, ids: set<string>): Row
    requires row.entry.System?
  {
    if !Touched(es, row.entry.id) then row
    else row.(entry := row.entry.(alternates :=
      Some(AddNames(Listed(row.entry.alternates), NamesFor(es, row.entry.id), ids))))
  }

  lemma TouchedNext(es: seq<Sourced>, e: Sourced, id: string)
    ensures Touched(es + [e], id) <==> Touched(es, id) || Fold(e.extension.systemId) == Fold(id)
    ensures NamesFor(es + [e], id) == NamesFor(es, id) + Wanted(id)(e)
    ensures !Touched(es, id) ==> NamesFor(es, id) == []
  {
    hide Fold;
    assert (es + [e])[..|es|] == es;
    if !Touched(es, id) { Untouched(es, id); }
  }

  lemma {:induction false} Untouched(es: seq<Sourced>, id: string)
    requires !Touched(es, id)
    ensures NamesFor(es, id) == []
    decreases |es|
  {
    hide Fold;
    if es != [] { Untouched(es[..|es| - 1], id); }
  }

  lemma FirstIsIt(rows: seq<Row>, id: string, i: nat)
    requires DistinctRows(rows) && i < |rows|
    ensures FirstWithId(rows, id) == Some(i) <==> Fold(rows[i].entry.id) == Fold(id)
  {
    hide Fold;
    FirstWithIdInRange(rows, id);
  }

  lemma RowAfterNext(row: Row, es: seq<Sourced>, e: Sourced, ids: set<string>)
    requires row.entry.System?
    ensures var before := RowAfter(row, es, ids);
      RowAfter(row, es + [e], ids)
        == if Fold(e.extension.systemId) != Fold(row.entry.id) then before
           else before.(entry :=
             before.entry.(alternates := Some(AddNames(Listed(before.entry.alternates), e.extension.addCores, ids))))
  {
    hide Fold, AddNames, Touched, NamesFor;
    var id := row.entry.id;
    TouchedNext(es, e, id);
    assert NamesFor(es, id) + [] == NamesFor(es, id) && [] + e.extension.addCores == e.extension.addCores;
    AddNamesAppend(Listed(row.entry.alternates), NamesFor(es, id), e.extension.addCores, ids);
  }

  lemma RowAfterKeeps(row: Row, es: seq<Sourced>, ids: set<string>)
    requires row.entry.System?
    ensures var r := RowAfter(row, es, ids);
      && r.provider == row.provider && r.entry.System? && r.entry.id == row.entry.id
      && r.entry.(alternates := None) == row.entry.(alternates := None) && ClaimSet(r.entry) == ClaimSet(row.entry)
  {
    hide Fold, AddNames;
  }

  ghost predicate RowsAfter(rows: seq<Row>, es: seq<Sourced>, ids: set<string>, r: seq<Row>)
    requires AllSystems(rows)
  {
    |r| == |rows| && forall i | 0 <= i < |rows| :: rows[i].entry.System? && r[i] == RowAfter(rows[i], es, ids)
  }

  lemma RowsAfterDistinct(rows: seq<Row>, es: seq<Sourced>, ids: set<string>, r: seq<Row>)
    requires AllSystems(rows) && DistinctRows(rows) && RowsAfter(rows, es, ids, r)
    ensures DistinctRows(r)
  {
    hide Fold, RowAfter;
    forall i | 0 <= i < |rows| ensures r[i].entry.id == rows[i].entry.id { RowAfterKeeps(rows[i], es, ids); }
  }

  /** Applying the extensions one by one to the whole table gives each row its own `RowAfter`. */
  lemma {:induction false} ExtendAllRows(rows: seq<Row>, es: seq<Sourced>, ids: set<string>)
    requires AllSystems(rows) && DistinctRows(rows)
    ensures RowsAfter(rows, es, ids, ExtendAll(rows, es, ids))
    decreases |es|
  {
    hide Fold, AddNames, RowAfter;
    if es == [] {
      forall i | 0 <= i < |rows| ensures rows[i].entry.System? && RowAfter(rows[i], es, ids) == rows[i] {
        assert rows[i] in rows;
        RowAfterNone(rows[i], ids);
      }
    } else {
      var init, e := es[..|es| - 1], es[|es| - 1];
      ExtendAllRows(rows, init, ids);
      var before := ExtendAll(rows, init, ids);
      RowsAfterDistinct(rows, init, ids, before);
      assert es == init + [e];
      forall i | 0 <= i < |rows| ensures Extended(before, e.extension, ids)[i] == RowAfter(rows[i], es, ids) {
        ExtendedAt(before, e.extension, ids, i);
        RowAfterNext(rows[i], init, e, ids);
        RowAfterKeeps(rows[i], init, ids);
      }
    }
  }

  lemma RowAfterNone(row: Row, ids: set<string>)
    requires row.entry.System?
    ensures RowAfter(row, [], ids) == row
  {
  }

  lemma ExtendedAt(rows: seq<Row>, e: Extension, ids: set<string>, i: nat)
    requires AllSystems(rows) && DistinctRows(rows) && i < |rows|
    ensures rows[i].entry.System?
    ensures Extended(rows, e, ids)[i]
      == if Fold(e.systemId) != Fold(rows[i].entry.id) then rows[i]
         else rows[i].(entry :=
           rows[i].entry.(alternates := Some(AddNames(Listed(rows[i].entry.alternates), e.addCores, ids))))
  {
    hide Fold, AddNames;
    FirstWithIdInRange(rows, e.systemId);
    FirstIsIt(rows, e.systemId, i);
    assert rows[i] in rows;
  }

  // ---------------------------------------------------------------- permuted extensions

  /** Equal but for the order of the added alternates. */
  ghost predicate SameButOrder(a: Row, b: Row) {
    && a.entry.System? && b.entry.System?
    && a.(entry := a.entry.(alternates := None)) == b.(entry := b.entry.(alternates := None))
    && (a.entry.alternates.Some? <==> b.entry.alternates.Some?)
    && Permuted(Listed(a.entry.alternates), Listed(b.entry.alternates))
  }

  lemma PermutedBehind(p: seq<string>, a: seq<string>, b: seq<string>)
    requires p <= a && p <= b && Permuted(a[|p|..], b[|p|..])
    ensures Permuted(a, b)
  {
    assert a == p + a[|p|..] && b == p + b[|p|..];
  }

  ghost predicate LowerCaseNames(es: seq<Sourced>) {
    forall s | s in es :: LowerCase(s.extension.addCores)
  }

  lemma NamesForLower(es: seq<Sourced>, id: string)
    requires LowerCaseNames(es)
    ensures LowerCase(NamesFor(es, id))
  {
    hide Fold, FlatMap;
    forall n | n in NamesFor(es, id) ensures Fold(n) == n {
      FlatMapMembers(Wanted(id), es, n);
      var s :| s in es && n in Wanted(id)(s);
      assert LowerCase(s.extension.addCores);
    }
  }

  lemma RowAfterPermuted(row: Row, es: seq<Sourced>, fs: seq<Sourced>, ids: set<string>)
    requires row.entry.System? && Permuted(es, fs) && LowerCaseNames(es)
    ensures SameButOrder(RowAfter(row, es, ids), RowAfter(row, fs, ids))
  {
    hide Fold, AddNames, FlatMap;
    var id := row.entry.id;
    PermutedMembers(es, fs);
    FlatMapPermuted(Wanted(id), es, fs);
    NamesForLower(es, id);
    var old_ := Listed(row.entry.alternates);
    AddNamesPermuted(old_, NamesFor(es, id), NamesFor(fs, id), ids);
    PermutedBehind(old_, AddNames(old_, NamesFor(es, id), ids), AddNames(old_, NamesFor(fs, id), ids));
  }
}
