/** The merge does not depend on the order of the contributors, and keeps exactly what it should. */
module MergeConfluence {
  import opened CStrings
  import opened Sorting
  import opened MergeModel
  import opened MergeProofs
  import opened MergeExtensions

  // ---------------------------------------------------------------- tables sorted by id

  lemma NoRepeatsPermuted<T>(a: seq<T>, b: seq<T>)
    requires NoRepeats(a) && Permuted(a, b)
    ensures NoRepeats(b)
  {
    PermutedMembers(a, b);
    NoRepeatsCount(a);
    forall i, j | 0 <= i < j < |b| ensures b[i] != b[j] {
      assert b[i] in a;
      if b[i] == b[j] { TwiceCounts(b, i, j); }
    }
  }

  lemma ValidPermuted(base: Base, cs: seq<Contributor>, cs': seq<Contributor>)
    requires ValidInput(base, cs) && Permuted(cs, cs')
    ensures ValidInput(base, cs')
  {
    hide DistinctIds;
    PermutedMembers(cs, cs');
    assert NoRepeats(cs);
    NoRepeatsPermuted(cs, cs');
    forall i, j | 0 <= i < j < |cs'| ensures cs'[i].provider != cs'[j].provider {
      assert cs'[i] in cs && cs'[j] in cs;
      if cs'[i].provider == cs'[j].provider { OneProviderOneContributor(base, cs, cs'[i], cs'[j]); }
    }
  }

  lemma OneRowPerId(rows: seq<Row>, r: Row, s: Row)
    requires DistinctRows(rows) && r in rows && s in rows && Fold(r.entry.id) == Fold(s.entry.id)
    ensures r == s
  {
    hide Fold;
    var i :| 0 <= i < |rows| && rows[i] == r;
    var j :| 0 <= j < |rows| && rows[j] == s;
  }

  lemma DistinctRowsPermuted(a: seq<Row>, b: seq<Row>)
    requires DistinctRows(a) && Permuted(a, b)
    ensures DistinctRows(b)
  {
    hide Fold;
    PermutedMembers(a, b);
    assert NoRepeats(a);
    NoRepeatsPermuted(a, b);
    forall i, j | 0 <= i < j < |b| ensures Fold(b[i].entry.id) != Fold(b[j].entry.id) {
      assert b[i] in a && b[j] in a;
      if Fold(b[i].entry.id) == Fold(b[j].entry.id) { OneRowPerId(a, b[i], b[j]); }
    }
  }

  lemma NoRowTies(rows: seq<Row>)
    requires DistinctRows(rows)
    ensures NoTies(rows, IdLe)
  {
    hide Fold;
    forall r, s | r in rows && s in rows && IdLe(r, s) && IdLe(s, r) ensures r == s {
      StrLeAntisymmetric(r.entry.id, s.entry.id);
      OneRowPerId(rows, r, s);
    }
  }

  function Ids(rows: seq<Row>): (r: seq<string>)
    ensures |r| == |rows|
  {
    seq(|rows|, i requires 0 <= i < |rows| => rows[i].entry.id)
  }

  /** Two sorted tables over the same ids list them at the same places. */
  lemma SameIdsInOrder(a: seq<Row>, b: seq<Row>)
    requires SortedBy(a, IdLe) && SortedBy(b, IdLe) && DistinctRows(a) && DistinctRows(b)
    requires forall r | r in a :: exists s :: s in b && s.entry.id == r.entry.id
    requires forall s | s in b :: exists r :: r in a && r.entry.id == s.entry.id
    ensures Ids(a) == Ids(b)
  {
    hide Fold;
    IdsNoRepeats(a); IdsNoRepeats(b);
    forall id ensures id in Ids(a) <==> id in Ids(b) {
      IdListed(a, id); IdListed(b, id);
    }
    SameSetPermuted(Ids(a), Ids(b));
    NoStringTies(Ids(a));
    SortedUnique(Ids(a), Ids(b), StrLe);
  }

  lemma IdListed(a: seq<Row>, id: string)
    ensures id in Ids(a) <==> exists r :: r in a && r.entry.id == id
  {
    if r :| r in a && r.entry.id == id {
      var i :| 0 <= i < |a| && a[i] == r;
      assert Ids(a)[i] == id;
    }
    if id in Ids(a) {
      var i :| 0 <= i < |a| && Ids(a)[i] == id;
      assert a[i] in a;
    }
  }

  lemma IdsNoRepeats(a: seq<Row>)
    requires DistinctRows(a)
    ensures NoRepeats(Ids(a))
  {
    forall i, j | 0 <= i < j < |a| ensures Ids(a)[i] != Ids(a)[j] {
      assert Fold(a[i].entry.id) != Fold(a[j].entry.id);
    }
  }

  // ---------------------------------------------------------------- what a merged catalog holds

  ghost function Before(base: Base, cs: seq<Contributor>): seq<Row> {
    SystemRows(ContextOf(base, cs), base, Candidates(cs))
  }

  ghost function Cores(base: Base, cs: seq<Contributor>): seq<Row> {
    CoreRows(ContextOf(base, cs), base, Candidates(cs))
  }

  ghost function Available(base: Base, cs: seq<Contributor>): set<string> {
    CoreIds(ContextOf(base, cs), base)
  }

  /** A system of the catalog is a row from before the extensions, extended; and every such row is there. */
  ghost predicate ExtendedTo(before: seq<Row>, es: seq<Sourced>, ids: set<string>, systems: seq<Row>)
    requires AllSystems(before)
  {
    && (forall r | r in systems :: exists q :: q in before && r == RowAfter(q, es, ids))
    && (forall q | q in before :: RowAfter(q, es, ids) in systems)
  }

  lemma CatalogRows(base: Base, cs: seq<Contributor>, catalog: Catalog, diagnostics: seq<Diagnostic>)
    requires ValidInput(base, cs) && IsMerge(base, cs, catalog, diagnostics)
    ensures DistinctRows(catalog.systems) && DistinctRows(catalog.cores) && DistinctRows(Before(base, cs))
    ensures SortedBy(catalog.systems, IdLe) && SortedBy(catalog.cores, IdLe) && AllSystems(Before(base, cs))
    ensures ExtendedTo(Before(base, cs), Extensions(cs), Available(base, cs), catalog.systems)
    ensures Permuted(catalog.cores, Cores(base, cs))
  {
    hide Fold, SystemRows, CoreRows, Candidates, ContextOf, ValidInput, RowAfter, ExtendAll, CoreIds, Extensions;
    var before, es, ids := Before(base, cs), Extensions(cs), Available(base, cs);
    RowsDistinct(base, cs);
    DistinctRowsPermuted(Cores(base, cs), catalog.cores);
    ExtendAllRows(before, es, ids);
    var after := ExtendAll(before, es, ids);
    RowsAfterDistinct(before, es, ids, after);
    DistinctRowsPermuted(after, catalog.systems);
    PermutedMembers(after, catalog.systems);
    RowsAfterExtend(before, es, ids, after, catalog.systems);
  }

  lemma RowsAfterExtend(before: seq<Row>, es: seq<Sourced>, ids: set<string>, after: seq<Row>, systems: seq<Row>)
    requires AllSystems(before) && RowsAfter(before, es, ids, after)
    requires forall r :: r in after <==> r in systems
    ensures ExtendedTo(before, es, ids, systems)
  {
    hide RowAfter;
    forall r | r in systems ensures exists q :: q in before && r == RowAfter(q, es, ids) {
      var i :| 0 <= i < |after| && after[i] == r;
      assert before[i] in before;
    }
    forall q | q in before ensures RowAfter(q, es, ids) in systems {
      var i :| 0 <= i < |before| && before[i] == q;
      assert after[i] in after;
    }
  }

  lemma RowsPermuted(base: Base, cs: seq<Contributor>, cs': seq<Contributor>)
    requires Permuted(cs, cs')
    ensures Permuted(Before(base, cs), Before(base, cs')) && Permuted(Cores(base, cs), Cores(base, cs'))
    ensures Available(base, cs) == Available(base, cs')
  {
    hide Candidates, ContextOf, Survives, CoreIds;
    ContextsAgree(base, cs, cs');
    var x := ContextOf(base, cs);
    FlatMapPermuted(SystemRow(x, base), Candidates(cs), Candidates(cs'));
    FlatMapPermuted(CoreRow(x, base), Candidates(cs), Candidates(cs'));
  }

  // ---------------------------------------------------------------- confluence

  /**
   * Enumeration order is irrelevant: any permutation of the contributors gives the same reports and the same catalog,
   * up to the order in which added alternates are listed.
   */
  lemma MergeConfluent(base: Base, cs: seq<Contributor>, cs': seq<Contributor>,
                       a: Catalog, da: seq<Diagnostic>, b: Catalog, db: seq<Diagnostic>)
    requires ValidInput(base, cs) && Permuted(cs, cs') && LowerCaseNames(Extensions(cs))
    requires IsMerge(base, cs, a, da) && IsMerge(base, cs', b, db)
    ensures da == db
    ensures a.platform == b.platform && a.cores == b.cores
    ensures |a.systems| == |b.systems| && forall i | 0 <= i < |a.systems| :: SameButOrder(a.systems[i], b.systems[i])
  {
    hide *;
    ValidPermuted(base, cs, cs');
    DiagnosticsConfluent(base, cs, cs', a, da, b, db);
    CatalogRows(base, cs, a, da);
    CatalogRows(base, cs', b, db);
    RowsPermuted(base, cs, cs');
    CoresConfluent(Cores(base, cs), Cores(base, cs'), a.cores, b.cores);
    ContextsAgree(base, cs, cs');
    SystemsConfluent(Before(base, cs), Before(base, cs'), Extensions(cs), Extensions(cs'),
      Available(base, cs), a.systems, b.systems);
  }

  lemma DiagnosticsConfluent(base: Base, cs: seq<Contributor>, cs': seq<Contributor>,
                             a: Catalog, da: seq<Diagnostic>, b: Catalog, db: seq<Diagnostic>)
    requires Permuted(cs, cs') && IsMerge(base, cs, a, da) && IsMerge(base, cs', b, db)
    ensures da == db && a.platform == b.platform
  {
    hide Reports, SystemRows, CoreRows, Candidates, ContextOf, ExtendAll, CoreIds, Extensions;
    ReportsPermuted(base, cs, cs');
    NoDiagnosticTies(da);
    SortedUnique(da, db, DiagnosticLe);
  }

  lemma CoresConfluent(rows: seq<Row>, rows': seq<Row>, a: seq<Row>, b: seq<Row>)
    requires Permuted(rows, rows') && Permuted(a, rows) && Permuted(b, rows')
    requires SortedBy(a, IdLe) && SortedBy(b, IdLe) && DistinctRows(a)
    ensures a == b
  {
    NoRowTies(a);
    SortedUnique(a, b, IdLe);
  }

  lemma SystemsConfluent(before: seq<Row>, before': seq<Row>, es: seq<Sourced>, fs: seq<Sourced>, ids: set<string>,
                         a: seq<Row>, b: seq<Row>)
    requires AllSystems(before) && AllSystems(before') && Permuted(before, before') && DistinctRows(before)
    requires Permuted(es, fs) && LowerCaseNames(es)
    requires SortedBy(a, IdLe) && SortedBy(b, IdLe) && DistinctRows(a) && DistinctRows(b)
    requires ExtendedTo(before, es, ids, a) && ExtendedTo(before', fs, ids, b)
    ensures |a| == |b| && forall i | 0 <= i < |a| :: SameButOrder(a[i], b[i])
  {
    hide Fold, RowAfter, SameButOrder, LowerCaseNames, DistinctRows, SortedBy, Permuted, ExtendedTo;
    ExtendsPermuted(before, before', fs, ids, b);
    SameIds(before, es, fs, ids, a, b);
    forall i | 0 <= i < |a| ensures SameButOrder(a[i], b[i]) {
      assert Ids(a)[i] == Ids(b)[i];
      RowConfluent(before, es, fs, ids, a, b, a[i], b[i]);
    }
  }

  lemma ExtendsPermuted(before: seq<Row>, before': seq<Row>, es: seq<Sourced>, ids: set<string>, systems: seq<Row>)
    requires AllSystems(before) && AllSystems(before') && Permuted(before, before')
    requires ExtendedTo(before', es, ids, systems)
    ensures ExtendedTo(before, es, ids, systems)
  {
    hide RowAfter;
    PermutedMembers(before, before');
  }

  lemma RowConfluent(before: seq<Row>, es: seq<Sourced>, fs: seq<Sourced>, ids: set<string>, a: seq<Row>, b: seq<Row>,
                     r: Row, s: Row)
    requires AllSystems(before) && DistinctRows(before) && Permuted(es, fs) && LowerCaseNames(es)
    requires ExtendedTo(before, es, ids, a) && ExtendedTo(before, fs, ids, b)
    requires r in a && s in b && r.entry.id == s.entry.id
    ensures SameButOrder(r, s)
  {
    hide Fold, RowAfter, SameButOrder, LowerCaseNames, DistinctRows, Permuted, ClaimSet;
    var q :| q in before && r == RowAfter(q, es, ids);
    var q' :| q' in before && s == RowAfter(q', fs, ids);
    RowAfterKeeps(q, es, ids);
    RowAfterKeeps(q', fs, ids);
    OneRowPerId(before, q, q');
    RowAfterPermuted(q, es, fs, ids);
  }

  lemma SameIds(before: seq<Row>, es: seq<Sourced>, fs: seq<Sourced>, ids: set<string>, a: seq<Row>, b: seq<Row>)
    requires AllSystems(before)
    requires SortedBy(a, IdLe) && SortedBy(b, IdLe) && DistinctRows(a) && DistinctRows(b)
    requires ExtendedTo(before, es, ids, a) && ExtendedTo(before, fs, ids, b)
    ensures Ids(a) == Ids(b) && |a| == |b|
  {
    hide Fold, RowAfter, DistinctRows, SortedBy, ExtendedTo, Ids, AllSystems;
    IdsCovered(before, es, fs, ids, a, b);
    IdsCovered(before, fs, es, ids, b, a);
    SameIdsInOrder(a, b);
    assert |Ids(a)| == |Ids(b)|;
  }

  lemma IdsCovered(before: seq<Row>, es: seq<Sourced>, fs: seq<Sourced>, ids: set<string>, a: seq<Row>, b: seq<Row>)
    requires AllSystems(before) && ExtendedTo(before, es, ids, a) && ExtendedTo(before, fs, ids, b)
    ensures forall r | r in a :: exists s :: s in b && s.entry.id == r.entry.id
  {
    hide Fold, RowAfter;
    forall r | r in a ensures exists s :: s in b && s.entry.id == r.entry.id {
      var q :| q in before && r == RowAfter(q, es, ids);
      RowAfterKeeps(q, es, ids);
      RowAfterKeeps(q, fs, ids);
      assert RowAfter(q, fs, ids) in b;
    }
  }
}
