/** Exactly when the merged catalog does not depend on the order of the contributors at all. */
module MergeOrder {
  import opened Wrappers
  import opened CStrings
  import opened Sorting
  import opened CanonicalJson
  import opened MergeModel
  import opened MergeProofs
  import opened MergeExtensions
  import opened MergeConfluence
  import CatalogMerge

  // ---------------------------------------------------------------- what one list of names adds

  lemma {:induction false} AddNamesKeeps(alternates: seq<string>, names: seq<string>, ids: set<string>)
    ensures alternates <= AddNames(alternates, names, ids)
    decreases |names|
  {
    hide Fold, ContainsFolded;
    if names != [] { AddNamesKeeps(alternates, names[..|names| - 1], ids); }
  }

  /** The names that `names` alone would add. */
  ghost function Fresh(alternates: seq<string>, names: seq<string>, ids: set<string>): (r: seq<string>)
    ensures AddNames(alternates, names, ids) == alternates + r
  {
    AddNamesKeeps(alternates, names, ids);
    AddNames(alternates, names, ids)[|alternates|..]
  }

  ghost function Minus(s: seq<string>, x: seq<string>): seq<string>
    decreases |s|
  {
    if s == [] then [] else Minus(s[..|s| - 1], x) + if s[|s| - 1] in x then [] else [s[|s| - 1]]
  }

  lemma {:induction false} MinusMembers(s: seq<string>, x: seq<string>, n: string)
    ensures n in Minus(s, x) <==> n in s && n !in x
    decreases |s|
  {
    if s != [] {
      MinusMembers(s[..|s| - 1], x, n);
      assert s == s[..|s| - 1] + [s[|s| - 1]];
    }
  }

  lemma {:induction false} MinusSelf(s: seq<string>, x: seq<string>)
    ensures (forall n | n in s :: n in x) ==> Minus(s, x) == []
    ensures (forall n | n in s :: n !in x) ==> Minus(s, x) == s
    decreases |s|
  {
    if s != [] { MinusSelf(s[..|s| - 1], x); }
  }

  lemma {:induction false} MinusAppend(s: seq<string>, t: seq<string>, x: seq<string>)
    ensures Minus(s + t, x) == Minus(s, x) + Minus(t, x)
    decreases |t|
  {
    if t == [] {
      assert s + t == s;
    } else {
      assert (s + t)[..|s + t| - 1] == s + t[..|t| - 1];
      MinusAppend(s, t[..|t| - 1], x);
    }
  }

  /** Taking away a beginning leaves the rest. */
  lemma MinusPrefix(s: seq<string>, x: seq<string>)
    requires NoRepeats(s) && x <= s
    ensures Minus(s, x) == s[|x|..] && Minus(x, s) == []
  {
    assert s == x + s[|x|..];
    MinusAppend(x, s[|x|..], x);
    MinusSelf(x, x);
    MinusSelf(s[|x|..], x);
    MinusSelf(x, s);
  }

  lemma FreshShape(alternates: seq<string>, names: seq<string>, ids: set<string>)
    requires LowerCase(names)
    ensures var r := Fresh(alternates, names, ids); NamesAdded(alternates, names, ids, r) && LowerCase(r)
  {
    hide Fold, ContainsFolded, AddNames;
    AddNamesShape(alternates, names, ids);
  }

  lemma FreshNext(alternates: seq<string>, init: seq<string>, name: string, ids: set<string>)
    ensures Fresh(alternates, init + [name], ids) == Fresh(alternates, init, ids)
      + if Fold(name) !in ids || ContainsFolded(alternates + Fresh(alternates, init, ids), name) then [] else [name]
  {
    hide Fold, ContainsFolded;
    assert (init + [name])[..|init|] == init;
  }

  /** Behind names that are listed already, a list adds what it alone would add, without those. */
  lemma {:induction false} AddBehind(alternates: seq<string>, x: seq<string>, names: seq<string>, ids: set<string>)
    requires LowerCase(x) && LowerCase(names)
    ensures Fresh(alternates + x, names, ids) == Minus(Fresh(alternates, names, ids), x)
    decreases |names|
  {
    hide Fold, ContainsFolded, Fresh, LowerCase;
    if names == [] {
      NoneFresh(alternates, ids);
      NoneFresh(alternates + x, ids);
    } else {
      var init, name := names[..|names| - 1], names[|names| - 1];
      assert names == init + [name];
      LowerSplit(init, name);
      AddBehind(alternates, x, init, ids);
      BehindNext(alternates, x, init, name, ids);
    }
  }

  lemma LowerSplit(init: seq<string>, name: string)
    ensures LowerCase(init + [name]) <==> LowerCase(init) && Fold(name) == name
  {
    hide Fold;
    assert name in init + [name];
  }

  lemma BehindNext(alternates: seq<string>, x: seq<string>, init: seq<string>, name: string, ids: set<string>)
    requires LowerCase(x) && LowerCase(init) && Fold(name) == name
    requires Fresh(alternates + x, init, ids) == Minus(Fresh(alternates, init, ids), x)
    ensures Fresh(alternates + x, init + [name], ids) == Minus(Fresh(alternates, init + [name], ids), x)
  {
    hide Fold, ContainsFolded, Fresh, LowerCase, AddNames, NamesAdded;
    var f := Fresh(alternates, init, ids);
    FreshNext(alternates, init, name, ids);
    FreshNext(alternates + x, init, name, ids);
    FreshShape(alternates, init, ids);
    BehindListed(alternates, x, f, name);
    MinusOneMore(f, name, x);
  }

  lemma MinusOneMore(f: seq<string>, name: string, x: seq<string>)
    ensures Minus(f + [name], x) == Minus(f, x) + if name in x then [] else [name]
    ensures f + [] == f
  {
    assert (f + [name])[..|f|] == f;
  }

  lemma NoneFresh(alternates: seq<string>, ids: set<string>)
    ensures Fresh(alternates, [], ids) == []
  {
  }

  lemma BehindListed(alternates: seq<string>, x: seq<string>, f: seq<string>, name: string)
    requires LowerCase(x) && LowerCase(f) && Fold(name) == name
    ensures ContainsFolded(alternates + f, name) <==> ContainsFolded(alternates, name) || name in f
    ensures ContainsFolded(alternates + x + Minus(f, x), name) <==>
      ContainsFolded(alternates, name) || name in x || name in f
  {
    hide Fold, ContainsFolded;
    ContainsFoldedSplit(alternates, f, name);
    ContainsFoldedLower(f, name);
    var m := Minus(f, x);
    ContainsFoldedSplit(alternates + x, m, name);
    ContainsFoldedSplit(alternates, x, name);
    ContainsFoldedLower(x, name);
    forall n ensures n in m <==> n in f && n !in x { MinusMembers(f, x, n); }
    ContainsFoldedLower(m, name);
  }

  predicate Comparable(a: seq<string>, b: seq<string>) {
    a <= b || b <= a
  }

  /** Two lists of names may be asked for in either order exactly when what one adds begins what the other adds. */
  lemma EitherOrder(alternates: seq<string>, a: seq<string>, b: seq<string>, ids: set<string>)
    requires LowerCase(a) && LowerCase(b)
    ensures AddNames(alternates, a + b, ids) == AddNames(alternates, b + a, ids)
      <==> Comparable(Fresh(alternates, a, ids), Fresh(alternates, b, ids))
  {
    hide Fold, ContainsFolded, AddNames, Fresh, LowerCase, Minus, Comparable;
    var p, q := Fresh(alternates, a, ids), Fresh(alternates, b, ids);
    OneThenOther(alternates, a, b, ids);
    OneThenOther(alternates, b, a, ids);
    FreshShape(alternates, a, ids);
    FreshShape(alternates, b, ids);
    SameBehind(alternates, p + Minus(q, p), q + Minus(p, q));
    JoinedIff(p, q);
  }

  lemma SameBehind(alternates: seq<string>, s: seq<string>, t: seq<string>)
    ensures alternates + s == alternates + t <==> s == t
  {
    assert (alternates + s)[|alternates|..] == s && (alternates + t)[|alternates|..] == t;
  }

  lemma JoinedIff(p: seq<string>, q: seq<string>)
    requires NoRepeats(p) && NoRepeats(q)
    ensures p + Minus(q, p) == q + Minus(p, q) <==> Comparable(p, q)
  {
    hide Minus, NoRepeats;
    if p + Minus(q, p) == q + Minus(p, q) { BothBegin(p + Minus(q, p), p, q); }
    if p <= q { MinusPrefix(q, p); }
    if q <= p { MinusPrefix(p, q); }
  }

  lemma BothBegin(s: seq<string>, p: seq<string>, q: seq<string>)
    requires p <= s && q <= s
    ensures Comparable(p, q)
  {
  }

  lemma OneThenOther(alternates: seq<string>, a: seq<string>, b: seq<string>, ids: set<string>)
    requires LowerCase(a) && LowerCase(b)
    ensures var p, q := Fresh(alternates, a, ids), Fresh(alternates, b, ids);
      && AddNames(alternates, a + b, ids) == alternates + (p + Minus(q, p))
      && Fresh(alternates, a + b, ids) == p + Minus(q, p)
  {
    hide Fold, ContainsFolded, AddNames, Fresh;
    AddNamesAppend(alternates, a, b, ids);
    FreshShape(alternates, a, ids);
    var p := Fresh(alternates, a, ids);
    AddBehind(alternates, p, b, ids);
    Assoc(alternates, p, Fresh(alternates + p, b, ids));
    var r := p + Fresh(alternates + p, b, ids);
    assert (alternates + r)[|alternates|..] == r;
    assert (alternates + Fresh(alternates, a + b, ids))[|alternates|..] == Fresh(alternates, a + b, ids);
  }

  // ---------------------------------------------------------------- what the contributors add to one row

  /** The names one contributor alone adds to the row. */
  ghost function Added(q: Row, c: Contributor, ids: set<string>): seq<string>
    requires q.entry.System?
  {
    Fresh(Listed(q.entry.alternates), NamesFor(Extends(c), q.entry.id), ids)
  }

  /** The names all contributors together add to the row. */
  ghost function AllAdded(q: Row, cs: seq<Contributor>, ids: set<string>): seq<string>
    requires q.entry.System?
  {
    Fresh(Listed(q.entry.alternates), NamesFor(Extensions(cs), q.entry.id), ids)
  }

  ghost predicate LowerContributor(c: Contributor) {
    forall e | e in c.extensions :: LowerCase(e.addCores)
  }

  lemma LowerExtends(c: Contributor)
    requires LowerContributor(c)
    ensures LowerCaseNames(Extends(c))
  {
  }

  lemma LowerExtensions(cs: seq<Contributor>)
    requires forall c | c in cs :: LowerContributor(c)
    ensures LowerCaseNames(Extensions(cs))
  {
    hide LowerCase, FlatMap;
    forall s | s in Extensions(cs) ensures LowerCase(s.extension.addCores) {
      FlatMapMembers(Extends, cs, s);
      var c :| c in cs && s in Extends(c);
      LowerExtends(c);
    }
  }

  lemma NamesForAppend(es: seq<Sourced>, fs: seq<Sourced>, id: string)
    ensures NamesFor(es + fs, id) == NamesFor(es, id) + NamesFor(fs, id)
  {
    FlatMapAppend(Wanted(id), es, fs);
  }

  lemma AddedNext(q: Row, cs: seq<Contributor>, c: Contributor, ids: set<string>)
    requires q.entry.System? && LowerContributor(c) && forall d | d in cs :: LowerContributor(d)
    ensures AllAdded(q, cs + [c], ids) == AllAdded(q, cs, ids) + Minus(Added(q, c, ids), AllAdded(q, cs, ids))
  {
    hide Fold, AddNames, Fresh, FlatMap, NamesFor;
    FlatMapAppend(Extends, cs, [c]);
    FlatMapOne(Extends, c);
    NamesForAppend(Extensions(cs), Extends(c), q.entry.id);
    LowerExtends(c);
    LowerExtensions(cs);
    NamesForLower(Extends(c), q.entry.id);
    NamesForLower(Extensions(cs), q.entry.id);
    OneThenOther(Listed(q.entry.alternates),
      NamesFor(Extensions(cs), q.entry.id), NamesFor(Extends(c), q.entry.id), ids);
  }

  lemma AddedNone(q: Row, ids: set<string>)
    requires q.entry.System?
    ensures AllAdded(q, [], ids) == []
  {
  }

  lemma AddedShape(q: Row, c: Contributor, ids: set<string>)
    requires q.entry.System? && LowerContributor(c)
    ensures NoRepeats(Added(q, c, ids))
  {
    hide Fold, ContainsFolded, Fresh, NamesFor;
    LowerExtends(c);
    NamesForLower(Extends(c), q.entry.id);
    FreshShape(Listed(q.entry.alternates), NamesFor(Extends(c), q.entry.id), ids);
  }

  /** Of any two contributors, what one adds to the row begins what the other adds. */
  ghost predicate Agreeing(q: Row, cs: seq<Contributor>, ids: set<string>)
    requires q.entry.System?
  {
    forall c, d | c in cs && d in cs :: Comparable(Added(q, c, ids), Added(q, d, ids))
  }

  /** Contributors that agree add together what the one of them adds that adds most. */
  lemma {:induction false} LongestWins(q: Row, cs: seq<Contributor>, ids: set<string>)
    requires q.entry.System? && (forall c | c in cs :: LowerContributor(c)) && Agreeing(q, cs, ids)
    ensures var all := AllAdded(q, cs, ids);
      && (forall c | c in cs :: Added(q, c, ids) <= all)
      && (all == [] || exists c :: c in cs && all == Added(q, c, ids))
    decreases |cs|
  {
    hide LowerContributor, Added, AllAdded;
    if cs == [] {
      AddedNone(q, ids);
    } else {
      var init, c := cs[..|cs| - 1], cs[|cs| - 1];
      assert cs == init + [c];
      LongestWins(q, init, ids);
      AddedNext(q, init, c, ids);
      AddedShape(q, c, ids);
      var before := AllAdded(q, init, ids);
      if d :| d in init && before == Added(q, d, ids) { AddedShape(q, d, ids); }
      LongerOfTwo(before, Added(q, c, ids));
    }
  }

  lemma LongerOfTwo(a: seq<string>, b: seq<string>)
    requires NoRepeats(a) && NoRepeats(b) && Comparable(a, b)
    ensures a + Minus(b, a) == if a <= b then b else a
  {
    if a <= b { MinusPrefix(b, a); } else { MinusPrefix(a, b); }
  }

  /** Contributors that agree add the same in every order. */
  lemma AgreeingAdd(q: Row, cs: seq<Contributor>, cs': seq<Contributor>, ids: set<string>)
    requires q.entry.System? && (forall c | c in cs :: LowerContributor(c)) && Agreeing(q, cs, ids) && Permuted(cs, cs')
    ensures AllAdded(q, cs, ids) == AllAdded(q, cs', ids)
  {
    hide LowerContributor, Added, AllAdded;
    PermutedMembers(cs, cs');
    LongestWins(q, cs, ids);
    LongestWins(q, cs', ids);
  }

  /** Whoever comes first, what it adds comes first. */
  lemma FirstBegins(q: Row, c: Contributor, rest: seq<Contributor>, ids: set<string>)
    requires q.entry.System?
    ensures Added(q, c, ids) <= AllAdded(q, [c] + rest, ids)
  {
    hide Fold, AddNames, FlatMap, NamesFor, Fresh;
    FlatMapAppend(Extends, [c], rest);
    FlatMapOne(Extends, c);
    NamesForAppend(Extends(c), Extensions(rest), q.entry.id);
    var alternates := Listed(q.entry.alternates);
    var w, more := NamesFor(Extends(c), q.entry.id), NamesFor(Extensions(rest), q.entry.id);
    AddNamesAppend(alternates, w, more, ids);
    var a, b, z := Fresh(alternates, w, ids),
      Fresh(alternates + Fresh(alternates, w, ids), more, ids), Fresh(alternates, w + more, ids);
    assert alternates + a + b == alternates + z;
    Assoc(alternates, a, b);
    assert (alternates + (a + b))[|alternates|..] == a + b && (alternates + z)[|alternates|..] == z;
  }

  // ---------------------------------------------------------------- the whole catalog

  lemma RowAfterAdds(q: Row, cs: seq<Contributor>, ids: set<string>)
    requires q.entry.System?
    ensures Listed(RowAfter(q, Extensions(cs), ids).entry.alternates)
      == Listed(q.entry.alternates) + AllAdded(q, cs, ids)
  {
    hide Fold, AddNames, Fresh, NamesFor, Touched, FlatMap;
    if !Touched(Extensions(cs), q.entry.id) {
      Untouched(Extensions(cs), q.entry.id);
      NoneFresh(Listed(q.entry.alternates), ids);
    }
  }

  lemma SameRowAfter(q: Row, cs: seq<Contributor>, cs': seq<Contributor>, ids: set<string>)
    requires q.entry.System? && Permuted(cs, cs')
    ensures RowAfter(q, Extensions(cs), ids) == RowAfter(q, Extensions(cs'), ids) <==>
      AllAdded(q, cs, ids) == AllAdded(q, cs', ids)
  {
    hide Fold, AddNames, Fresh, NamesFor, FlatMap;
    var es, fs := Extensions(cs), Extensions(cs');
    FlatMapPermuted(Extends, cs, cs');
    PermutedMembers(es, fs);
    var alternates, id := Listed(q.entry.alternates), q.entry.id;
    var a, b := AllAdded(q, cs, ids), AllAdded(q, cs', ids);
    RowAfterAdds(q, cs, ids);
    RowAfterAdds(q, cs', ids);
    assert (alternates + a)[|alternates|..] == a && (alternates + b)[|alternates|..] == b;
    assert Touched(es, id) <==> Touched(fs, id);
  }

  /** Every valid input has a merge. */
  lemma MergeExists(base: Base, cs: seq<Contributor>)
    requires ValidInput(base, cs)
    ensures exists catalog, diagnostics :: IsMerge(base, cs, catalog, diagnostics)
  {
    hide SystemRows, CoreRows, Candidates, ContextOf, ExtendAll, CoreIds, Extensions, Reports;
    var x, all := ContextOf(base, cs), Candidates(cs);
    CatalogMerge.CandidateKinds(base, cs);
    IdLeIsComparison();
    DiagnosticLeIsComparison();
    var catalog := Catalog(base.platform,
      Sort(ExtendAll(SystemRows(x, base, all), Extensions(cs), CoreIds(x, base)), IdLe),
                           Sort(CoreRows(x, base, all), IdLe));
    assert IsMerge(base, cs, catalog, Sort(Reports(base, cs), DiagnosticLe));
  }

  /** For every system, of any two contributors, what one adds begins what the other adds. */
  ghost predicate AllAgree(base: Base, cs: seq<Contributor>) {
    forall q | q in Before(base, cs) && q.entry.System? :: Agreeing(q, cs, Available(base, cs))
  }

  /** The catalog of these contributors is the catalog of any order of them. */
  ghost predicate OrderIsIrrelevant(base: Base, cs: seq<Contributor>) {
    forall cs', a, da, b, db |
      Permuted(cs, cs') && IsMerge(base, cs, a, da) && IsMerge(base, cs', b, db) :: a == b
  }

  lemma AgreeingCatalogs(base: Base, cs: seq<Contributor>, cs': seq<Contributor>,
                         a: Catalog, da: seq<Diagnostic>, b: Catalog, db: seq<Diagnostic>)
    requires ValidInput(base, cs) && Permuted(cs, cs') && (forall c | c in cs :: LowerContributor(c))
    requires AllAgree(base, cs)
    requires IsMerge(base, cs, a, da) && IsMerge(base, cs', b, db)
    ensures a == b
  {
    hide *;
    hide AllAgree, Agreeing;
    ValidPermuted(base, cs, cs');
    LowerExtensions(cs);
    MergeConfluent(base, cs, cs', a, da, b, db);
    CatalogRows(base, cs, a, da);
    CatalogRows(base, cs', b, db);
    RowsPermuted(base, cs, cs');
    SameSystems(base, cs, cs', a.systems, b.systems);
  }

  lemma SameSystems(base: Base, cs: seq<Contributor>, cs': seq<Contributor>, a: seq<Row>, b: seq<Row>)
    requires Permuted(cs, cs') && (forall c | c in cs :: LowerContributor(c)) && AllAgree(base, cs)
    requires AllSystems(Before(base, cs)) && AllSystems(Before(base, cs'))
    requires Permuted(Before(base, cs), Before(base, cs'))
    requires Available(base, cs) == Available(base, cs')
    requires ExtendedTo(Before(base, cs), Extensions(cs), Available(base, cs), a)
    requires ExtendedTo(Before(base, cs'), Extensions(cs'), Available(base, cs'), b)
    requires SortedBy(a, IdLe) && SortedBy(b, IdLe) && DistinctRows(a) && DistinctRows(b)
    ensures a == b
  {
    hide Before, Available, Extensions, RowAfter, Agreeing, DistinctRows, LowerContributor, SortedBy;
    var ids := Available(base, cs);
    PermutedMembers(Before(base, cs), Before(base, cs'));
    forall q | q in Before(base, cs) ensures RowAfter(q, Extensions(cs), ids) == RowAfter(q, Extensions(cs'), ids) {
      AgreeingAdd(q, cs, cs', ids);
      SameRowAfter(q, cs, cs', ids);
    }
    assert forall r :: r in a <==> r in b;
    SortedSame(a, b);
  }

  lemma SortedSame(a: seq<Row>, b: seq<Row>)
    requires SortedBy(a, IdLe) && SortedBy(b, IdLe) && DistinctRows(a) && DistinctRows(b)
    requires forall r :: r in a <==> r in b
    ensures a == b
  {
    hide Fold, SortedBy;
    assert NoRepeats(a) && NoRepeats(b);
    SameSetPermuted(a, b);
    NoRowTies(a);
    SortedUnique(a, b, IdLe);
  }

  lemma MoveFirst(cs: seq<Contributor>, c: Contributor) returns (rest: seq<Contributor>)
    requires c in cs
    ensures Permuted(cs, [c] + rest)
  {
    var i :| 0 <= i < |cs| && cs[i] == c;
    rest := cs[..i] + cs[i + 1..];
    assert cs == cs[..i] + [c] + cs[i + 1..];
  }

  /** In a catalog that does not depend on the order, what any contributor adds comes first. */
  lemma AnyMayBeFirst(base: Base, cs: seq<Contributor>, q: Row, c: Contributor)
    requires ValidInput(base, cs) && OrderIsIrrelevant(base, cs)
    requires c in cs && q in Before(base, cs) && q.entry.System?
    ensures Added(q, c, Available(base, cs)) <= AllAdded(q, cs, Available(base, cs))
  {
    hide *;
    hide OrderIsIrrelevant;
    var rest := MoveFirst(cs, c);
    var cs' := [c] + rest;
    ValidPermuted(base, cs, cs');
    MergeExists(base, cs);
    MergeExists(base, cs');
    var a, da :| IsMerge(base, cs, a, da);
    var b, db :| IsMerge(base, cs', b, db);
    SameCatalog(base, cs, cs', a, da, b, db);
    CatalogRows(base, cs, a, da);
    CatalogRows(base, cs', b, db);
    RowsPermuted(base, cs, cs');
    SameExtension(base, cs, cs', a.systems, q);
    FirstBegins(q, c, rest, Available(base, cs));
  }

  lemma SameCatalog(base: Base, cs: seq<Contributor>, cs': seq<Contributor>,
                    a: Catalog, da: seq<Diagnostic>, b: Catalog, db: seq<Diagnostic>)
    requires OrderIsIrrelevant(base, cs) && Permuted(cs, cs') && IsMerge(base, cs, a, da) && IsMerge(base, cs', b, db)
    ensures a == b
  {
    hide IsMerge, Permuted;
  }

  /** If both orders lead to one table, they add the same names to each row. */
  lemma SameExtension(base: Base, cs: seq<Contributor>, cs': seq<Contributor>, systems: seq<Row>, q: Row)
    requires Permuted(cs, cs') && AllSystems(Before(base, cs)) && AllSystems(Before(base, cs'))
    requires Permuted(Before(base, cs), Before(base, cs')) && Available(base, cs) == Available(base, cs')
    requires ExtendedTo(Before(base, cs), Extensions(cs), Available(base, cs), systems)
    requires ExtendedTo(Before(base, cs'), Extensions(cs'), Available(base, cs'), systems)
    requires DistinctRows(systems) && q in Before(base, cs) && q.entry.System?
    ensures AllAdded(q, cs, Available(base, cs)) == AllAdded(q, cs', Available(base, cs))
  {
    hide Before, Available, Extensions, RowAfter, DistinctRows, AllAdded, Fold, ClaimSet;
    var ids := Available(base, cs);
    PermutedMembers(Before(base, cs), Before(base, cs'));
    var r, s := RowAfter(q, Extensions(cs), ids), RowAfter(q, Extensions(cs'), ids);
    RowAfterKeeps(q, Extensions(cs), ids);
    RowAfterKeeps(q, Extensions(cs'), ids);
    OneRowPerId(systems, r, s);
    SameRowAfter(q, cs, cs', ids);
  }

  /** The merged catalog is the same in every order exactly when, system by system, the contributors agree. */
  lemma OrderIrrelevantIff(base: Base, cs: seq<Contributor>)
    requires ValidInput(base, cs) && forall c | c in cs :: LowerContributor(c)
    ensures OrderIsIrrelevant(base, cs) <==> AllAgree(base, cs)
  {
    hide *;
    hide OrderIsIrrelevant, AllAgree, Agreeing;
    if AllAgree(base, cs) { AgreeingIsEnough(base, cs); }
    if OrderIsIrrelevant(base, cs) { AgreeingIsNeeded(base, cs); }
  }

  lemma AgreeingIsEnough(base: Base, cs: seq<Contributor>)
    requires ValidInput(base, cs) && (forall c | c in cs :: LowerContributor(c)) && AllAgree(base, cs)
    ensures OrderIsIrrelevant(base, cs)
  {
    hide ValidInput, IsMerge, LowerContributor, AllAgree, Permuted;
    forall cs', a, da, b, db | Permuted(cs, cs') && IsMerge(base, cs, a, da) && IsMerge(base, cs', b, db)
      ensures a == b
    {
      AgreeingCatalogs(base, cs, cs', a, da, b, db);
    }
  }

  lemma AgreeingIsNeeded(base: Base, cs: seq<Contributor>)
    requires ValidInput(base, cs) && OrderIsIrrelevant(base, cs)
    ensures AllAgree(base, cs)
  {
    hide ValidInput, OrderIsIrrelevant, Before, Available, Added;
    var ids := Available(base, cs);
    forall q, c, d | q in Before(base, cs) && q.entry.System? && c in cs && d in cs
      ensures Comparable(Added(q, c, ids), Added(q, d, ids))
    {
      AnyMayBeFirst(base, cs, q, c);
      AnyMayBeFirst(base, cs, q, d);
      BothBegin(AllAdded(q, cs, ids), Added(q, c, ids), Added(q, d, ids));
    }
  }

  // ---------------------------------------------------------------- an input that shows it

  function OneSystem(): Entry {
    System("S", "s", "s", [], "d", None, Null)
  }

  /** One release system, three release cores. */
  function ThreeCores(): Base {
    Base("p", [OneSystem()], [Core("d", "", "", Null), Core("x", "", "", Null), Core("y", "", "", Null)])
  }

  /** A contributor that wants one core listed for that system. */
  function Wants(name: string): Contributor {
    Contributor("provider of " + name, [], [], [Extension("S", [name])])
  }

  /** Two contributors that each want another core listed: the two orders give different systems. */
  lemma OrderShows()
    ensures var cs, cs' := [Wants("x"), Wants("y")], [Wants("y"), Wants("x")];
      && ValidInput(ThreeCores(), cs) && (forall c | c in cs :: LowerContributor(c)) && Permuted(cs, cs')
      && exists a, da, b, db ::
        && IsMerge(ThreeCores(), cs, a, da) && IsMerge(ThreeCores(), cs', b, db) && a.systems != b.systems
  {
    hide *;
    var base, cs, cs' := ThreeCores(), [Wants("x"), Wants("y")], [Wants("y"), Wants("x")];
    WantsValid();
    ValidPermuted(base, cs, cs');
    MergeExists(base, cs);
    MergeExists(base, cs');
    var a, da :| IsMerge(base, cs, a, da);
    var b, db :| IsMerge(base, cs', b, db);
    CatalogRows(base, cs, a, da);
    CatalogRows(base, cs', b, db);
    RowsPermuted(base, cs, cs');
    if a.systems == b.systems {
      var q := Row(OneSystem(), None);
      BeforeWants(cs);
      SameExtension(base, cs, cs', a.systems, q);
      var ids := Available(base, cs);
      FirstBegins(q, Wants("x"), [Wants("y")], ids);
      FirstBegins(q, Wants("y"), [Wants("x")], ids);
      assert [Wants("x")] + [Wants("y")] == cs && [Wants("y")] + [Wants("x")] == cs';
      WantsAdds("x", ids);
      WantsAdds("y", ids);
      NotBothFirst(AllAdded(q, cs, ids));
    }
  }

  lemma NotBothFirst(z: seq<string>)
    ensures !(["x"] <= z && ["y"] <= z)
  {
    assert ["x"][0][0] == 'x' && ["y"][0][0] == 'y';
  }

  lemma Letters()
    ensures Fold("x") == "x" && Fold("y") == "y" && Fold("d") == "d"
    ensures "x" != "y" && "x" != "d" && "y" != "d"
  {
    assert "x"[0] == 'x' && "y"[0] == 'y' && "d"[0] == 'd';
  }

  lemma WantsValid()
    ensures var cs, cs' := [Wants("x"), Wants("y")], [Wants("y"), Wants("x")];
      ValidInput(ThreeCores(), cs) && (forall c | c in cs :: LowerContributor(c)) && Permuted(cs, cs')
  {
    hide Fold;
    Letters();
    var base := ThreeCores();
    assert DistinctIds(base.cores) && DistinctIds(base.systems);
    assert Wants("x").provider[12] == 'x' && Wants("y").provider[12] == 'y';
  }

  lemma BeforeWants(cs: seq<Contributor>)
    ensures Row(OneSystem(), None) in Before(ThreeCores(), cs) && OneSystem().System?
    ensures Fold("x") in Available(ThreeCores(), cs) && Fold("y") in Available(ThreeCores(), cs)
  {
    hide RefusedEarly, Candidates, Survives, Fold;
    var base := ThreeCores();
    assert ReleaseRows(base.systems)[0] == Row(OneSystem(), None);
    assert base.cores[1].id == "x" && base.cores[2].id == "y";
    assert base.cores[1] in base.cores && base.cores[2] in base.cores;
  }

  lemma WantsAdds(name: string, ids: set<string>)
    requires Fold(name) in ids
    ensures Added(Row(OneSystem(), None), Wants(name), ids) == [name]
  {
    hide Fold, FlatMap, AddNames, Fresh;
    var s := Sourced(Wants(name).provider, Extension("S", [name]));
    assert Extends(Wants(name)) == [s];
    FlatMapOne(Wanted("S"), s);
    NoneFresh([], ids);
    FreshNext([], [], name, ids);
    assert [] + [name] == [name];
  }
}
