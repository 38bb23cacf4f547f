/** What the merged catalog may contain, and what it must contain. */
module MergeSoundness {
  import opened Wrappers
  import opened CStrings
  import opened Sorting
  import opened CanonicalJson
  import opened MergeModel
  import opened MergeProofs
  import opened MergeExtensions
  import opened MergeConfluence

  // ---------------------------------------------------------------- rows and where they come from

  /** The entry clashes neither with the release nor with an entry of another provider that the release tolerates. */
  ghost predicate Unclaimed(base: Base, cs: seq<Contributor>, c: Candidate) {
    && ClaimSet(c.entry) !! BaseClaims(base)
    && forall d | d in Candidates(cs) && d.provider != c.provider && ClaimSet(d.entry) !! BaseClaims(base) ::
         ClaimSet(c.entry) !! ClaimSet(d.entry)
  }

  lemma HitIffClaimed(base: Base, cs: seq<Contributor>, d: Candidate)
    ensures BaseHit(ContextOf(base, cs), d) <==> !(ClaimSet(d.entry) !! BaseClaims(base))
  {
    hide ClaimSet, BaseClaims, Candidates;
    var a, b := ClaimSet(d.entry), BaseClaims(base);
    forall k ensures k in a * b <==> k in a && k in b {
    }
    if a * b != {} { var k :| k in a * b; }
  }

  lemma UnclaimedIff(base: Base, cs: seq<Contributor>, c: Candidate)
    ensures Unclaimed(base, cs, c) <==> !RefusedEarly(ContextOf(base, cs), c)
  {
    hide ClaimSet, BaseClaims, Candidates, BaseHit;
    var x := ContextOf(base, cs);
    forall d ensures BaseHit(x, d) <==> !(ClaimSet(d.entry) !! BaseClaims(base)) { HitIffClaimed(base, cs, d); }
    forall d, k
      ensures d in Candidates(cs) && d.provider != c.provider
        && !BaseHit(x, d) && k in ClaimSet(c.entry) && k in ClaimSet(d.entry)
        ==> Contests(x, c, k)
    {
    }
    forall k | Contests(x, c, k)
      ensures exists d ::
        && d in Candidates(cs) && d.provider != c.provider
        && !BaseHit(x, d) && !(ClaimSet(c.entry) !! ClaimSet(d.entry))
    {
      var d :| d in x.all && d.provider != c.provider && !BaseHit(x, d) && k in ClaimSet(d.entry);
    }
  }

  /** A row stands for a release entry, or for a candidate that clashes with nobody. */
  ghost predicate Stands(base: Base, cs: seq<Contributor>, r: Row) {
    || (r.provider.None? && exists e :: (e in base.systems || e in base.cores) && ClaimSet(r.entry) == ClaimSet(e))
    || (exists c :: c in Candidates(cs) && r.provider == Some(c.provider) && ClaimSet(r.entry) == ClaimSet(c.entry)
          && !RefusedEarly(ContextOf(base, cs), c))
  }

  /** The members of a table before the extensions. */
  lemma TableMembers(x: Context, base: Base, systems: bool, release: seq<Entry>, all: seq<Candidate>, r: Row)
    ensures r in ReleaseRows(release) + FlatMap(Survivors(x, base, systems), all) <==>
      || (exists e :: e in release && r == Row(e, None))
      || (exists c :: c in all && c.entry.System? == systems && Survives(x, base, c) && r == Adopted(c))
  {
    hide Survives, Adopted, FlatMap;
    SurvivorRow(x, base, systems, all, r);
    if e :| e in release && r == Row(e, None) {
      var i :| 0 <= i < |release| && release[i] == e;
      assert ReleaseRows(release)[i] == r;
    }
    if r in ReleaseRows(release) {
      var i :| 0 <= i < |release| && ReleaseRows(release)[i] == r;
      assert release[i] in release;
    }
  }

  lemma BeforeMembers(base: Base, cs: seq<Contributor>, r: Row)
    ensures r in Before(base, cs) <==>
      || (exists e :: e in base.systems && r == Row(e, None))
      || (exists c ::
            c in Candidates(cs) && c.entry.System? && Survives(ContextOf(base, cs), base, c) && r == Adopted(c))
  {
    TableMembers(ContextOf(base, cs), base, true, base.systems, Candidates(cs), r);
  }

  lemma CoresMembers(base: Base, cs: seq<Contributor>, r: Row)
    ensures r in Cores(base, cs) <==>
      || (exists e :: e in base.cores && r == Row(e, None))
      || (exists c ::
            c in Candidates(cs) && !c.entry.System? && Survives(ContextOf(base, cs), base, c) && r == Adopted(c))
  {
    TableMembers(ContextOf(base, cs), base, false, base.cores, Candidates(cs), r);
  }

  lemma AdoptedStands(base: Base, cs: seq<Contributor>, c: Candidate, r: Row)
    requires c in Candidates(cs) && Survives(ContextOf(base, cs), base, c)
    requires r.provider == Adopted(c).provider && ClaimSet(r.entry) == ClaimSet(Adopted(c).entry)
    ensures Stands(base, cs, r)
  {
    hide ClaimSet, RefusedEarly, Candidates, Adopted, Survives;
    AdoptedKeeps(c);
    SurvivesEarly(ContextOf(base, cs), base, c);
  }

  lemma RowStands(base: Base, cs: seq<Contributor>, catalog: Catalog, diagnostics: seq<Diagnostic>, r: Row)
    requires ValidInput(base, cs) && IsMerge(base, cs, catalog, diagnostics)
    requires r in catalog.systems || r in catalog.cores
    ensures Stands(base, cs, r)
  {
    hide *;
    hide Stands;
    CatalogRows(base, cs, catalog, diagnostics);
    if r in catalog.systems { SystemStands(base, cs, catalog.systems, r); }
    else { CoreStands(base, cs, catalog.cores, r); }
  }

  lemma SystemStands(base: Base, cs: seq<Contributor>, systems: seq<Row>, r: Row)
    requires AllSystems(Before(base, cs)) && ExtendedTo(Before(base, cs), Extensions(cs), Available(base, cs), systems)
    requires r in systems
    ensures Stands(base, cs, r)
  {
    hide ClaimSet, RefusedEarly, Candidates, Adopted, Survives, Before, Fold, RowAfter, Extensions, Available;
    var es, ids := Extensions(cs), Available(base, cs);
    var q :| q in Before(base, cs) && r == RowAfter(q, es, ids);
    RowAfterKeeps(q, es, ids);
    BeforeMembers(base, cs, q);
    if c :| c in Candidates(cs) && c.entry.System? && Survives(ContextOf(base, cs), base, c) && q == Adopted(c) {
      AdoptedStands(base, cs, c, r);
    }
  }

  lemma CoreStands(base: Base, cs: seq<Contributor>, cores: seq<Row>, r: Row)
    requires Permuted(cores, Cores(base, cs)) && r in cores
    ensures Stands(base, cs, r)
  {
    hide ClaimSet, RefusedEarly, Candidates, Adopted, Survives, Cores, Fold;
    PermutedMembers(cores, Cores(base, cs));
    CoresMembers(base, cs, r);
    if c :| c in Candidates(cs) && !c.entry.System? && Survives(ContextOf(base, cs), base, c) && r == Adopted(c) {
      AdoptedStands(base, cs, c, r);
    }
  }

  /** No two output rows of different owners share a case-folded claim. */
  lemma OwnersShareNoClaim(base: Base, cs: seq<Contributor>, catalog: Catalog, diagnostics: seq<Diagnostic>, r: Row,
                           s: Row)
    requires ValidInput(base, cs) && IsMerge(base, cs, catalog, diagnostics)
    requires r in catalog.systems || r in catalog.cores
    requires s in catalog.systems || s in catalog.cores
    requires r.provider != s.provider
    ensures ClaimSet(r.entry) !! ClaimSet(s.entry)
  {
    hide *;
    RowStands(base, cs, catalog, diagnostics, r);
    RowStands(base, cs, catalog, diagnostics, s);
    StandingApart(base, cs, r, s);
  }

  lemma StandingApart(base: Base, cs: seq<Contributor>, r: Row, s: Row)
    requires Stands(base, cs, r) && Stands(base, cs, s) && r.provider != s.provider
    ensures ClaimSet(r.entry) !! ClaimSet(s.entry)
    decreases r.provider.None?
  {
    hide ClaimSet, Candidates, BaseClaims, BaseHit, Contested;
    var x := ContextOf(base, cs);
    if r.provider.None? {
      StandingApart(base, cs, s, r);
    } else {
      var c :| c in Candidates(cs) && r.provider == Some(c.provider)
        && ClaimSet(r.entry) == ClaimSet(c.entry) && !RefusedEarly(x, c);
      if s.provider.None? {
        var e :| (e in base.systems || e in base.cores) && ClaimSet(s.entry) == ClaimSet(e);
        SurvivorVersusRelease(base, cs, c, e);
      } else {
        var d :| d in Candidates(cs) && s.provider == Some(d.provider)
          && ClaimSet(s.entry) == ClaimSet(d.entry) && !RefusedEarly(x, d);
        SurvivorsDisjoint(x, c, d);
      }
    }
  }

  // ---------------------------------------------------------------- who survives

  /** The copies of two different candidates of one kind differ. */
  lemma AdoptedTellsApart(base: Base, cs: seq<Contributor>, c: Candidate, d: Candidate)
    requires ValidInput(base, cs) && c in Candidates(cs) && d in Candidates(cs)
    requires Adopted(c).provider == Adopted(d).provider && IdClaim(Adopted(c).entry) == IdClaim(Adopted(d).entry)
    ensures c == d
  {
    hide Fold, Adopted, ValidInput, Candidates, IdClaim;
    AdoptedKeeps(c); AdoptedKeeps(d);
    OwnIdsDistinct(base, cs, c, d);
  }

  /** A contributed core is in the catalog exactly when its claims are its own. */
  lemma CoreKeptIff(base: Base, cs: seq<Contributor>, catalog: Catalog, diagnostics: seq<Diagnostic>, c: Candidate)
    requires ValidInput(base, cs) && IsMerge(base, cs, catalog, diagnostics)
    requires c in Candidates(cs) && c.entry.Core?
    ensures Adopted(c) in catalog.cores <==> Unclaimed(base, cs, c)
  {
    hide Fold, Adopted, ValidInput, Candidates, RefusedEarly, Unclaimed, IsMerge, ContextOf, Cores;
    CatalogRows(base, cs, catalog, diagnostics);
    PermutedMembers(catalog.cores, Cores(base, cs));
    UnclaimedIff(base, cs, c);
    CoresMembers(base, cs, Adopted(c));
    AdoptedKeeps(c);
    forall d | d in Candidates(cs) && Adopted(c) == Adopted(d) ensures c == d { AdoptedTellsApart(base, cs, c, d); }
  }

  lemma AvailableListed(base: Base, cs: seq<Contributor>, catalog: Catalog, diagnostics: seq<Diagnostic>, name: string)
    requires ValidInput(base, cs) && IsMerge(base, cs, catalog, diagnostics)
    ensures Fold(name) in Available(base, cs) <==> exists k :: k in catalog.cores && Fold(k.entry.id) == Fold(name)
  {
    hide Fold, Adopted, ValidInput, Candidates, IsMerge, ContextOf, Cores, Available, Survives;
    CatalogRows(base, cs, catalog, diagnostics);
    PermutedMembers(catalog.cores, Cores(base, cs));
    if Fold(name) in Available(base, cs) {
      AvailableHasRow(base, cs, name);
    }
    forall k | k in catalog.cores && Fold(k.entry.id) == Fold(name) ensures Fold(name) in Available(base, cs) {
      RowIsAvailable(base, cs, k);
    }
  }

  lemma AvailableHasRow(base: Base, cs: seq<Contributor>, name: string)
    requires ValidInput(base, cs) && Fold(name) in Available(base, cs)
    ensures exists k :: k in Cores(base, cs) && Fold(k.entry.id) == Fold(name)
  {
    hide Fold, Adopted, Candidates, RefusedEarly, Cores;
    var x := ContextOf(base, cs);
    if e :| e in base.cores && Fold(e.id) == Fold(name) {
      CoresMembers(base, cs, Row(e, None));
    } else {
      var c :| c in x.all && c.entry.Core? && !RefusedEarly(x, c) && Fold(c.entry.id) == Fold(name);
      CoresMembers(base, cs, Adopted(c));
      AdoptedKeeps(c);
    }
  }

  lemma RowIsAvailable(base: Base, cs: seq<Contributor>, k: Row)
    requires k in Cores(base, cs)
    ensures Fold(k.entry.id) in Available(base, cs)
  {
    hide Fold, Adopted, Candidates, RefusedEarly, Cores;
    CoresMembers(base, cs, k);
    if c :| c in Candidates(cs) && !c.entry.System? && Survives(ContextOf(base, cs), base, c) && k == Adopted(c) {
      AdoptedKeeps(c);
    }
  }

  /** The row of a candidate, whatever the extensions made of its alternates. */
  ghost predicate RowOf(r: Row, q: Row) {
    && r.provider == q.provider && r.entry.System? && q.entry.System?
    && r.entry.(alternates := None) == q.entry.(alternates := None)
    && Listed(q.entry.alternates) <= Listed(r.entry.alternates)
  }

  /** A contributed system additionally needs its default core in the same catalog. */
  lemma SystemKeptIff(base: Base, cs: seq<Contributor>, catalog: Catalog, diagnostics: seq<Diagnostic>, c: Candidate)
    requires ValidInput(base, cs) && IsMerge(base, cs, catalog, diagnostics)
    requires c in Candidates(cs) && c.entry.System?
    ensures (exists r :: r in catalog.systems && RowOf(r, Adopted(c))) <==>
      && Unclaimed(base, cs, c)
      && exists k :: k in catalog.cores && Fold(k.entry.id) == Fold(c.entry.defaultCore)
  {
    hide Fold, Adopted, ValidInput, Candidates, RefusedEarly, Unclaimed, IsMerge, ContextOf, Before, RowOf, CoreIds;
    CatalogRows(base, cs, catalog, diagnostics);
    UnclaimedIff(base, cs, c);
    AvailableListed(base, cs, catalog, diagnostics, c.entry.defaultCore);
    SystemRowIff(base, cs, catalog.systems, c);
  }

  lemma SystemRowIff(base: Base, cs: seq<Contributor>, systems: seq<Row>, c: Candidate)
    requires ValidInput(base, cs) && c in Candidates(cs) && c.entry.System?
    requires AllSystems(Before(base, cs)) && ExtendedTo(Before(base, cs), Extensions(cs), Available(base, cs), systems)
    ensures (exists r :: r in systems && RowOf(r, Adopted(c))) <==> Survives(ContextOf(base, cs), base, c)
  {
    hide Fold, Adopted, ValidInput, Candidates, Survives, ContextOf, Before, RowAfter, Extensions, Available;
    var es, ids := Extensions(cs), Available(base, cs);
    if Survives(ContextOf(base, cs), base, c) {
      BeforeMembers(base, cs, Adopted(c));
      RowAfterIsRowOf(Adopted(c), es, ids);
    }
    forall r | r in systems && RowOf(r, Adopted(c)) ensures Survives(ContextOf(base, cs), base, c) {
      var q :| q in Before(base, cs) && r == RowAfter(q, es, ids);
      RowAfterKeeps(q, es, ids);
      BeforeMembers(base, cs, q);
      AdoptedKeeps(c);
      var d :| d in Candidates(cs) && d.entry.System? && Survives(ContextOf(base, cs), base, d) && q == Adopted(d);
      AdoptedTellsApart(base, cs, c, d);
    }
  }

  // ---------------------------------------------------------------- release rows and alternates

  lemma {:induction false} AddNamesMembers(alternates: seq<string>, names: seq<string>, ids: set<string>)
    ensures var r := AddNames(alternates, names, ids);
      && alternates <= r
      && (forall n | n in r[|alternates|..] :: n in names && Fold(n) in ids)
      && (forall n | n in names && Fold(n) in ids :: ContainsFolded(r, n))
    decreases |names|
  {
    hide Fold, ContainsFolded;
    if names != [] {
      var init, name := names[..|names| - 1], names[|names| - 1];
      AddNamesMembers(alternates, init, ids);
      var before := AddNames(alternates, init, ids);
      forall n ensures ContainsFolded(before + [name], n) <==> ContainsFolded(before, n) || ContainsFolded([name], n) {
        ContainsFoldedSplit(before, [name], n);
      }
      ContainsItself(name);
      assert names == init + [name];
      assert (before + [name])[|alternates|..] == before[|alternates|..] + [name];
    }
  }

  lemma ContainsItself(name: string)
    ensures ContainsFolded([name], name)
  {
    assert Fold([name][0]) == Fold(name);
  }

  lemma RowAfterIsRowOf(q: Row, es: seq<Sourced>, ids: set<string>)
    requires q.entry.System?
    ensures RowOf(RowAfter(q, es, ids), q)
  {
    hide Fold, AddNames, NamesFor;
    AddNamesMembers(Listed(q.entry.alternates), NamesFor(es, q.entry.id), ids);
  }

  /** Release rows all survive, their old alternates first and in the old order; release cores survive untouched. */
  lemma ReleaseSurvives(base: Base, cs: seq<Contributor>, catalog: Catalog, diagnostics: seq<Diagnostic>, e: Entry)
    requires ValidInput(base, cs) && IsMerge(base, cs, catalog, diagnostics)
    ensures e in base.systems ==> exists r :: r in catalog.systems && RowOf(r, Row(e, None))
    ensures e in base.cores ==> Row(e, None) in catalog.cores
  {
    hide Fold, Candidates, IsMerge, ContextOf, Before, Cores, RowAfter, RowOf, Survives, Extensions, Available;
    CatalogRows(base, cs, catalog, diagnostics);
    PermutedMembers(catalog.cores, Cores(base, cs));
    CoresMembers(base, cs, Row(e, None));
    BeforeMembers(base, cs, Row(e, None));
    if e in base.systems {
      RowAfterIsRowOf(Row(e, None), Extensions(cs), Available(base, cs));
    }
  }

  /** Somebody's extension of system `id` names core `n`. */
  ghost predicate AskedFor(cs: seq<Contributor>, id: string, n: string) {
    exists c, e :: c in cs && e in c.extensions && Fold(e.systemId) == Fold(id) && n in e.addCores
  }

  /** The alternates a row held when it was offered. */
  ghost predicate Original(base: Base, cs: seq<Contributor>, r: Row, alternates: seq<string>) {
    || (r.provider.None? && exists e ::
      e in base.systems && e.System? && e.id == r.entry.id && alternates == Listed(e.alternates))
    || (exists c :: c in Candidates(cs) && c.entry.System? && r.provider == Some(c.provider) && c.entry.id == r.entry.id
          && alternates == Listed(c.entry.alternates))
  }

  /**
   * Added alternates were asked for and name cores of this catalog; and whatever was asked for and exists is listed.
   */
  lemma AlternatesAreCores(base: Base, cs: seq<Contributor>, catalog: Catalog, diagnostics: seq<Diagnostic>, r: Row)
    requires ValidInput(base, cs) && IsMerge(base, cs, catalog, diagnostics) && r in catalog.systems
    ensures r.entry.System?
    ensures exists p ::
      && Original(base, cs, r, p) && p <= Listed(r.entry.alternates)
      && forall n | n in Listed(r.entry.alternates)[|p|..] ::
           AskedFor(cs, r.entry.id, n) && exists k :: k in catalog.cores && Fold(k.entry.id) == Fold(n)
    ensures forall n, k | AskedFor(cs, r.entry.id, n) && k in catalog.cores && Fold(k.entry.id) == Fold(n) ::
      ContainsFolded(Listed(r.entry.alternates), n)
  {
    hide *;
    CatalogRows(base, cs, catalog, diagnostics);
    forall n ensures Fold(n) in Available(base, cs) <==> exists k :: k in catalog.cores && Fold(k.entry.id) == Fold(n) {
      AvailableListed(base, cs, catalog, diagnostics, n);
    }
    ExtendedAlternates(base, cs, catalog.systems, r);
  }

  lemma ExtendedAlternates(base: Base, cs: seq<Contributor>, systems: seq<Row>, r: Row)
    requires AllSystems(Before(base, cs)) && ExtendedTo(Before(base, cs), Extensions(cs), Available(base, cs), systems)
    requires r in systems
    ensures r.entry.System?
    ensures exists p ::
      && Original(base, cs, r, p) && p <= Listed(r.entry.alternates)
      && forall n | n in Listed(r.entry.alternates)[|p|..] ::
        AskedFor(cs, r.entry.id, n) && Fold(n) in Available(base, cs)
    ensures forall n | AskedFor(cs, r.entry.id, n) && Fold(n) in Available(base, cs) ::
      ContainsFolded(Listed(r.entry.alternates), n)
  {
    hide Fold, Before, RowAfter, Extensions, Available, Original, AskedFor, ContainsFolded;
    var es, ids := Extensions(cs), Available(base, cs);
    var q :| q in Before(base, cs) && r == RowAfter(q, es, ids);
    RowAfterKeeps(q, es, ids);
    OriginalOf(base, cs, q, r);
    RowAlternates(cs, q, es, ids);
  }

  lemma OriginalOf(base: Base, cs: seq<Contributor>, q: Row, r: Row)
    requires q in Before(base, cs) && q.entry.System? && r.provider == q.provider && r.entry.id == q.entry.id
    ensures Original(base, cs, r, Listed(q.entry.alternates))
  {
    hide Fold, Before, Survives, Candidates, Cleared;
    BeforeMembers(base, cs, q);
  }

  lemma RowAlternates(cs: seq<Contributor>, q: Row, es: seq<Sourced>, ids: set<string>)
    requires q.entry.System? && es == Extensions(cs)
    ensures var old_, now := Listed(q.entry.alternates), Listed(RowAfter(q, es, ids).entry.alternates);
      && old_ <= now
      && (forall n | n in now[|old_|..] :: AskedFor(cs, q.entry.id, n) && Fold(n) in ids)
      && (forall n | AskedFor(cs, q.entry.id, n) && Fold(n) in ids :: ContainsFolded(now, n))
  {
    hide Fold, AddNames, NamesFor, Touched, AskedFor, ContainsFolded, Extensions;
    AddNamesMembers(Listed(q.entry.alternates), NamesFor(es, q.entry.id), ids);
    forall n
      ensures n in NamesFor(es, q.entry.id) <==> AskedFor(cs, q.entry.id, n)
    {
      WantedIffAsked(cs, q.entry.id, n);
    }
    if !Touched(es, q.entry.id) { Untouched(es, q.entry.id); }
  }

  lemma WantedIffAsked(cs: seq<Contributor>, id: string, n: string)
    ensures n in NamesFor(Extensions(cs), id) <==> AskedFor(cs, id, n)
  {
    hide Fold, FlatMap;
    var es := Extensions(cs);
    FlatMapMembers(Wanted(id), es, n);
    forall s ensures s in es <==> exists c :: c in cs && s in Extends(c) {
      FlatMapMembers(Extends, cs, s);
    }
    if c, e :| c in cs && e in c.extensions && Fold(e.systemId) == Fold(id) && n in e.addCores {
      var i :| 0 <= i < |c.extensions| && c.extensions[i] == e;
      assert Extends(c)[i] == Sourced(c.provider, e);
      assert n in Wanted(id)(Sourced(c.provider, e));
    }
    if s :| s in es && n in Wanted(id)(s) {
      var c :| c in cs && s in Extends(c);
      assert s.extension in c.extensions;
    }
  }

  // ---------------------------------------------------------------- forbidden fields

  /** What only the release may say about a system or core. */
  predicate ReleaseOnly(key: string) {
    key == "status" || key == "requires_direct_drm" || key == "legacy_flat_core" || key == "name_map"
  }

  lemma ForbiddenIff(key: string)
    ensures Forbidden(key) <==> ReleaseOnly(key)
  {
  }

  /** No such key at any depth. */
  ghost predicate Clean(v: Value)
    decreases v
  {
    match v
    case Arr(items) => forall x | x in items :: Clean(x)
    case Obj(ms) => forall m | m in ms :: !ReleaseOnly(m.key) && Clean(m.value)
    case _ => true
  }

  lemma {:induction false} ClearedIsClean(v: Value)
    ensures Clean(Cleared(v))
    ensures Clean(v) ==> Cleared(v) == v
    decreases v, 1, 0
  {
    match v {
      case Arr(items) => ClearedItemsClean(v, items);
      case Obj(ms) => ClearedMembersClean(v, ms);
      case _ =>
    }
  }

  lemma {:induction false} ClearedItemsClean(v: Value, rest: seq<Value>)
    requires v.Arr? && forall x | x in rest :: x in v.items
    ensures forall x | x in ClearedItems(v, rest) :: Clean(x)
    ensures (forall x | x in rest :: Clean(x)) ==> ClearedItems(v, rest) == rest
    decreases v, 0, |rest|
  {
    if rest != [] {
      ElementIsSmaller(v, rest[0]);
      ClearedIsClean(rest[0]);
      ClearedItemsClean(v, rest[1..]);
      assert rest == [rest[0]] + rest[1..];
    }
  }

  lemma {:induction false} ClearedMembersClean(v: Value, rest: seq<Member>)
    requires v.Obj? && forall m | m in rest :: m in v.members
    ensures forall m | m in ClearedMembers(v, rest) :: !ReleaseOnly(m.key) && Clean(m.value)
    ensures (forall m | m in rest :: !ReleaseOnly(m.key) && Clean(m.value)) ==> ClearedMembers(v, rest) == rest
    decreases v, 0, |rest|
  {
    hide Forbidden, ReleaseOnly;
    if rest != [] {
      ForbiddenIff(rest[0].key);
      MemberIsSmaller(v, rest[0]);
      ClearedIsClean(rest[0].value);
      ClearedMembersClean(v, rest[1..]);
      assert rest == [rest[0]] + rest[1..];
    }
  }

  /** The members that stay are those with an allowed key, cleared below. */
  lemma {:induction false} ClearedKeeps(v: Value, rest: seq<Member>, m: Member)
    requires v.Obj? && forall n | n in rest :: n in v.members
    ensures m in ClearedMembers(v, rest) <==>
      exists n :: n in rest && !ReleaseOnly(n.key) && m == Member(n.key, Cleared(n.value))
    decreases |rest|
  {
    hide Forbidden, ReleaseOnly, Cleared;
    if rest != [] {
      ForbiddenIff(rest[0].key);
      MemberIsSmaller(v, rest[0]);
      ClearedKeeps(v, rest[1..], m);
      assert rest == [rest[0]] + rest[1..];
    }
  }

  /** And they stay in their order. */
  lemma {:induction false} ClearedInOrder(v: Value, a: seq<Member>, b: seq<Member>)
    requires v.Obj? && (forall n | n in a :: n in v.members) && forall n | n in b :: n in v.members
    ensures ClearedMembers(v, a + b) == ClearedMembers(v, a) + ClearedMembers(v, b)
    decreases |a|
  {
    hide Forbidden, Cleared;
    if a == [] {
      assert a + b == b;
    } else {
      MemberIsSmaller(v, a[0]);
      assert (a + b)[0] == a[0] && (a + b)[1..] == a[1..] + b;
      ClearedInOrder(v, a[1..], b);
    }
  }

  /** Every array element stays in its place, cleared below. */
  lemma {:induction false} ClearedElementwise(v: Value, rest: seq<Value>, i: nat)
    requires v.Arr? && (forall x | x in rest :: x in v.items) && i < |rest|
    ensures ClearedItems(v, rest)[i] == Cleared(rest[i])
    decreases |rest|
  {
    ElementIsSmaller(v, rest[0]);
    if i > 0 { ClearedElementwise(v, rest[1..], i - 1); }
  }

  /**
   * What a contributor may not set is gone at every depth, what it may set stays, and a core gets the two fixed fields.
   */
  lemma AdoptedIsClean(c: Candidate)
    ensures var r := Adopted(c).entry.extra;
      var fixed := [Member("status", Str("packaged")), Member("requires_direct_drm", Bool(false))];
      if c.entry.Core? && c.entry.extra.Obj?
      then r.Obj? && exists kept :: r.members == kept + fixed && Clean(Obj(kept)) && Obj(kept) == Cleared(c.entry.extra)
      else r == Cleared(c.entry.extra) && Clean(r)
  {
    hide Forbidden, ReleaseOnly;
    ClearedIsClean(c.entry.extra);
  }
}
