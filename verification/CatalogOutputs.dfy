/** `jw_cat__merge_outputs`: the merge and then the art pass, over the same contributors. */
module CatalogOutputs {
  import opened Wrappers
  import opened CStrings
  import opened Sorting
  import opened CanonicalJson
  import opened MergeModel
  import opened MergeProofs
  import opened MergeExtensions
  import opened MergeConfluence
  import opened MergeOrder
  import opened ArtPass
  import CatalogMerge
  import MergeSoundness

  /** One installed contributor: its document and its art block. */
  datatype Pack = Pack(contributor: Contributor, art: seq<ArtEntry>)

  function Map<T, U>(f: T -> U, s: seq<T>): (r: seq<U>)
    ensures |r| == |s| && forall i | 0 <= i < |s| :: r[i] == f(s[i])
  {
    seq(|s|, i requires 0 <= i < |s| => f(s[i]))
  }

  function ContributorOf(p: Pack): Contributor {
    p.contributor
  }

  function ArtistOf(p: Pack): Artist {
    Artist(p.contributor.provider, p.contributor.extensions, p.art)
  }

  function Contributors(packs: seq<Pack>): seq<Contributor> {
    Map(ContributorOf, packs)
  }

  function Artists(packs: seq<Pack>): seq<Artist> {
    Map(ArtistOf, packs)
  }

  /** The system rows as tiles; which art a row brings along is read from the fields the merge only copies. */
  function TilesOf(rows: seq<Row>, slotsOf: Value -> seq<Option<Slot>>): seq<Tile> {
    seq(|rows|, i requires 0 <= i < |rows| => Tile(rows[i], slotsOf(rows[i].entry.extra)))
  }

  predicate NoLowerLetters(s: string) {
    forall i | 0 <= i < |s| :: !('a' <= s[i] <= 'z')
  }

  /** Validated documents: upper-case system ids, lower-case core ids, three paths in an art entry. */
  ghost predicate ValidPacks(base: Base, packs: seq<Pack>) {
    && ValidInput(base, Contributors(packs))
    && (forall e | e in base.systems :: NoLowerLetters(e.id))
    && forall p | p in packs ::
      && LowerContributor(p.contributor)
      && (forall e | e in p.contributor.systems :: NoLowerLetters(e.id))
      && (forall e | e in p.art :: NoLowerLetters(e.id) && |e.paths| == SLOTS)
  }

  lemma FoldTellsApart(a: string, b: string)
    requires NoLowerLetters(a) && NoLowerLetters(b) && Fold(a) == Fold(b)
    ensures a == b
  {
    assert |Fold(a)| == |a| && |Fold(b)| == |b|;
    forall i | 0 <= i < |a| ensures a[i] == b[i] {
      assert Fold(a)[i] == FoldChar(a[i]) && Fold(b)[i] == FoldChar(b[i]);
    }
  }

  lemma MergedIds(base: Base, packs: seq<Pack>, systems: seq<Row>, r: Row)
    requires ValidPacks(base, packs) && AllSystems(Before(base, Contributors(packs))) && r in systems
    requires ExtendedTo(Before(base, Contributors(packs)),
      Extensions(Contributors(packs)), Available(base, Contributors(packs)), systems)
    ensures r.entry.System? && NoLowerLetters(r.entry.id)
  {
    hide Fold, Candidates, Survives, Adopted, Before, RowAfter,
      Extensions, Available, NoLowerLetters, ValidInput, ClaimSet;
    var cs := Contributors(packs);
    var q :| q in Before(base, cs) && r == RowAfter(q, Extensions(cs), Available(base, cs));
    RowAfterKeeps(q, Extensions(cs), Available(base, cs));
    MergeSoundness.BeforeMembers(base, cs, q);
    if c :| c in Candidates(cs) && c.entry.System? && Survives(ContextOf(base, cs), base, c) && q == Adopted(c) {
      AdoptedKeeps(c);
      CandidateFrom(cs, c);
      var k :| k in cs && c.provider == k.provider && (c.entry in k.systems || c.entry in k.cores);
      CandidateIsSystem(base, packs, c, k);
    }
  }

  lemma CandidateIsSystem(base: Base, packs: seq<Pack>, c: Candidate, k: Contributor)
    requires ValidPacks(base, packs) && k in Contributors(packs) && c.entry.System?
    requires c.entry in k.systems || c.entry in k.cores
    ensures NoLowerLetters(c.entry.id)
  {
    hide Fold, NoLowerLetters, DistinctIds, LowerContributor;
    var i :| 0 <= i < |packs| && packs[i].contributor == k;
    assert packs[i] in packs;
  }

  /** What the merge hands on is what the art pass needs. */
  lemma MergedWellformed(base: Base, packs: seq<Pack>, slotsOf: Value -> seq<Option<Slot>>, catalog: Catalog,
                         diagnostics: seq<Diagnostic>)
    requires ValidPacks(base, packs) && IsMerge(base, Contributors(packs), catalog, diagnostics)
    requires forall v :: |slotsOf(v)| == SLOTS
    ensures Wellformed(TilesOf(catalog.systems, slotsOf), Artists(packs))
    ensures SystemTiles(TilesOf(catalog.systems, slotsOf)) && AllSystems(Rows(TilesOf(catalog.systems, slotsOf)))
    ensures Rows(TilesOf(catalog.systems, slotsOf)) == catalog.systems
  {
    hide Fold, IsMerge, ValidPacks, Before, Extensions, Available, ExtendedTo, NoLowerLetters, SortedBy;
    var tiles := TilesOf(catalog.systems, slotsOf);
    assert ValidInput(base, Contributors(packs)) by { InputOf(base, packs); }
    CatalogRows(base, Contributors(packs), catalog, diagnostics);
    forall r | r in catalog.systems ensures r.entry.System? && NoLowerLetters(r.entry.id) {
      MergedIds(base, packs, catalog.systems, r);
    }
    forall t | t in tiles ensures t.row in catalog.systems && |t.slots| == SLOTS {
    }
    forall a, e | a in Artists(packs) && e in a.art ensures |e.paths| == SLOTS && NoLowerLetters(e.id) {
      ArtIsValid(base, packs, a, e);
    }
    forall a, e, t | a in Artists(packs) && e in a.art && t in tiles && Fold(e.id) == Fold(t.row.entry.id)
      ensures e.id == t.row.entry.id
    {
      FoldTellsApart(e.id, t.row.entry.id);
    }
  }

  lemma InputOf(base: Base, packs: seq<Pack>)
    requires ValidPacks(base, packs)
    ensures ValidInput(base, Contributors(packs)) && LowerCaseNames(Extensions(Contributors(packs)))
    ensures forall c | c in Contributors(packs) :: LowerContributor(c)
  {
    hide ValidInput, LowerContributor, LowerCaseNames, NoLowerLetters, Extensions;
    forall c | c in Contributors(packs) ensures LowerContributor(c) {
      var i :| 0 <= i < |packs| && packs[i].contributor == c;
      assert packs[i] in packs;
    }
    LowerExtensions(Contributors(packs));
  }

  lemma ArtIsValid(base: Base, packs: seq<Pack>, a: Artist, e: ArtEntry)
    requires ValidPacks(base, packs) && a in Artists(packs) && e in a.art
    ensures |e.paths| == SLOTS && NoLowerLetters(e.id)
  {
    hide ValidInput, LowerContributor, NoLowerLetters;
    var i :| 0 <= i < |packs| && ArtistOf(packs[i]) == a;
    assert packs[i] in packs;
  }

  /** The tiles and reports that the art pass makes of a merge; sorted reports, whatever the sorting algorithm. */
  ghost predicate IsArtOf(catalog: Catalog, merged: seq<Diagnostic>, packs: seq<Pack>,
                          slotsOf: Value -> seq<Option<Slot>>,
                          tiles: seq<Tile>, reports: seq<Diagnostic>) {
    var before, offers := TilesOf(catalog.systems, slotsOf), Offers(Artists(packs));
    && SystemTiles(before) && AllSystems(Rows(before)) && FilledTiles(before, tiles, catalog.cores, offers, offers)
    && SortedBy(reports, DiagnosticLe)
    && Permuted(reports, merged + FlatMap(Reported(Rows(before), catalog.cores, offers), offers))
  }

  /** What one compilation delivers: tiles, cores and reports. */
  ghost predicate IsOutput(base: Base, packs: seq<Pack>, slotsOf: Value -> seq<Option<Slot>>,
                           tiles: seq<Tile>, cores: seq<Row>, reports: seq<Diagnostic>) {
    exists catalog, merged ::
      IsMerge(base, Contributors(packs), catalog, merged) && cores == catalog.cores
        && IsArtOf(catalog, merged, packs, slotsOf, tiles, reports)
  }

  lemma Typed(base: Base, packs: seq<Pack>)
    requires ValidPacks(base, packs)
    ensures CatalogMerge.Typed(base, Contributors(packs))
  {
    hide DistinctIds, LowerContributor, NoLowerLetters, Fold;
  }

  method CompileCatalog(base: Base, packs: seq<Pack>, slotsOf: Value -> seq<Option<Slot>>)
    returns (tiles: seq<Tile>, cores: seq<Row>, reports: seq<Diagnostic>)
    requires ValidPacks(base, packs) && forall v :: |slotsOf(v)| == SLOTS
    ensures IsOutput(base, packs, slotsOf, tiles, cores, reports)
  {
    hide IsMerge, ValidPacks, Wellformed, FilledTiles, Contributors, Artists, Offers, TilesOf;
    Typed(base, packs);
    var catalog, merged, passes := CatalogMerge.Merge(base, Contributors(packs));
    MergedWellformed(base, packs, slotsOf, catalog, merged);
    cores := catalog.cores;
    tiles, reports := ApplyArt(TilesOf(catalog.systems, slotsOf), cores, Artists(packs), merged);
    assert IsArtOf(catalog, merged, packs, slotsOf, tiles, reports);
  }

  // ---------------------------------------------------------------- any order

  lemma {:induction false} MapIsFlatMap<T, U>(f: T -> U, g: T -> seq<U>, s: seq<T>)
    requires forall x :: g(x) == [f(x)]
    ensures Map(f, s) == FlatMap(g, s)
    decreases |s|
  {
    if s != [] {
      MapIsFlatMap(f, g, s[..|s| - 1]);
      assert Map(f, s) == Map(f, s[..|s| - 1]) + [f(s[|s| - 1])];
    }
  }

  lemma MapPermuted<T, U>(f: T -> U, s: seq<T>, t: seq<T>)
    requires Permuted(s, t)
    ensures Permuted(Map(f, s), Map(f, t))
  {
    var g := (x: T) => [f(x)];
    MapIsFlatMap(f, g, s);
    MapIsFlatMap(f, g, t);
    FlatMapPermuted(g, s, t);
  }

  lemma SameTilesOf(a: seq<Row>, b: seq<Row>, slotsOf: Value -> seq<Option<Slot>>)
    requires |a| == |b| && forall i | 0 <= i < |a| :: SameButOrder(a[i], b[i])
    ensures SameTiles(TilesOf(a, slotsOf), TilesOf(b, slotsOf))
  {
    forall i | 0 <= i < |a| ensures slotsOf(a[i].entry.extra) == slotsOf(b[i].entry.extra) { SameExtra(a[i], b[i]); }
  }

  lemma SameExtra(a: Row, b: Row)
    requires SameButOrder(a, b)
    ensures a.entry.extra == b.entry.extra
  {
    assert a.(entry := a.entry.(alternates := None)).entry.extra == a.entry.extra;
    assert b.(entry := b.entry.(alternates := None)).entry.extra == b.entry.extra;
  }

  lemma ArtsAgree(catalog: Catalog, catalog': Catalog, merged: seq<Diagnostic>, packs: seq<Pack>, packs': seq<Pack>,
                  slotsOf: Value -> seq<Option<Slot>>,
                    a: seq<Tile>, da: seq<Diagnostic>, b: seq<Tile>, db: seq<Diagnostic>)
    requires Permuted(packs, packs') && catalog.cores == catalog'.cores
    requires SameTiles(TilesOf(catalog.systems, slotsOf), TilesOf(catalog'.systems, slotsOf))
    requires IsArtOf(catalog, merged, packs, slotsOf, a, da) && IsArtOf(catalog', merged, packs', slotsOf, b, db)
    ensures SameTiles(a, b) && da == db
    ensures catalog == catalog' ==> a == b
  {
    hide SameTiles, SortedBy, TilesOf, FilledTile, Reported, Offers, Artists;
    ArtistsPermuted(packs, packs');
    ArtConfluent(TilesOf(catalog.systems, slotsOf),
      TilesOf(catalog'.systems, slotsOf), catalog.cores, Artists(packs), Artists(packs'),
      merged, a, da, b, db);
    if catalog == catalog' {
      SameFilled(TilesOf(catalog.systems, slotsOf), catalog.cores,
        Offers(Artists(packs)), Offers(Artists(packs')), a, b);
    }
  }

  lemma SameFilled(before: seq<Tile>, cores: seq<Row>, o: seq<Offer>, o': seq<Offer>, a: seq<Tile>, b: seq<Tile>)
    requires SystemTiles(before) && FilledTiles(before, a, cores, o, o) && FilledTiles(before, b, cores, o', o')
    requires SameTiles(a, b)
    ensures a == b
  {
    hide Claims, SameButOrder;
    forall i | 0 <= i < |before| ensures a[i] == b[i] {
      assert a[i].row == before[i].row && b[i].row == before[i].row;
    }
  }

  lemma OutputOf(base: Base, packs: seq<Pack>, slotsOf: Value -> seq<Option<Slot>>,
                 tiles: seq<Tile>, cores: seq<Row>, reports: seq<Diagnostic>)
    returns (catalog: Catalog, merged: seq<Diagnostic>)
    requires IsOutput(base, packs, slotsOf, tiles, cores, reports)
    ensures IsMerge(base, Contributors(packs), catalog, merged) && cores == catalog.cores
    ensures IsArtOf(catalog, merged, packs, slotsOf, tiles, reports)
  {
    hide IsMerge, IsArtOf, Contributors;
    catalog, merged :|
      IsMerge(base, Contributors(packs), catalog, merged) && cores == catalog.cores
        && IsArtOf(catalog, merged, packs, slotsOf, tiles, reports);
  }

  lemma ArtistsPermuted(packs: seq<Pack>, packs': seq<Pack>)
    requires Permuted(packs, packs')
    ensures Permuted(Artists(packs), Artists(packs')) && Permuted(Contributors(packs), Contributors(packs'))
  {
    MapPermuted(ArtistOf, packs, packs');
    MapPermuted(ContributorOf, packs, packs');
  }

  /**
   * Merge and art pass together, in any order of the contributors: the same reports, cores and art, the same systems up
   * to the order of added alternates; and the same tiles altogether when the contributors agree on what comes first.
   */
  lemma OutputsConfluent(base: Base, packs: seq<Pack>, packs': seq<Pack>, slotsOf: Value -> seq<Option<Slot>>,
                         a: seq<Tile>, cores: seq<Row>,
                           da: seq<Diagnostic>, b: seq<Tile>, cores': seq<Row>, db: seq<Diagnostic>)
    requires ValidPacks(base, packs) && Permuted(packs, packs')
    requires IsOutput(base, packs, slotsOf, a, cores, da) && IsOutput(base, packs', slotsOf, b, cores', db)
    ensures da == db && cores == cores' && SameTiles(a, b)
    ensures AllAgree(base, Contributors(packs)) ==> a == b
  {
    hide *;
    hide ValidPacks, IsArtOf, Contributors, Artists, SameTiles, TilesOf, AllAgree, SameButOrder;
    var cs, cs' := Contributors(packs), Contributors(packs');
    var x, d := OutputOf(base, packs, slotsOf, a, cores, da);
    var x', d' := OutputOf(base, packs', slotsOf, b, cores', db);
    ArtistsPermuted(packs, packs');
    InputOf(base, packs);
    MergeConfluent(base, cs, cs', x, d, x', d');
    SameTilesOf(x.systems, x'.systems, slotsOf);
    ArtsAgree(x, x', d, packs, packs', slotsOf, a, da, b, db);
    if AllAgree(base, cs) { AgreeingCatalogs(base, cs, cs', x, d, x', d'); }
  }
}
