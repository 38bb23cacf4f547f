/**
 * What the merge promises, in the fields of the documents: who may stand beside whom, and what becomes of each entry.
 */
module MergeLaws {
  import opened Wrappers
  import opened CStrings
  import opened Sorting
  import opened CanonicalJson
  import opened MergeModel
  import opened MergeProofs
  import opened MergeExtensions
  import opened MergeConfluence
  import opened MergeSoundness

  // ---------------------------------------------------------------- clashes

  /** The two texts end, after their last slash, in the same name up to case. */
  ghost predicate SameFileName(s: string, t: string) {
    exists dir, name, dir', name' ::
      && s == dir + name && t == dir' + name' && DirectoryPart(dir) && DirectoryPart(dir')
      && '/' !in name && '/' !in name' && EqualUpToCase(name, name')
  }

  ghost predicate SystemsClash(a: Entry, b: Entry)
    requires a.System? && b.System?
  {
    || EqualUpToCase(a.id, b.id) || EqualUpToCase(a.romRoot, b.romRoot) || EqualUpToCase(a.imageRoot, b.imageRoot)
    || exists p, q :: p in a.patterns && q in b.patterns && EqualUpToCase(p, q)
  }

  ghost predicate CoresClash(a: Entry, b: Entry)
    requires a.Core? && b.Core?
  {
    || EqualUpToCase(a.id, b.id)
    || (a.configFolder != "" && b.configFolder != "" && EqualUpToCase(a.configFolder, b.configFolder))
    || (a.infoName != "" && b.infoName != "" && SameFileName(a.infoName, b.infoName))
  }

  ghost predicate Clash(a: Entry, b: Entry) {
    (a.System? && b.System? && SystemsClash(a, b)) || (a.Core? && b.Core? && CoresClash(a, b))
  }

  lemma SameFileNameIff(s: string, t: string)
    ensures SameFileName(s, t) <==> EqualUpToCase(Basename(s), Basename(t))
  {
    if EqualUpToCase(Basename(s), Basename(t)) {
      var dir := BasenameSplits(s);
      var dir' := BasenameSplits(t);
    }
    if dir, name, dir', name' :|
         && s == dir + name && t == dir' + name' && DirectoryPart(dir) && DirectoryPart(dir')
         && '/' !in name && '/' !in name' && EqualUpToCase(name, name')
    {
      BasenameOf(dir, name);
      BasenameOf(dir', name');
    }
  }

  /** Entries share a claim exactly when they clash. */
  lemma ClashIff(a: Entry, b: Entry)
    ensures Clash(a, b) <==> !(ClaimSet(a) !! ClaimSet(b))
  {
    hide Fold, EqualUpToCase, SameFileName;
    if a.System? && b.System? {
      SystemsClashIff(a, b);
    } else if a.Core? && b.Core? {
      CoresClashIff(a, b);
    }
  }

  lemma SystemsClashIff(a: Entry, b: Entry)
    requires a.System? && b.System?
    ensures SystemsClash(a, b) <==> !(ClaimSet(a) !! ClaimSet(b))
  {
    hide Fold, EqualUpToCase;
    forall p, q: string ensures EqualUpToCase(p, q) <==> Fold(p) == Fold(q) { FoldIff(p, q); }
    if p, q :| p in a.patterns && q in b.patterns && EqualUpToCase(p, q) {
      assert Claim("pattern", Fold(p)) in ClaimSet(a) && Claim("pattern", Fold(q)) in ClaimSet(b);
    }
    assert Claim("system_id", Fold(a.id)) in ClaimSet(a);
    assert Claim("rom_root", Fold(a.romRoot)) in ClaimSet(a);
    assert Claim("image_root", Fold(a.imageRoot)) in ClaimSet(a);
  }

  lemma CoresClashIff(a: Entry, b: Entry)
    requires a.Core? && b.Core?
    ensures CoresClash(a, b) <==> !(ClaimSet(a) !! ClaimSet(b))
  {
    hide Fold, EqualUpToCase, SameFileName, Basename;
    FoldIff(a.id, b.id);
    FoldIff(a.configFolder, b.configFolder);
    SameFileNameIff(a.infoName, b.infoName);
    FoldIff(Basename(a.infoName), Basename(b.infoName));
    assert Claim("core_id", Fold(a.id)) in ClaimSet(a);
    assert a.configFolder != "" ==> Claim("config_folder", Fold(a.configFolder)) in ClaimSet(a);
    assert a.infoName != "" ==> Claim("info_name", Fold(Basename(a.infoName))) in ClaimSet(a);
  }

  // ---------------------------------------------------------------- who stands beside whom

  ghost predicate InRelease(base: Base, e: Entry) {
    e in base.systems || e in base.cores
  }

  ghost predicate Contributed(cs: seq<Contributor>, provider: string, e: Entry) {
    exists k :: k in cs && k.provider == provider && (e in k.systems || e in k.cores)
  }

  ghost predicate ClashesWithRelease(base: Base, e: Entry) {
    exists r :: InRelease(base, r) && Clash(e, r)
  }

  /** Another contributor's entry that the release tolerates is in the way. */
  ghost predicate ClashesWithRival(base: Base, cs: seq<Contributor>, provider: string, e: Entry) {
    exists p, r :: Contributed(cs, p, r) && p != provider && !ClashesWithRelease(base, r) && Clash(e, r)
  }

  ghost predicate Refused(base: Base, cs: seq<Contributor>, provider: string, e: Entry) {
    ClashesWithRelease(base, e) || ClashesWithRival(base, cs, provider, e)
  }

  lemma ContributedIff(cs: seq<Contributor>, provider: string, e: Entry)
    ensures Contributed(cs, provider, e) <==> Candidate(provider, e) in Candidates(cs)
  {
    CandidateFrom(cs, Candidate(provider, e));
  }

  lemma ReleaseClashIff(base: Base, e: Entry)
    ensures ClashesWithRelease(base, e) <==> !(ClaimSet(e) !! BaseClaims(base))
  {
    hide ClaimSet, Clash;
    forall r ensures Clash(e, r) <==> !(ClaimSet(e) !! ClaimSet(r)) { ClashIff(e, r); }
    if ClashesWithRelease(base, e) {
      var r :| InRelease(base, r) && Clash(e, r);
      ReleaseClaimsEntry(base, r);
      var k :| k in ClaimSet(e) && k in ClaimSet(r);
    }
    if k :| k in ClaimSet(e) && k in BaseClaims(base) {
      var r :| InRelease(base, r) && k in ClaimSet(r);
    }
  }

  lemma RefusedIff(base: Base, cs: seq<Contributor>, provider: string, e: Entry)
    ensures Refused(base, cs, provider, e) <==> !Unclaimed(base, cs, Candidate(provider, e))
  {
    hide ClaimSet, Clash, BaseClaims, Candidates, ClashesWithRelease, Contributed;
    ReleaseClashIff(base, e);
    forall r ensures ClashesWithRelease(base, r) <==> !(ClaimSet(r) !! BaseClaims(base)) { ReleaseClashIff(base, r); }
    forall r ensures Clash(e, r) <==> !(ClaimSet(e) !! ClaimSet(r)) { ClashIff(e, r); }
    forall p, r ensures Contributed(cs, p, r) <==> Candidate(p, r) in Candidates(cs) { ContributedIff(cs, p, r); }
    if ClashesWithRival(base, cs, provider, e) {
      var p, r :| Contributed(cs, p, r) && p != provider && !ClashesWithRelease(base, r) && Clash(e, r);
      assert Candidate(p, r).entry == r && Candidate(p, r).provider == p;
    }
    if d :| d in Candidates(cs) && d.provider != provider && ClaimSet(d.entry) !! BaseClaims(base)
            && !(ClaimSet(e) !! ClaimSet(d.entry))
    {
      assert d == Candidate(d.provider, d.entry);
      assert Contributed(cs, d.provider, d.entry);
    }
  }

  /**
   * No two rows of different owners clash: systems differ in id, ROM root and image root and share no pattern; cores
   * differ in id, in config folder and in the name of the info file.
   */
  lemma OwnersApart(base: Base, cs: seq<Contributor>, catalog: Catalog, diagnostics: seq<Diagnostic>, r: Row, s: Row)
    requires ValidInput(base, cs) && IsMerge(base, cs, catalog, diagnostics)
    requires r in catalog.systems || r in catalog.cores
    requires s in catalog.systems || s in catalog.cores
    requires r.provider != s.provider
    ensures !Clash(r.entry, s.entry)
  {
    hide *;
    OwnersShareNoClaim(base, cs, catalog, diagnostics, r, s);
    ClashIff(r.entry, s.entry);
  }

  /** The row of a contributed core: its own fields, without those it may not set, and the two the merge sets. */
  ghost predicate CoreRowOf(r: Row, provider: string, e: Entry) {
    && r.provider == Some(provider) && r.entry.Core? && e.Core?
    && r.entry.id == e.id && r.entry.configFolder == e.configFolder && r.entry.infoName == e.infoName
    && r.entry.extra == var kept := Cleared(e.extra);
         if kept.Obj?
         then Obj(kept.members + [Member("status", Str("packaged")), Member("requires_direct_drm", Bool(false))])
         else kept
  }

  /**
   * The row of a contributed system: its own fields, without those it may not set, and alternates added behind its own.
   */
  ghost predicate SystemRowOf(r: Row, provider: string, e: Entry) {
    && r.provider == Some(provider) && r.entry.System? && e.System?
    && r.entry.id == e.id && r.entry.romRoot == e.romRoot && r.entry.imageRoot == e.imageRoot
    && r.entry.patterns == e.patterns && r.entry.defaultCore == e.defaultCore
    && r.entry.extra == Cleared(e.extra) && Listed(e.alternates) <= Listed(r.entry.alternates)
  }

  /**
   * A contributed core is in the catalog exactly when it clashes neither with the release nor with a tolerated rival.
   */
  lemma CoreKept(base: Base, cs: seq<Contributor>, catalog: Catalog, diagnostics: seq<Diagnostic>, provider: string,
                 e: Entry)
    requires ValidInput(base, cs) && IsMerge(base, cs, catalog, diagnostics)
    requires Contributed(cs, provider, e) && e.Core?
    ensures (exists r :: r in catalog.cores && CoreRowOf(r, provider, e)) <==> !Refused(base, cs, provider, e)
  {
    hide IsMerge, ValidInput, Refused, Unclaimed, Contributed, Cleared;
    var c := Candidate(provider, e);
    ContributedIff(cs, provider, e);
    RefusedIff(base, cs, provider, e);
    CoreKeptIff(base, cs, catalog, diagnostics, c);
    forall r ensures CoreRowOf(r, provider, e) <==> r == Adopted(c) {
    }
  }

  /** A contributed system needs, besides, its default core in the same catalog. */
  lemma SystemKept(base: Base, cs: seq<Contributor>, catalog: Catalog, diagnostics: seq<Diagnostic>, provider: string,
                   e: Entry)
    requires ValidInput(base, cs) && IsMerge(base, cs, catalog, diagnostics)
    requires Contributed(cs, provider, e) && e.System?
    ensures (exists r :: r in catalog.systems && SystemRowOf(r, provider, e)) <==>
      && !Refused(base, cs, provider, e)
      && exists k :: k in catalog.cores && EqualUpToCase(k.entry.id, e.defaultCore)
  {
    hide IsMerge, ValidInput, Refused, Unclaimed, Contributed, Cleared, Fold, EqualUpToCase;
    var c := Candidate(provider, e);
    ContributedIff(cs, provider, e);
    RefusedIff(base, cs, provider, e);
    SystemKeptIff(base, cs, catalog, diagnostics, c);
    forall a, b ensures EqualUpToCase(a, b) <==> Fold(a) == Fold(b) { FoldIff(a, b); }
    forall r: Row ensures SystemRowOf(r, provider, e) <==> RowOf(r, Adopted(c)) {
      SystemRowAdopted(r, c);
    }
  }

  lemma SystemRowAdopted(r: Row, c: Candidate)
    requires c.entry.System?
    ensures SystemRowOf(r, c.provider, c.entry) <==> RowOf(r, Adopted(c))
  {
    hide Cleared;
  }

  /** Every row is the release's own or a contributor's. */
  lemma RowsHaveOrigin(base: Base, cs: seq<Contributor>, catalog: Catalog, diagnostics: seq<Diagnostic>, r: Row)
    requires ValidInput(base, cs) && IsMerge(base, cs, catalog, diagnostics)
    ensures catalog.platform == base.platform
    ensures r in catalog.cores ==>
      || (exists e :: e in base.cores && r == Row(e, None))
      || (exists provider, e :: Contributed(cs, provider, e) && CoreRowOf(r, provider, e))
    ensures r in catalog.systems ==>
      || (exists e :: e in base.systems && r.provider == None && r.entry.System? && e.System?
                      && r.entry.(alternates := None) == e.(alternates := None)
                      && Listed(e.alternates) <= Listed(r.entry.alternates))
      || (exists provider, e :: Contributed(cs, provider, e) && SystemRowOf(r, provider, e))
  {
    hide ValidInput, Contributed, Cores, Before, ExtendedTo,
      Extensions, MergeConfluence.Available, SortedBy, CoreRowOf, SystemRowOf;
    CatalogRows(base, cs, catalog, diagnostics);
    PermutedMembers(catalog.cores, Cores(base, cs));
    if r in catalog.cores { CoreOrigin(base, cs, r); }
    if r in catalog.systems { SystemOrigin(base, cs, catalog.systems, r); }
  }

  lemma CoreOrigin(base: Base, cs: seq<Contributor>, r: Row)
    requires ValidInput(base, cs) && r in Cores(base, cs)
    ensures
      || (exists e :: e in base.cores && r == Row(e, None))
      || (exists provider, e :: Contributed(cs, provider, e) && CoreRowOf(r, provider, e))
  {
    hide ValidInput, Contributed, Cores, Survives, Candidates, Cleared;
    CoresMembers(base, cs, r);
    if c :| c in Candidates(cs) && !c.entry.System? && Survives(ContextOf(base, cs), base, c) && r == Adopted(c) {
      ContributedIff(cs, c.provider, c.entry);
      assert c == Candidate(c.provider, c.entry);
      assert CoreRowOf(r, c.provider, c.entry);
    }
  }

  lemma SystemOrigin(base: Base, cs: seq<Contributor>, systems: seq<Row>, r: Row)
    requires AllSystems(Before(base, cs)) && r in systems
    requires ExtendedTo(Before(base, cs), Extensions(cs), MergeConfluence.Available(base, cs), systems)
    ensures
      || (exists e :: e in base.systems && r.provider == None && r.entry.System? && e.System?
                      && r.entry.(alternates := None) == e.(alternates := None)
                      && Listed(e.alternates) <= Listed(r.entry.alternates))
      || (exists provider, e :: Contributed(cs, provider, e) && SystemRowOf(r, provider, e))
  {
    hide Contributed, Before, Survives, Candidates, Adopted,
      RowAfter, Extensions, MergeConfluence.Available, SystemRowOf;
    var es, ids := Extensions(cs), MergeConfluence.Available(base, cs);
    var q :| q in Before(base, cs) && r == RowAfter(q, es, ids);
    RowAfterIsRowOf(q, es, ids);
    BeforeMembers(base, cs, q);
    if c :| c in Candidates(cs) && c.entry.System? && Survives(ContextOf(base, cs), base, c) && q == Adopted(c) {
      ContributedIff(cs, c.provider, c.entry);
      assert c == Candidate(c.provider, c.entry);
      SystemRowAdopted(r, c);
    }
  }

  /** Rows stand in byte order of their ids; reports in byte order of provider, then reason, then detail. */
  lemma InOrder(base: Base, cs: seq<Contributor>, catalog: Catalog, diagnostics: seq<Diagnostic>, i: nat, j: nat)
    requires IsMerge(base, cs, catalog, diagnostics) && i < j
    ensures j < |catalog.systems| ==> StrLe(catalog.systems[i].entry.id, catalog.systems[j].entry.id)
    ensures j < |catalog.cores| ==> StrLe(catalog.cores[i].entry.id, catalog.cores[j].entry.id)
    ensures j < |diagnostics| ==>
      var a, b := diagnostics[i], diagnostics[j];
      && StrLe(a.provider, b.provider) && (a.provider == b.provider ==> StrLe(a.reason, b.reason))
      && (a.provider == b.provider && a.reason == b.reason ==> StrLe(a.detail, b.detail))
  {
    hide SystemRows, CoreRows, Candidates, ContextOf, ExtendAll, CoreIds, Extensions, Reports;
    if j < |diagnostics| {
      assert DiagnosticLe(diagnostics[i], diagnostics[j]);
      StrLeReflexive(diagnostics[i].provider);
      StrLeReflexive(diagnostics[i].reason);
    }
  }
}
