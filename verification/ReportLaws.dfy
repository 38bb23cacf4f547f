/** What the merge reports, word for word: every refusal and every dangling name, and nothing else. */
module ReportLaws {
  import opened CStrings
  import opened Sorting
  import opened MergeModel
  import opened MergeProofs
  import opened MergeExtensions
  import opened MergeConfluence
  import opened MergeSoundness
  import opened MergeLaws
  import CatalogMerge

  // ---------------------------------------------------------------- shared claims, as they are spelled

  /** Both entries claim what `t` spells. */
  ghost predicate SharedText(a: Entry, b: Entry, t: string) {
    || (a.System? && b.System? && SharedBySystems(a, b, t))
    || (a.Core? && b.Core? && SharedByCores(a, b, t))
  }

  ghost predicate SharedBySystems(a: Entry, b: Entry, t: string)
    requires a.System? && b.System?
  {
    || (EqualUpToCase(a.id, b.id) && t == "system_id=" + Fold(a.id))
    || (EqualUpToCase(a.romRoot, b.romRoot) && t == "rom_root=" + Fold(a.romRoot))
    || (EqualUpToCase(a.imageRoot, b.imageRoot) && t == "image_root=" + Fold(a.imageRoot))
    || exists p, q :: p in a.patterns && q in b.patterns && EqualUpToCase(p, q) && t == "pattern=" + Fold(p)
  }

  ghost predicate SharedByCores(a: Entry, b: Entry, t: string)
    requires a.Core? && b.Core?
  {
    || (EqualUpToCase(a.id, b.id) && t == "core_id=" + Fold(a.id))
    || (a.configFolder != "" && b.configFolder != "" && EqualUpToCase(a.configFolder, b.configFolder)
        && t == "config_folder=" + Fold(a.configFolder))
    || (a.infoName != "" && b.infoName != "" && EqualUpToCase(Basename(a.infoName), Basename(b.infoName))
        && t == "info_name=" + Fold(Basename(a.infoName)))
  }

  function Spelled(k: Claim): string {
    k.kind + "=" + k.value
  }

  lemma SharedBySystemsIff(a: Entry, b: Entry, t: string)
    requires a.System? && b.System?
    ensures SharedBySystems(a, b, t) <==> exists k :: k in ClaimSet(a) && k in ClaimSet(b) && Spelled(k) == t
  {
    hide Fold, EqualUpToCase, SharedBySystems, ClaimSet, Spelled;
    if SharedBySystems(a, b, t) { var k := SharedClaim(a, b, t); }
    forall k | k in ClaimSet(a) && k in ClaimSet(b) ensures SharedBySystems(a, b, Spelled(k)) { ClaimShared(a, b, k); }
  }

  lemma SharedClaim(a: Entry, b: Entry, t: string) returns (k: Claim)
    requires a.System? && b.System? && SharedBySystems(a, b, t)
    ensures k in ClaimSet(a) && k in ClaimSet(b) && Spelled(k) == t
  {
    hide Fold, EqualUpToCase;
    if EqualUpToCase(a.id, b.id) && t == "system_id=" + Fold(a.id) {
      FoldIff(a.id, b.id);
      k := Claim("system_id", Fold(a.id));
    } else if EqualUpToCase(a.romRoot, b.romRoot) && t == "rom_root=" + Fold(a.romRoot) {
      FoldIff(a.romRoot, b.romRoot);
      k := Claim("rom_root", Fold(a.romRoot));
    } else if EqualUpToCase(a.imageRoot, b.imageRoot) && t == "image_root=" + Fold(a.imageRoot) {
      FoldIff(a.imageRoot, b.imageRoot);
      k := Claim("image_root", Fold(a.imageRoot));
    } else {
      var p, q :| p in a.patterns && q in b.patterns && EqualUpToCase(p, q) && t == "pattern=" + Fold(p);
      FoldIff(p, q);
      k := Claim("pattern", Fold(p));
      assert Claim("pattern", Fold(q)) in ClaimSet(b);
    }
  }

  lemma ClaimShared(a: Entry, b: Entry, k: Claim)
    requires a.System? && b.System? && k in ClaimSet(a) && k in ClaimSet(b)
    ensures SharedBySystems(a, b, Spelled(k))
  {
    hide Fold, EqualUpToCase, ClaimSet;
    SystemClaim(a, k); SystemClaim(b, k);
    FoldIff(a.id, b.id); FoldIff(a.romRoot, b.romRoot); FoldIff(a.imageRoot, b.imageRoot);
    if k.kind == "pattern" {
      var p :| p in a.patterns && k.value == Fold(p);
      var q :| q in b.patterns && k.value == Fold(q);
      FoldIff(p, q);
    }
  }

  lemma SystemClaim(a: Entry, k: Claim)
    requires a.System? && k in ClaimSet(a)
    ensures
      || (k.kind == "system_id" && k.value == Fold(a.id)) || (k.kind == "rom_root" && k.value == Fold(a.romRoot))
      || (k.kind == "image_root" && k.value == Fold(a.imageRoot))
      || (k.kind == "pattern" && exists p :: p in a.patterns && k.value == Fold(p))
  {
  }

  lemma SharedByCoresIff(a: Entry, b: Entry, t: string)
    requires a.Core? && b.Core?
    ensures SharedByCores(a, b, t) <==> exists k :: k in ClaimSet(a) && k in ClaimSet(b) && Spelled(k) == t
  {
    hide Fold, EqualUpToCase, Basename;
    forall p, q: string ensures EqualUpToCase(p, q) <==> Fold(p) == Fold(q) { FoldIff(p, q); }
    if SharedByCores(a, b, t) {
      var ks := [Claim("core_id", Fold(a.id)), Claim("config_folder", Fold(a.configFolder)),
                 Claim("info_name", Fold(Basename(a.infoName)))];
      assert Spelled(ks[0]) == "core_id=" + Fold(a.id) && ks[0] in ClaimSet(a);
      assert Spelled(ks[1]) == "config_folder=" + Fold(a.configFolder);
      assert Spelled(ks[2]) == "info_name=" + Fold(Basename(a.infoName));
    }
  }

  lemma SharedIff(a: Entry, b: Entry, t: string)
    ensures SharedText(a, b, t) <==> exists k :: k in ClaimSet(a) && k in ClaimSet(b) && Spelled(k) == t
  {
    hide Fold, SharedBySystems, SharedByCores, Spelled;
    if a.System? && b.System? { SharedBySystemsIff(a, b, t); }
    else if a.Core? && b.Core? { SharedByCoresIff(a, b, t); }
  }

  // ---------------------------------------------------------------- the order of spelled claims

  lemma KindsApart(a: Entry, k: Claim, l: Claim)
    requires k in ClaimSet(a) && l in ClaimSet(a) && k.kind != l.kind
    ensures !(k.kind <= l.kind) && !(l.kind <= k.kind)
  {
    hide Fold, Basename;
    assert "system_id"[0] == 's' && "rom_root"[0] == 'r' && "image_root"[0] == 'i' && "pattern"[0] == 'p';
    assert "core_id"[0] == 'c' && "core_id"[2] == 'r';
    assert "config_folder"[0] == 'c' && "config_folder"[2] == 'n' && "info_name"[0] == 'i';
  }

  lemma SpelledTellsApart(a: Entry, k: Claim, l: Claim)
    requires k in ClaimSet(a) && l in ClaimSet(a) && Spelled(k) == Spelled(l)
    ensures k == l
  {
    var s := Spelled(k);
    assert s[..|k.kind|] == k.kind && s[..|l.kind|] == l.kind;
    if k.kind != l.kind { KindsApart(a, k, l); }
    assert s[|k.kind| + 1..] == k.value && s[|l.kind| + 1..] == l.value;
  }

  lemma SpelledOrdered(a: Entry, k: Claim, l: Claim)
    requires k in ClaimSet(a) && l in ClaimSet(a) && ClaimLe(k, l)
    ensures StrLe(Spelled(k), Spelled(l))
  {
    hide ClaimSet;
    if k.kind == l.kind {
      CommonPrefix(k.kind + "=", k.value, l.value);
    } else {
      KindsApart(a, k, l);
      EarlierDecides(k.kind, l.kind, "=" + k.value, "=" + l.value);
      assert Spelled(k) == k.kind + ("=" + k.value) && Spelled(l) == l.kind + ("=" + l.value);
    }
  }

  /** The texts of these, each once, in byte order. */
  ghost predicate ListsTexts(names: seq<string>, texts: iset<string>) {
    SortedBy(names, StrLe) && NoRepeats(names) && forall t :: t in names <==> t in texts
  }

  lemma ListsTextsOnce(a: seq<string>, b: seq<string>, texts: iset<string>)
    requires ListsTexts(a, texts) && ListsTexts(b, texts)
    ensures a == b
  {
    SameSetPermuted(a, b);
    NoStringTies(a);
    SortedUnique(a, b, StrLe);
  }

  ghost predicate Hit(x: Context, owned: seq<Claim>, t: string) {
    exists k :: k in owned && k in x.release && Spelled(k) == t
  }

  ghost function HitTexts(x: Context, owned: seq<Claim>): iset<string> {
    iset t | Hit(x, owned, t)
  }

  lemma {:induction false} HitsListed(x: Context, a: Entry, owned: seq<Claim>)
    requires SortedBy(owned, ClaimLe) && NoRepeats(owned) && forall k | k in owned :: k in ClaimSet(a)
    ensures ListsTexts(Hits(x, owned), HitTexts(x, owned))
    decreases |owned|
  {
    hide ClaimSet, ClaimLe, ListsTexts, Spelled, Hit;
    HitNone(x);
    if owned == [] {
      NoTexts(HitTexts(x, []));
    } else {
      var init, last := owned[..|owned| - 1], owned[|owned| - 1];
      assert owned == init + [last];
      HitsListed(x, a, init);
      forall t ensures Hit(x, owned, t) <==> Hit(x, init, t) || (last in x.release && t == Spelled(last)) {
        HitNext(x, init, last, t);
      }
      if last in x.release {
        forall k | k in init ensures StrLe(Spelled(k), Spelled(last)) && Spelled(k) != Spelled(last) {
          EarlierText(a, init, last, k);
        }
        HitsBefore(x, init, Hits(x, init), Spelled(last));
        OneTextMore(Hits(x, init), HitTexts(x, init), Spelled(last), HitTexts(x, owned));
        SpelledIs(last);
      } else {
        assert HitTexts(x, owned) == HitTexts(x, init);
        assert Hits(x, init) + [] == Hits(x, init);
      }
    }
  }

  lemma HitNone(x: Context)
    ensures forall t :: !Hit(x, [], t)
  {
  }

  lemma HitNext(x: Context, init: seq<Claim>, last: Claim, t: string)
    ensures Hit(x, init + [last], t) <==> Hit(x, init, t) || (last in x.release && t == Spelled(last))
  {
    hide Spelled;
    assert last in init + [last];
    forall k ensures k in init + [last] <==> k in init || k == last {
    }
  }

  lemma HitsBefore(x: Context, init: seq<Claim>, names: seq<string>, t: string)
    requires ListsTexts(names, HitTexts(x, init))
    requires forall k | k in init :: StrLe(Spelled(k), t) && Spelled(k) != t
    ensures forall u | u in names :: StrLe(u, t) && u != t
  {
    hide Spelled, StrLe;
  }

  lemma NoTexts(texts: iset<string>)
    requires forall t :: t !in texts
    ensures ListsTexts([], texts)
  {
  }

  lemma SpelledIs(k: Claim)
    ensures Spelled(k) == k.kind + "=" + k.value
  {
  }

  lemma EarlierText(a: Entry, init: seq<Claim>, last: Claim, k: Claim)
    requires SortedBy(init + [last], ClaimLe) && NoRepeats(init + [last]) && k in init
    requires forall l | l in init + [last] :: l in ClaimSet(a)
    ensures StrLe(Spelled(k), Spelled(last)) && Spelled(k) != Spelled(last)
  {
    hide ClaimSet, ClaimLe, Spelled;
    var i :| 0 <= i < |init| && init[i] == k;
    assert (init + [last])[i] == k && (init + [last])[|init|] == last;
    SpelledOrdered(a, k, last);
    if Spelled(k) == Spelled(last) { SpelledTellsApart(a, k, last); }
  }

  lemma OneTextMore(names: seq<string>, texts: iset<string>, t: string, more: iset<string>)
    requires ListsTexts(names, texts) && (forall u | u in names :: StrLe(u, t) && u != t)
    requires forall u :: u in more <==> u in texts || u == t
    ensures ListsTexts(names + [t], more)
  {
    hide StrLe;
    var all := names + [t];
    forall i, j | 0 <= i < j < |all| ensures StrLe(all[i], all[j]) && all[i] != all[j] {
      if j == |names| { assert all[i] in names; }
    }
  }

  // ---------------------------------------------------------------- the reports

  function Commas(names: seq<string>): string {
    if names == [] then "" else if |names| == 1 then names[0] else names[0] + ", " + Commas(names[1..])
  }

  lemma {:induction false} CommasNext(names: seq<string>, last: string)
    requires names != []
    ensures Commas(names + [last]) == Commas(names) + ", " + last
    decreases |names|
  {
    var all := names + [last];
    assert all[1..] == names[1..] + [last];
    if |names| > 1 {
      CommasNext(names[1..], last);
      Assoc(names[0] + ", ", Commas(names[1..]), ", ");
      Assoc(names[0] + ", ", Commas(names[1..]) + ", ", last);
    }
  }

  lemma {:induction false} JoinIsCommas(names: seq<string>)
    ensures Join(names) == Commas(names)
    decreases |names|
  {
    if |names| > 1 {
      var init := names[..|names| - 1];
      JoinIsCommas(init);
      CommasNext(init, names[|names| - 1]);
      assert init + [names[|names| - 1]] == names;
    }
  }

  function EntryText(e: Entry): string {
    (if e.System? then "system" else "core") + " " + e.id
  }

  /** What the entry shares with the release. */
  ghost function SharedWithRelease(base: Base, e: Entry): iset<string> {
    iset t | SharesWithRelease(base, e, t)
  }

  ghost predicate SharesWithRelease(base: Base, e: Entry, t: string) {
    exists r :: InRelease(base, r) && SharedText(e, r, t)
  }

  ghost predicate BaseReport(base: Base, provider: string, e: Entry, d: Diagnostic) {
    exists names :: ListsTexts(names, SharedWithRelease(base, e))
      && d == Diagnostic(provider, "base-collision",
                         EntryText(e) + " claims " + Commas(names) + " already owned by the release catalog")
  }

  /** What the entry shares with entries of others that the release tolerates. */
  ghost predicate Disputed(base: Base, cs: seq<Contributor>, provider: string, e: Entry, t: string) {
    exists p, r :: Contributed(cs, p, r) && p != provider && !ClashesWithRelease(base, r) && SharedText(e, r, t)
  }

  ghost function Claimants(cs: seq<Contributor>, provider: string, e: Entry, t: string): iset<string> {
    iset p | p != provider && Claims(cs, p, e, t)
  }

  ghost predicate Claims(cs: seq<Contributor>, provider: string, e: Entry, t: string) {
    exists r :: Contributed(cs, provider, r) && SharedText(e, r, t)
  }

  ghost predicate RivalReport(base: Base, cs: seq<Contributor>, provider: string, e: Entry, d: Diagnostic) {
    exists t, providers ::
      && Disputed(base, cs, provider, e, t) && (forall u | Disputed(base, cs, provider, e, u) :: StrLe(t, u))
      && ListsTexts(providers, Claimants(cs, provider, e, t))
      && d == Diagnostic(provider, "contributor-collision",
                         EntryText(e) + " claims " + t + ", also claimed by " + Commas(providers) + "; both refused")
  }

  /** A contributed core of that id was refused. */
  ghost predicate RefusedCore(base: Base, cs: seq<Contributor>, id: string) {
    exists p, r :: Contributed(cs, p, r) && r.Core? && Refused(base, cs, p, r) && EqualUpToCase(r.id, id)
  }

  ghost predicate MissingReport(base: Base, cs: seq<Contributor>, provider: string, e: Entry, d: Diagnostic) {
    e.System? && d == Diagnostic(provider,
      if RefusedCore(base, cs, e.defaultCore) then "default-core-unavailable" else "unknown-default-core",
      EntryText(e) + " needs core " + e.defaultCore + ", which is not available after merge; "
      + "the system is refused too rather than producing a tile that cannot launch")
  }

  lemma HitsOwned(base: Base, cs: seq<Contributor>, e: Entry)
    ensures ListsTexts(Hits(ContextOf(base, cs), Owned(e)), SharedWithRelease(base, e))
  {
    hide ClaimSet, ClaimLe, SharedText, Spelled, ListsTexts;
    var x := ContextOf(base, cs);
    HitsListed(x, e, Owned(e));
    forall t ensures t in SharedWithRelease(base, e) <==> Hit(x, Owned(e), t) {
      forall r ensures SharedText(e, r, t) <==> exists k :: k in ClaimSet(e) && k in ClaimSet(r) && Spelled(k) == t {
        SharedIff(e, r, t);
      }
      if r :| InRelease(base, r) && SharedText(e, r, t) { ReleaseClaimsEntry(base, r); }
      if k :| k in Owned(e) && k in x.release && Spelled(k) == t {
        var r :| InRelease(base, r) && k in ClaimSet(r);
      }
    }
    assert SharedWithRelease(base, e) == HitTexts(x, Owned(e));
  }

  lemma BaseReportIff(base: Base, cs: seq<Contributor>, c: Candidate, d: Diagnostic)
    ensures BaseReport(base, c.provider, c.entry, d) <==> d == BaseCollision(ContextOf(base, cs), c)
  {
    hide ListsTexts, SharedWithRelease, Owned, Hits, Join, Commas;
    var names := Hits(ContextOf(base, cs), Owned(c.entry));
    HitsOwned(base, cs, c.entry);
    JoinIsCommas(names);
    forall other | ListsTexts(other, SharedWithRelease(base, c.entry)) ensures other == names {
      ListsTextsOnce(other, names, SharedWithRelease(base, c.entry));
    }
  }

  lemma HitIff(base: Base, cs: seq<Contributor>, c: Candidate)
    ensures BaseHit(ContextOf(base, cs), c) <==> ClashesWithRelease(base, c.entry)
  {
    HitIffClaimed(base, cs, c);
    ReleaseClashIff(base, c.entry);
  }

  /** The claims in dispute, and the claims contested in stage 3. */
  lemma DisputedIff(base: Base, cs: seq<Contributor>, c: Candidate, t: string)
    ensures Disputed(base, cs, c.provider, c.entry, t) <==>
      exists k :: Contests(ContextOf(base, cs), c, k) && Spelled(k) == t
  {
    hide ClaimSet, BaseHit, ClashesWithRelease, SharedText, Contributed, Candidates;
    var x := ContextOf(base, cs);
    forall r
      ensures SharedText(c.entry, r, t) <==> exists k :: k in ClaimSet(c.entry) && k in ClaimSet(r) && Spelled(k) == t
    {
      SharedIff(c.entry, r, t);
    }
    if p, r :| Contributed(cs, p, r) && p != c.provider && !ClashesWithRelease(base, r) && SharedText(c.entry, r, t) {
      var d := Candidate(p, r);
      ContributedIff(cs, p, r);
      HitIff(base, cs, d);
      var k :| k in ClaimSet(c.entry) && k in ClaimSet(r) && Spelled(k) == t;
      assert Contests(x, c, k);
    }
    if k :| Contests(x, c, k) && Spelled(k) == t {
      var d :| d in x.all && d.provider != c.provider && !BaseHit(x, d) && k in ClaimSet(d.entry);
      ContributedIff(cs, d.provider, d.entry);
      HitIff(base, cs, d);
    }
  }

  lemma ClaimantsAre(base: Base, cs: seq<Contributor>, c: Candidate, k: Claim)
    requires k in ClaimSet(c.entry)
    ensures ListsTexts(Rivals(ContextOf(base, cs), c, k), Claimants(cs, c.provider, c.entry, Spelled(k)))
  {
    hide ClaimSet, SharedText, Contributed, Candidates, Spelled;
    var x := ContextOf(base, cs);
    forall p ensures p in Rivals(x, c, k) <==> p in Claimants(cs, c.provider, c.entry, Spelled(k)) {
      if d :| d in x.all && d.provider != c.provider && k in ClaimSet(d.entry) && d.provider == p {
        ContributedIff(cs, p, d.entry);
        SharedIff(c.entry, d.entry, Spelled(k));
      }
      if r :| p != c.provider && Contributed(cs, p, r) && SharedText(c.entry, r, Spelled(k)) {
        ContributedIff(cs, p, r);
        SharedIff(c.entry, r, Spelled(k));
        var l :| l in ClaimSet(c.entry) && l in ClaimSet(r) && Spelled(l) == Spelled(k);
        SpelledTellsApart(c.entry, k, l);
        assert Candidate(p, r).provider == p;
      }
    }
  }

  lemma RivalReportIff(base: Base, cs: seq<Contributor>, c: Candidate, d: Diagnostic)
    requires Contested(ContextOf(base, cs), c)
    ensures RivalReport(base, cs, c.provider, c.entry, d) <==> d == ContributorCollision(ContextOf(base, cs), c)
  {
    hide ClaimSet, Disputed, Claimants, ListsTexts, Contests, Contested, Join, Commas, Rivals, ClaimLe, ContextOf;
    var x := ContextOf(base, cs);
    var k := FirstContested(x, c);
    var t, providers := Spelled(k), Rivals(x, c, k);
    ContestedClaim(x, c, k);
    DisputedIff(base, cs, c, t);
    ClaimantsAre(base, cs, c, k);
    JoinIsCommas(providers);
    forall u | Disputed(base, cs, c.provider, c.entry, u) ensures StrLe(t, u) {
      DisputedIff(base, cs, c, u);
      var l :| Contests(x, c, l) && Spelled(l) == u;
      ContestedClaim(x, c, l);
      SpelledOrdered(c.entry, k, l);
    }
    forall u | Disputed(base, cs, c.provider, c.entry, u) && StrLe(u, t) ensures u == t {
      StrLeAntisymmetric(u, t);
    }
    forall other | ListsTexts(other, Claimants(cs, c.provider, c.entry, t)) ensures other == providers {
      ListsTextsOnce(other, providers, Claimants(cs, c.provider, c.entry, t));
    }
    ReportText(c, k, providers);
  }

  lemma ContestedClaim(x: Context, c: Candidate, k: Claim)
    requires Contests(x, c, k)
    ensures k in ClaimSet(c.entry)
  {
  }

  lemma ReportText(c: Candidate, k: Claim, providers: seq<string>)
    ensures KindName(c.entry) + " " + c.entry.id + " claims " + k.kind + "=" + k.value + ", also claimed by "
        + Join(providers) + "; both refused"
      == EntryText(c.entry) + " claims " + Spelled(k) + ", also claimed by " + Join(providers) + "; both refused"
  {
    var head := EntryText(c.entry) + " claims ";
    Assoc(head, k.kind, "=");
    Assoc(head, k.kind + "=", k.value);
  }

  // ---------------------------------------------------------------- every report and no other

  ghost predicate Available(catalog: Catalog, id: string) {
    exists k :: k in catalog.cores && EqualUpToCase(k.entry.id, id)
  }

  ghost predicate Present(catalog: Catalog, id: string) {
    exists r :: r in catalog.systems && EqualUpToCase(r.entry.id, id)
  }

  /** The report about one contributed entry, if there is one. */
  ghost predicate EntryReport(base: Base, cs: seq<Contributor>, catalog: Catalog, provider: string, e: Entry,
                              d: Diagnostic) {
    if ClashesWithRelease(base, e) then BaseReport(base, provider, e, d)
    else if ClashesWithRival(base, cs, provider, e) then RivalReport(base, cs, provider, e, d)
    else e.System? && !Available(catalog, e.defaultCore) && MissingReport(base, cs, provider, e, d)
  }

  /** A report about one extension. */
  ghost predicate ExtensionReport(catalog: Catalog, provider: string, x: Extension, d: Diagnostic) {
    if !Present(catalog, x.systemId) then
      d == Diagnostic(provider, "dangling-extension-system",
        "system_extensions names " + x.systemId + ", which no system provides after merge; extension dropped")
    else exists name ::
      && name in x.addCores && !Available(catalog, name)
      && d == Diagnostic(provider, "dangling-alternate-core",
        "system_extensions for " + x.systemId + " names core " + name + ", absent after merge; "
        + "that name dropped, extension accepted")
  }

  ghost predicate Reported(base: Base, cs: seq<Contributor>, catalog: Catalog, d: Diagnostic) {
    || (exists provider, e :: Contributed(cs, provider, e) && EntryReport(base, cs, catalog, provider, e, d))
    || (exists c, x :: c in cs && x in c.extensions && ExtensionReport(catalog, c.provider, x, d))
  }

  lemma ContestedIff(base: Base, cs: seq<Contributor>, c: Candidate)
    requires !ClashesWithRelease(base, c.entry)
    ensures Contested(ContextOf(base, cs), c) <==> ClashesWithRival(base, cs, c.provider, c.entry)
  {
    hide ClaimSet, BaseHit, Candidates, ClashesWithRelease, Clash, Contributed, Contested, Unclaimed;
    RefusedIff(base, cs, c.provider, c.entry);
    UnclaimedIff(base, cs, c);
    HitIff(base, cs, c);
    assert c == Candidate(c.provider, c.entry);
  }

  lemma AvailableIff(base: Base, cs: seq<Contributor>, catalog: Catalog, diagnostics: seq<Diagnostic>, id: string)
    requires ValidInput(base, cs) && IsMerge(base, cs, catalog, diagnostics)
    ensures Available(catalog, id) <==> Fold(id) in CoreIds(ContextOf(base, cs), base)
  {
    hide Fold, EqualUpToCase, IsMerge, ValidInput, CoreIds, ContextOf;
    AvailableListed(base, cs, catalog, diagnostics, id);
    forall k: Row ensures EqualUpToCase(k.entry.id, id) <==> Fold(k.entry.id) == Fold(id) { FoldIff(k.entry.id, id); }
  }

  lemma PresentIff(base: Base, cs: seq<Contributor>, catalog: Catalog, diagnostics: seq<Diagnostic>, id: string)
    requires ValidInput(base, cs) && IsMerge(base, cs, catalog, diagnostics)
    ensures Present(catalog, id) <==> Fold(id) in SystemIds(ContextOf(base, cs), base)
  {
    hide Fold, EqualUpToCase, IsMerge, ValidInput, SystemIds,
      ContextOf, Before, RowAfter, Extensions, MergeConfluence.Available;
    CatalogRows(base, cs, catalog, diagnostics);
    ExtendedIds(Before(base, cs), Extensions(cs), MergeConfluence.Available(base, cs), catalog.systems, id);
    BeforeIds(base, cs, id);
    forall r: Row ensures EqualUpToCase(r.entry.id, id) <==> Fold(r.entry.id) == Fold(id) { FoldIff(r.entry.id, id); }
  }

  lemma ExtendedIds(before: seq<Row>, es: seq<Sourced>, ids: set<string>, systems: seq<Row>, id: string)
    requires AllSystems(before) && ExtendedTo(before, es, ids, systems)
    ensures (exists r :: r in systems && Fold(r.entry.id) == Fold(id)) <==>
      exists q :: q in before && Fold(q.entry.id) == Fold(id)
  {
    hide Fold, RowAfter;
    forall q | q in before ensures RowAfter(q, es, ids).entry.id == q.entry.id { RowAfterKeeps(q, es, ids); }
  }

  lemma BeforeIds(base: Base, cs: seq<Contributor>, id: string)
    ensures Fold(id) in SystemIds(ContextOf(base, cs), base) <==>
      exists q :: q in Before(base, cs) && Fold(q.entry.id) == Fold(id)
  {
    hide Fold, SystemRows, SystemIds, ContextOf, Candidates;
    var rows := Before(base, cs);
    CatalogMerge.SystemRowIds(base, cs);
    if q :| q in rows && Fold(q.entry.id) == Fold(id) {
      var i :| 0 <= i < |rows| && rows[i] == q;
    }
  }

  lemma MissingReportIff(base: Base, cs: seq<Contributor>, c: Candidate, d: Diagnostic)
    requires c.entry.System?
    ensures MissingReport(base, cs, c.provider, c.entry, d) <==> d == MissingCore(ContextOf(base, cs), c)
  {
    hide Fold, RefusedCore, RefusedCoreIds, ContextOf, EntryText;
    RefusedCoreIff(base, cs, c.entry.defaultCore);
    SystemText(c.entry);
  }

  lemma SystemText(e: Entry)
    requires e.System?
    ensures EntryText(e) == "system " + e.id
  {
    assert "system" + " " == "system ";
  }

  lemma RefusedCoreIff(base: Base, cs: seq<Contributor>, id: string)
    ensures RefusedCore(base, cs, id) <==> Fold(id) in RefusedCoreIds(ContextOf(base, cs))
  {
    hide Fold, EqualUpToCase, Refused, RefusedEarly, Contributed, Candidates;
    var x := ContextOf(base, cs);
    if p, r :| Contributed(cs, p, r) && r.Core? && Refused(base, cs, p, r) && EqualUpToCase(r.id, id) {
      var c := Candidate(p, r);
      ContributedIff(cs, p, r);
      RefusedEarlyIff(base, cs, c);
      FoldIff(r.id, id);
      assert c.entry == r && c in x.all;
    }
    if c :| c in x.all && c.entry.Core? && RefusedEarly(x, c) && Fold(c.entry.id) == Fold(id) {
      ContributedIff(cs, c.provider, c.entry);
      RefusedEarlyIff(base, cs, c);
      FoldIff(c.entry.id, id);
    }
  }

  lemma RefusedEarlyIff(base: Base, cs: seq<Contributor>, c: Candidate)
    ensures Refused(base, cs, c.provider, c.entry) <==> RefusedEarly(ContextOf(base, cs), c)
    ensures c == Candidate(c.provider, c.entry)
  {
    hide Refused, RefusedEarly, Unclaimed;
    RefusedIff(base, cs, c.provider, c.entry);
    UnclaimedIff(base, cs, c);
  }

  /** The reports of the first three decisions about one candidate. */
  lemma EntryReportIff(base: Base, cs: seq<Contributor>, catalog: Catalog, diagnostics: seq<Diagnostic>, c: Candidate,
                       d: Diagnostic)
    requires ValidInput(base, cs) && IsMerge(base, cs, catalog, diagnostics)
    ensures EntryReport(base, cs, catalog, c.provider, c.entry, d) <==>
      var x := ContextOf(base, cs); d in Stage2(x)(c) || d in Stage3(x)(c) || d in Stage4(x, base)(c)
  {
    hide ClaimSet, IsMerge, ValidInput, ContextOf, ClashesWithRelease,
      ClashesWithRival, BaseReport, RivalReport, MissingReport;
    hide Available, BaseHit, Contested, BaseCollision, ContributorCollision, MissingCore, CoreIds;
    var x := ContextOf(base, cs);
    HitIff(base, cs, c);
    ContestedNotHit(x, c);
    if ClashesWithRelease(base, c.entry) {
      BaseReportIff(base, cs, c, d);
    } else {
      ContestedIff(base, cs, c);
      if Contested(x, c) {
        RivalReportIff(base, cs, c, d);
      } else if c.entry.System? {
        AvailableIff(base, cs, catalog, diagnostics, c.entry.defaultCore);
        MissingReportIff(base, cs, c, d);
      }
    }
  }

  lemma ContestedNotHit(x: Context, c: Candidate)
    ensures Contested(x, c) ==> !BaseHit(x, c)
  {
  }

  lemma ExtensionReportIff(base: Base, cs: seq<Contributor>, catalog: Catalog, diagnostics: seq<Diagnostic>, s: Sourced,
                           d: Diagnostic)
    requires ValidInput(base, cs) && IsMerge(base, cs, catalog, diagnostics)
    ensures ExtensionReport(catalog, s.provider, s.extension, d) <==>
      d in Stage5(SystemIds(ContextOf(base, cs), base), CoreIds(ContextOf(base, cs), base))(s)
  {
    hide IsMerge, ValidInput, ContextOf, SystemIds, CoreIds, Available, Present, Fold;
    PresentIff(base, cs, catalog, diagnostics, s.extension.systemId);
    var report := DanglingNames(s.provider, s.extension.systemId, CoreIds(ContextOf(base, cs), base));
    FlatMapMembers(report, s.extension.addCores, d);
    forall name ensures Available(catalog, name) <==> Fold(name) in CoreIds(ContextOf(base, cs), base) {
      AvailableIff(base, cs, catalog, diagnostics, name);
    }
  }

  lemma SourcedIff(cs: seq<Contributor>, s: Sourced)
    ensures s in Extensions(cs) <==> exists c :: c in cs && s.provider == c.provider && s.extension in c.extensions
  {
    FlatMapMembers(Extends, cs, s);
    forall c ensures s in Extends(c) <==> s.provider == c.provider && s.extension in c.extensions {
      if s.provider == c.provider && s.extension in c.extensions {
        var i :| 0 <= i < |c.extensions| && c.extensions[i] == s.extension;
        assert Extends(c)[i] == s;
      }
    }
  }

  /** Every refusal and every dangling name is reported in these words, and nothing else is. */
  lemma ReportsExactly(base: Base, cs: seq<Contributor>, catalog: Catalog, diagnostics: seq<Diagnostic>, d: Diagnostic)
    requires ValidInput(base, cs) && IsMerge(base, cs, catalog, diagnostics)
    ensures d in diagnostics <==> Reported(base, cs, catalog, d)
  {
    hide EntryReport, ExtensionReport, Contributed, Candidates,
      Extensions, ContextOf, Stage2, Stage3, Stage4, Stage5, SystemIds, CoreIds;
    hide ValidInput;
    ReportMembers(base, cs, catalog, diagnostics, d);
    forall p, e ensures Contributed(cs, p, e) <==> Candidate(p, e) in Candidates(cs) { ContributedIff(cs, p, e); }
    forall c: Candidate
      ensures EntryReport(base, cs, catalog, c.provider, c.entry, d) <==> OfCandidate(base, cs, c, d)
    {
      EntryReportIff(base, cs, catalog, diagnostics, c, d);
    }
    forall s: Sourced ensures ExtensionReport(catalog, s.provider, s.extension, d) <==> OfExtension(base, cs, s, d) {
      ExtensionReportIff(base, cs, catalog, diagnostics, s, d);
    }
    if c :| c in Candidates(cs) && OfCandidate(base, cs, c, d) {
      assert c == Candidate(c.provider, c.entry);
      assert Contributed(cs, c.provider, c.entry);
    }
    if provider, e :| Contributed(cs, provider, e) && EntryReport(base, cs, catalog, provider, e, d) {
      var c := Candidate(provider, e);
      assert c.provider == provider && c.entry == e;
    }
    if s :| s in Extensions(cs) && OfExtension(base, cs, s, d) {
      SourcedIff(cs, s);
    }
    if c, x :| c in cs && x in c.extensions && ExtensionReport(catalog, c.provider, x, d) {
      var s := Sourced(c.provider, x);
      SourcedIff(cs, s);
      assert s.provider == c.provider && s.extension == x;
    }
  }

  ghost predicate OfCandidate(base: Base, cs: seq<Contributor>, c: Candidate, d: Diagnostic) {
    var x := ContextOf(base, cs);
    d in Stage2(x)(c) || d in Stage3(x)(c) || d in Stage4(x, base)(c)
  }

  ghost predicate OfExtension(base: Base, cs: seq<Contributor>, s: Sourced, d: Diagnostic) {
    var x := ContextOf(base, cs);
    d in Stage5(SystemIds(x, base), CoreIds(x, base))(s)
  }

  lemma ReportMembers(base: Base, cs: seq<Contributor>, catalog: Catalog, diagnostics: seq<Diagnostic>, d: Diagnostic)
    requires IsMerge(base, cs, catalog, diagnostics)
    ensures d in diagnostics <==>
      || (exists c :: c in Candidates(cs) && OfCandidate(base, cs, c, d))
      || (exists s :: s in Extensions(cs) && OfExtension(base, cs, s, d))
  {
    hide Candidates, Extensions, ContextOf, Stage2, Stage3,
      Stage4, Stage5, SystemIds, CoreIds, SystemRows, CoreRows, ExtendAll;
    PermutedMembers(diagnostics, Reports(base, cs));
    var x, all := ContextOf(base, cs), Candidates(cs);
    FlatMapMembers(Stage2(x), all, d);
    FlatMapMembers(Stage3(x), all, d);
    FlatMapMembers(Stage4(x, base), all, d);
    FlatMapMembers(Stage5(SystemIds(x, base), CoreIds(x, base)), Extensions(cs), d);
  }
}
