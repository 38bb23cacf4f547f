/** `jw_catalog_merge` as it runs: staged loops over growing lists and `refused` flags. */
module CatalogMerge {
  import opened Wrappers
  import opened CStrings
  import opened Sorting
  import opened MergeModel

  /** Entries sit in the arrays their kind belongs to. */
  ghost predicate Typed(base: Base, cs: seq<Contributor>) {
    && (forall e | e in base.systems :: e.System?) && (forall e | e in base.cores :: e.Core?)
    && forall c | c in cs :: (forall e | e in c.systems :: e.System?) && (forall e | e in c.cores :: e.Core?)
  }

  // ---------------------------------------------------------------- claims

  /** `claims_add` */
  method AddClaim(list: seq<Claim>, kind: string, value: string) returns (r: seq<Claim>)
    requires NoRepeats(list)
    ensures NoRepeats(r) && forall k :: k in r <==> k in list || k == Claim(kind, Fold(value))
  {
    var next := Claim(kind, Fold(value));
    if next in list {
      return list;
    }
    return list + [next];
  }

  /** `strrchr(info, '/')`, one past it, or the whole name. */
  method AfterLastSlash(s: string) returns (r: string)
    ensures r == Basename(s)
  {
    var k: nat := |s|;
    while k > 0 && s[k - 1] != '/'
      invariant 0 <= k <= |s|
      invariant forall i | k <= i < |s| :: s[i] != '/'
    {
      k := k - 1;
    }
    assert s == s[..k] + s[k..];
    BasenameOf(s[..k], s[k..]);
    return s[k..];
  }

  /** `system_claims` and `core_claims` */
  method OwnedClaims(e: Entry) returns (r: seq<Claim>)
    ensures r == Owned(e)
  {
    var list := [];
    match e {
      case System(id, romRoot, imageRoot, patterns, _, _, _) =>
        list := AddClaim(list, "system_id", id);
        list := AddClaim(list, "rom_root", romRoot);
        list := AddClaim(list, "image_root", imageRoot);
        ghost var three := {Claim("system_id", Fold(id)),
          Claim("rom_root", Fold(romRoot)), Claim("image_root", Fold(imageRoot))};
        for i := 0 to |patterns|
          invariant NoRepeats(list)
          invariant forall k :: k in list <==> k in three + set p | p in patterns[..i] :: Claim("pattern", Fold(p))
        {
          list := AddClaim(list, "pattern", patterns[i]);
          assert patterns[..i + 1] == patterns[..i] + [patterns[i]];
        }
        assert patterns[..|patterns|] == patterns;
      case Core(id, folder, info, _) =>
        list := AddClaim(list, "core_id", id);
        if folder != "" {
          list := AddClaim(list, "config_folder", folder);
        }
        if info != "" {
          var name := AfterLastSlash(info);
          list := AddClaim(list, "info_name", name);
        }
    }
    assert forall k :: k in list <==> k in ClaimSet(e);
    ClaimLeIsComparison();
    r := QSort(list, ClaimLe);
    SortedListing(list, r, ClaimSet(e), ClaimLe);
    NoClaimTies(r);
    SortedSetUnique(r, ClaimSet(e), ClaimLe);
  }

  method AddClaims(list: seq<Claim>, e: Entry) returns (r: seq<Claim>)
    requires NoRepeats(list)
    ensures NoRepeats(r) && forall k :: k in r <==> k in list || k in ClaimSet(e)
  {
    var owned := OwnedClaims(e);
    r := list;
    for i := 0 to |owned|
      invariant NoRepeats(r) && forall k :: k in r <==> k in list || k in owned[..i]
    {
      if owned[i] !in r { r := r + [owned[i]]; }
      assert owned[..i + 1] == owned[..i] + [owned[i]];
    }
    assert owned[..|owned|] == owned;
  }

  /** `base_claims` */
  method ReleaseClaims(base: Base) returns (r: seq<Claim>)
    ensures forall k :: k in r <==> k in BaseClaims(base)
  {
    r := [];
    for i := 0 to |base.systems|
      invariant NoRepeats(r) && forall k :: k in r <==> exists e :: e in base.systems[..i] && k in ClaimSet(e)
    {
      r := AddClaims(r, base.systems[i]);
      assert base.systems[..i + 1] == base.systems[..i] + [base.systems[i]];
    }
    assert base.systems[..|base.systems|] == base.systems;
    ghost var systems := r;
    for i := 0 to |base.cores|
      invariant NoRepeats(r)
      invariant forall k :: k in r <==> k in systems || exists e :: e in base.cores[..i] && k in ClaimSet(e)
    {
      r := AddClaims(r, base.cores[i]);
      assert base.cores[..i + 1] == base.cores[..i] + [base.cores[i]];
    }
    assert base.cores[..|base.cores|] == base.cores;
  }

  // ---------------------------------------------------------------- candidates

  lemma FlatMapNone<T, U>(f: T -> seq<U>, s: seq<T>)
    ensures FlatMap(f, s[..0]) == []
  {
  }

  lemma FlatMapNext<T, U>(f: T -> seq<U>, s: seq<T>, i: nat)
    requires i < |s|
    ensures FlatMap(f, s[..i + 1]) == FlatMap(f, s[..i]) + f(s[i])
    ensures f(s[i]) == [] ==> FlatMap(f, s[..i + 1]) == FlatMap(f, s[..i])
  {
    assert s[..i + 1][..i] == s[..i];
  }

  method AddCandidates(all: seq<Candidate>, owned: seq<seq<Claim>>, provider: string, entries: seq<Entry>)
    returns (all': seq<Candidate>, owned': seq<seq<Claim>>)
    requires |owned| == |all| && forall i | 0 <= i < |all| :: owned[i] == Owned(all[i].entry)
    ensures all' == all + ByProvider(provider, entries)
    ensures |owned'| == |all'| && forall i | 0 <= i < |all'| :: owned'[i] == Owned(all'[i].entry)
  {
    all', owned' := all, owned;
    for i := 0 to |entries|
      invariant all' == all + ByProvider(provider, entries)[..i]
      invariant |owned'| == |all'| && forall j | 0 <= j < |all'| :: owned'[j] == Owned(all'[j].entry)
    {
      var claims := OwnedClaims(entries[i]);
      all', owned' := all' + [Candidate(provider, entries[i])], owned' + [claims];
    }
  }

  method CollectCandidates(cs: seq<Contributor>) returns (all: seq<Candidate>, owned: seq<seq<Claim>>)
    ensures all == Candidates(cs)
    ensures |owned| == |all| && forall i | 0 <= i < |all| :: owned[i] == Owned(all[i].entry)
  {
    all, owned := [], [];
    for i := 0 to |cs|
      invariant all == FlatMap(Offered, cs[..i])
      invariant |owned| == |all| && forall j | 0 <= j < |all| :: owned[j] == Owned(all[j].entry)
    {
      FlatMapNext(Offered, cs, i);
      ghost var before := all;
      all, owned := AddCandidates(all, owned, cs[i].provider, cs[i].systems);
      all, owned := AddCandidates(all, owned, cs[i].provider, cs[i].cores);
      assert all == before + Offered(cs[i]);
    }
    assert cs[..|cs|] == cs;
  }

  /** `strings_add` */
  method AddString(list: seq<string>, value: string) returns (r: seq<string>)
    ensures forall s :: ContainsFolded(r, s) <==> ContainsFolded(list, s) || Fold(s) == Fold(value)
    ensures NoRepeats(list) ==> NoRepeats(r)
    ensures forall s :: s in r <==> s in list || s == value
  {
    if value in list {
      return list;
    }
    r := list + [value];
    forall s ensures ContainsFolded(r, s) <==> ContainsFolded(list, s) || Fold(s) == Fold(value) {
      if ContainsFolded(list, s) {
        var i :| 0 <= i < |list| && Fold(list[i]) == Fold(s);
        assert r[i] == list[i];
      }
      if Fold(s) == Fold(value) { assert r[|list|] == value; }
    }
  }

  /** Holds the folded ids of `set` and no others. */
  ghost predicate FoldsTo(list: seq<string>, ids: set<string>) {
    forall s :: ContainsFolded(list, s) <==> Fold(s) in ids
  }

  /** `strings_add` of a refused core's id. */
  method AddCoreId(list: seq<string>, e: Entry, ghost ids: set<string>) returns (r: seq<string>)
    requires FoldsTo(list, ids)
    ensures e.Core? ==> FoldsTo(r, ids + {Fold(e.id)})
    ensures !e.Core? ==> FoldsTo(r, ids)
  {
    r := list;
    if e.Core? { r := AddString(list, e.id); }
  }

  // ---------------------------------------------------------------- stage 2

  ghost predicate Candidating(x: Context, all: seq<Candidate>, owned: seq<seq<Claim>>) {
    && x.all == (set c | c in all)
    && |owned| == |all| && forall i | 0 <= i < |all| :: owned[i] == Owned(all[i].entry)
  }

  lemma OwnedAt(x: Context, all: seq<Candidate>, owned: seq<seq<Claim>>, i: nat)
    requires Candidating(x, all, owned) && i < |all|
    ensures |owned| == |all| && owned[i] == Owned(all[i].entry)
  {
  }

  lemma OwnedIsClaimSet(e: Entry)
    ensures forall k :: k in Owned(e) <==> k in ClaimSet(e)
  {
  }

  /** `base_collision_detail`, its list of hits. */
  method CollisionHits(owned: seq<Claim>, release: seq<Claim>, ghost x: Context) returns (hits: seq<string>)
    requires forall k :: k in release <==> k in x.release
    ensures hits == Hits(x, owned)
  {
    hits := [];
    for i := 0 to |owned|
      invariant hits == Hits(x, owned[..i])
    {
      assert owned[..i + 1][..i] == owned[..i];
      if owned[i] in release { hits := hits + [owned[i].kind + "=" + owned[i].value]; }
    }
    assert owned[..|owned|] == owned;
  }

  method JoinNames(parts: seq<string>) returns (r: string)
    ensures r == Join(parts)
  {
    r := "";
    for i := 0 to |parts|
      invariant r == Join(parts[..i])
    {
      assert parts[..i + 1][..i] == parts[..i];
      r := if i == 0 then parts[0] else r + ", " + parts[i];
    }
    assert parts[..|parts|] == parts;
  }

  /** The folded ids of the entries of `all` that `keep` selects. */
  ghost function IdsWhere(keep: Candidate -> bool, all: seq<Candidate>): set<string>
    decreases |all|
  {
    if all == [] then {}
    else
      var c := all[|all| - 1];
      IdsWhere(keep, all[..|all| - 1]) + (if keep(c) then {Fold(c.entry.id)} else {})
  }

  lemma {:induction false} IdsWhereMembers(keep: Candidate -> bool, all: seq<Candidate>, s: string)
    ensures s in IdsWhere(keep, all) <==> exists c :: c in all && keep(c) && Fold(c.entry.id) == s
    decreases |all|
  {
    if all != [] {
      var init, last := all[..|all| - 1], all[|all| - 1];
      IdsWhereMembers(keep, init, s);
      assert all == init + [last];
    }
  }

  lemma IdsWhereNext(keep: Candidate -> bool, all: seq<Candidate>, i: nat)
    requires i < |all|
    ensures keep(all[i]) ==> IdsWhere(keep, all[..i + 1]) == IdsWhere(keep, all[..i]) + {Fold(all[i].entry.id)}
    ensures !keep(all[i]) ==> IdsWhere(keep, all[..i + 1]) == IdsWhere(keep, all[..i])
  {
    assert all[..i + 1][..i] == all[..i];
  }

  lemma NothingYet(keep: Candidate -> bool, report: Candidate -> seq<Diagnostic>, all: seq<Candidate>)
    ensures IdsWhere(keep, all[..0]) == {} && FoldsTo([], {}) && FlatMap(report, all[..0]) == []
  {
  }

  ghost function HitCore(x: Context): Candidate -> bool {
    (c: Candidate) => c.entry.Core? && BaseHit(x, c)
  }

  ghost function ContestedCore(x: Context): Candidate -> bool {
    (c: Candidate) => c.entry.Core? && Contested(x, c)
  }

  method AnyClaimIn(owned: seq<Claim>, list: seq<Claim>) returns (hit: bool)
    ensures hit <==> exists k :: k in owned && k in list
  {
    hit := false;
    for n := 0 to |owned|
      invariant hit <==> exists k :: k in owned[..n] && k in list
    {
      assert owned[..n + 1] == owned[..n] + [owned[n]];
      if owned[n] in list { hit := true; }
    }
    assert owned[..|owned|] == owned;
  }

  lemma HitIff(x: Context, c: Candidate, owned: seq<Claim>, release: seq<Claim>)
    requires owned == Owned(c.entry) && forall k :: k in release <==> k in x.release
    ensures (exists k :: k in owned && k in release) <==> BaseHit(x, c)
  {
    if k :| k in owned && k in release { assert k in ClaimSet(c.entry) * x.release; }
    if BaseHit(x, c) {
      var k :| k in ClaimSet(c.entry) * x.release;
      assert k in owned && k in release;
    }
  }

  method HitsRelease(c: Candidate, owned: seq<Claim>, release: seq<Claim>, ghost x: Context) returns (hit: bool)
    requires owned == Owned(c.entry) && forall k :: k in release <==> k in x.release
    ensures hit <==> BaseHit(x, c)
  {
    HitIff(x, c, owned, release);
    hit := AnyClaimIn(owned, release);
  }

  method ReportBaseCollision(c: Candidate, owned: seq<Claim>, release: seq<Claim>, ghost x: Context)
    returns (d: Diagnostic)
    requires owned == Owned(c.entry) && forall k :: k in release <==> k in x.release
    ensures d == BaseCollision(x, c)
  {
    var hits := CollisionHits(owned, release, x);
    var text := JoinNames(hits);
    d := Diagnostic(c.provider, "base-collision",
      KindName(c.entry) + " " + c.entry.id + " claims " + text + " already owned by the release catalog");
  }

  method RefuseBaseCollisions(all: seq<Candidate>, owned: seq<seq<Claim>>, release: seq<Claim>, refused: array<bool>,
                              ghost x: Context)
    returns (refusedCores: seq<string>, diagnostics: seq<Diagnostic>)
    requires Candidating(x, all, owned) && refused.Length == |all|
    requires forall k :: k in release <==> k in x.release
    requires forall i | 0 <= i < |all| :: !refused[i]
    modifies refused
    ensures forall i | 0 <= i < |all| :: refused[i] <==> BaseHit(x, all[i])
    ensures FoldsTo(refusedCores, IdsWhere(HitCore(x), all))
    ensures diagnostics == FlatMap(Stage2(x), all)
  {
    hide BaseHit, BaseCollision, FoldsTo, IdsWhere, FlatMap, Fold, Candidating, Owned;
    refusedCores, diagnostics := [], [];
    NothingYet(HitCore(x), Stage2(x), all);
    for i := 0 to |all|
      invariant forall j | 0 <= j < i :: refused[j] <==> BaseHit(x, all[j])
      invariant forall j | i <= j < |all| :: !refused[j]
      invariant FoldsTo(refusedCores, IdsWhere(HitCore(x), all[..i]))
      invariant diagnostics == FlatMap(Stage2(x), all[..i])
    {
      FlatMapNext(Stage2(x), all, i);
      IdsWhereNext(HitCore(x), all, i);
      OwnedAt(x, all, owned, i);
      var hit := HitsRelease(all[i], owned[i], release, x);
      if hit {
        refused[i] := true;
        refusedCores := AddCoreId(refusedCores, all[i].entry, IdsWhere(HitCore(x), all[..i]));
        var d := ReportBaseCollision(all[i], owned[i], release, x);
        diagnostics := diagnostics + [d];
      }
    }
    assert all[..|all|] == all;
  }

  // ---------------------------------------------------------------- stage 3

  /** Whether another provider's entry that is not refused claims `k` too. */
  method IsContested(all: seq<Candidate>, owned: seq<seq<Claim>>, refused: array<bool>, i: nat, k: Claim,
                     ghost x: Context)
    returns (b: bool)
    requires Candidating(x, all, owned) && refused.Length == |all| && i < |all|
    requires forall j | 0 <= j < |all| :: refused[j] <==> BaseHit(x, all[j])
    requires k in owned[i]
    ensures b <==> Contests(x, all[i], k)
  {
    hide BaseHit, ClaimSet;
    OwnedIsClaimSet(all[i].entry);
    for j := 0 to |all|
      invariant forall m | 0 <= m < j ::
        BaseHit(x, all[m]) || all[m].provider == all[i].provider || k !in ClaimSet(all[m].entry)
    {
      OwnedIsClaimSet(all[j].entry);
      if j != i && !refused[j] && all[j].provider != all[i].provider && k in owned[j] {
        assert all[j] in x.all;
        return true;
      }
    }
    return false;
  }

  /** `first_contributor_collision` */
  method FirstCollision(all: seq<Candidate>, owned: seq<seq<Claim>>, refused: array<bool>, i: nat, ghost x: Context)
    returns (best: Option<Claim>)
    requires Candidating(x, all, owned) && refused.Length == |all| && i < |all|
    requires forall j | 0 <= j < |all| :: refused[j] <==> BaseHit(x, all[j])
    requires !refused[i]
    ensures best.Some? <==> Contested(x, all[i])
    ensures best.Some? ==> best.value == FirstContested(x, all[i])
  {
    hide BaseHit, Contests, ClaimSet;
    best := None;
    ghost var c := all[i];
    ClaimLeIsComparison();
    for n := 0 to |owned[i]|
      invariant best.Some? ==> Contests(x, c, best.value)
      invariant forall m | 0 <= m < n && Contests(x, c, owned[i][m]) :: best.Some? && ClaimLe(best.value, owned[i][m])
    {
      var contested := IsContested(all, owned, refused, i, owned[i][n], x);
      if contested && (best.None? || !ClaimLe(best.value, owned[i][n])) {
        best := Some(owned[i][n]);
      }
    }
    LeastFound(x, c, owned[i], best);
  }

  lemma LeastFound(x: Context, c: Candidate, owned: seq<Claim>, best: Option<Claim>)
    requires owned == Owned(c.entry) && !BaseHit(x, c)
    requires best.Some? ==> Contests(x, c, best.value)
    requires forall m | 0 <= m < |owned| && Contests(x, c, owned[m]) :: best.Some? && ClaimLe(best.value, owned[m])
    ensures best.Some? <==> Contested(x, c)
    ensures best.Some? ==> best.value == FirstContested(x, c)
  {
    OwnedIsClaimSet(c.entry);
    if Contested(x, c) {
      var f := FirstContested(x, c);
      assert f in owned;
      var m :| 0 <= m < |owned| && owned[m] == f;
      NoClaimTies([f, best.value]);
    }
  }

  /** The other providers among the first `n` candidates that claim `k`. */
  ghost function RivalSet(all: seq<Candidate>, c: Candidate, k: Claim, n: nat): set<string>
    requires n <= |all|
  {
    if n == 0 then {}
    else
      var d := all[n - 1];
      RivalSet(all, c, k, n - 1) + (if d.provider != c.provider && k in ClaimSet(d.entry) then {d.provider} else {})
  }

  lemma {:induction false} RivalSetMembers(all: seq<Candidate>, c: Candidate, k: Claim, n: nat, s: string)
    requires n <= |all|
    ensures s in RivalSet(all, c, k, n)
      <==> exists d :: d in all[..n] && d.provider != c.provider && k in ClaimSet(d.entry) && d.provider == s
  {
    if n > 0 {
      RivalSetMembers(all, c, k, n - 1, s);
      assert all[..n] == all[..n - 1] + [all[n - 1]];
    }
  }

  method RivalNames(all: seq<Candidate>, owned: seq<seq<Claim>>, i: nat, k: Claim, ghost x: Context)
    returns (names: seq<string>)
    requires Candidating(x, all, owned) && i < |all|
    ensures names == Rivals(x, all[i], k)
  {
    hide ClaimSet;
    var list := [];
    ghost var c := all[i];
    for j := 0 to |all|
      invariant NoRepeats(list)
      invariant forall s :: s in list <==> s in RivalSet(all, c, k, j)
    {
      OwnedIsClaimSet(all[j].entry);
      if j != i && all[j].provider != all[i].provider && k in owned[j] { list := AddString(list, all[j].provider); }
    }
    StrLeIsComparison();
    names := QSort(list, StrLe);
    ghost var rivals := set d | d in x.all && d.provider != c.provider && k in ClaimSet(d.entry) :: d.provider;
    RivalsAre(all, c, k, x);
    SortedListing(list, names, rivals, StrLe);
    NoStringTies(names);
    SortedSetUnique(names, rivals, StrLe);
  }

  lemma RivalsAre(all: seq<Candidate>, c: Candidate, k: Claim, x: Context)
    requires x.all == set d | d in all
    ensures RivalSet(all, c, k, |all|) == set d | d in x.all
      && d.provider != c.provider && k in ClaimSet(d.entry) :: d.provider
  {
    assert all[..|all|] == all;
    forall s { RivalSetMembers(all, c, k, |all|, s); }
  }

  method ReportContested(all: seq<Candidate>, owned: seq<seq<Claim>>, i: nat, k: Claim, ghost x: Context)
    returns (d: Diagnostic)
    requires Candidating(x, all, owned) && i < |all|
    requires Contested(x, all[i]) && k == FirstContested(x, all[i])
    ensures d == ContributorCollision(x, all[i])
  {
    var names := RivalNames(all, owned, i, k, x);
    var joined := JoinNames(names);
    d := Diagnostic(all[i].provider, "contributor-collision",
      KindName(all[i].entry) + " " + all[i].entry.id + " claims " + k.kind + "=" + k.value + ", also claimed by "
      + joined + "; both refused");
  }

  method FindCollisions(all: seq<Candidate>, owned: seq<seq<Claim>>, refused: array<bool>, ghost x: Context)
    returns (collisions: seq<Option<Claim>>)
    requires Candidating(x, all, owned) && refused.Length == |all|
    requires forall i | 0 <= i < |all| :: refused[i] <==> BaseHit(x, all[i])
    ensures |collisions| == |all|
    ensures forall j | 0 <= j < |all| :: collisions[j].Some? <==> Contested(x, all[j])
    ensures forall j | 0 <= j < |all| && collisions[j].Some? :: collisions[j].value == FirstContested(x, all[j])
  {
    hide BaseHit, ClaimSet;
    collisions := [];
    for i := 0 to |all|
      invariant |collisions| == i
      invariant forall j | 0 <= j < i :: collisions[j].Some? <==> Contested(x, all[j])
      invariant forall j | 0 <= j < i && collisions[j].Some? :: collisions[j].value == FirstContested(x, all[j])
    {
      var best := None;
      if !refused[i] { best := FirstCollision(all, owned, refused, i, x); }
      collisions := collisions + [best];
    }
  }

  /** Every claimant of a contested claim is refused; all collisions are found before any is marked. */
  method RefuseContested(all: seq<Candidate>, owned: seq<seq<Claim>>, refused: array<bool>, refusedCores: seq<string>,
                         ghost x: Context)
    returns (refusedCores': seq<string>, diagnostics: seq<Diagnostic>)
    requires Candidating(x, all, owned) && refused.Length == |all|
    requires forall i | 0 <= i < |all| :: refused[i] <==> BaseHit(x, all[i])
    requires FoldsTo(refusedCores, IdsWhere(HitCore(x), all))
    modifies refused
    ensures forall i | 0 <= i < |all| :: refused[i] <==> RefusedEarly(x, all[i])
    ensures FoldsTo(refusedCores', RefusedCoreIds(x))
    ensures diagnostics == FlatMap(Stage3(x), all)
  {
    hide *;
    var collisions := FindCollisions(all, owned, refused, x);
    refusedCores', diagnostics := refusedCores, [];
    NothingYet(ContestedCore(x), Stage3(x), all);
    RefusedSoFarStarts(x, all);
    for i := 0 to |all|
      invariant forall j | 0 <= j < i :: refused[j] <==> RefusedEarly(x, all[j])
      invariant forall j | i <= j < |all| :: refused[j] <==> BaseHit(x, all[j])
      invariant FoldsTo(refusedCores', RefusedSoFar(x, all, i))
      invariant diagnostics == FlatMap(Stage3(x), all[..i])
    {
      Stage3Step(x, all, i);
      if collisions[i].Some? {
        refused[i] := true;
        refusedCores' := AddCoreId(refusedCores', all[i].entry, RefusedSoFar(x, all, i));
        var d := ReportContested(all, owned, i, collisions[i].value, x);
        diagnostics := diagnostics + [d];
      }
    }
    assert all[..|all|] == all;
    RefusedCoresAre(all, owned, x);
  }

  /** Folded ids of the cores refused in stage 2, and in stage 3 up to candidate `i`. */
  ghost function RefusedSoFar(x: Context, all: seq<Candidate>, i: nat): set<string>
    requires i <= |all|
  {
    IdsWhere(HitCore(x), all) + IdsWhere(ContestedCore(x), all[..i])
  }

  lemma RefusedSoFarStarts(x: Context, all: seq<Candidate>)
    ensures RefusedSoFar(x, all, 0) == IdsWhere(HitCore(x), all)
  {
  }

  /** What one candidate adds in stage 3. */
  lemma Stage3Step(x: Context, all: seq<Candidate>, i: nat)
    requires i < |all|
    ensures RefusedEarly(x, all[i]) <==> BaseHit(x, all[i]) || Contested(x, all[i])
    ensures Contested(x, all[i]) ==>
      FlatMap(Stage3(x), all[..i + 1]) == FlatMap(Stage3(x), all[..i]) + [ContributorCollision(x, all[i])]
    ensures !Contested(x, all[i]) ==> FlatMap(Stage3(x), all[..i + 1]) == FlatMap(Stage3(x), all[..i])
    ensures Contested(x, all[i]) && all[i].entry.Core? ==>
      RefusedSoFar(x, all, i + 1) == RefusedSoFar(x, all, i) + {Fold(all[i].entry.id)}
    ensures !(Contested(x, all[i]) && all[i].entry.Core?) ==> RefusedSoFar(x, all, i + 1) == RefusedSoFar(x, all, i)
  {
    hide BaseHit, Contested, ContributorCollision, FlatMap, IdsWhere, Fold;
    FlatMapNext(Stage3(x), all, i);
    IdsWhereNext(ContestedCore(x), all, i);
  }

  lemma RefusedCoresAre(all: seq<Candidate>, owned: seq<seq<Claim>>, x: Context)
    requires Candidating(x, all, owned)
    ensures RefusedSoFar(x, all, |all|) == RefusedCoreIds(x)
  {
    assert all[..|all|] == all;
    var hits, contested := IdsWhere(HitCore(x), all), IdsWhere(ContestedCore(x), all);
    forall s ensures s in hits + contested <==> s in RefusedCoreIds(x) {
      IdsWhereMembers(HitCore(x), all, s); IdsWhereMembers(ContestedCore(x), all, s);
    }
  }

  // ---------------------------------------------------------------- stage 4

  /** `strings_contains_casefold` */
  method FindFolded(list: seq<string>, value: string) returns (b: bool)
    ensures b <==> ContainsFolded(list, value)
  {
    for i := 0 to |list|
      invariant forall j | 0 <= j < i :: Fold(list[j]) != Fold(value)
    {
      if Fold(list[i]) == Fold(value) {
        return true;
      }
    }
    return false;
  }

  ghost function AvailableCore(x: Context): Candidate -> bool {
    (c: Candidate) => c.entry.Core? && !RefusedEarly(x, c)
  }

  /** Release core ids and those of the first `i` candidates. */
  ghost function CoresSoFar(x: Context, base: Base, all: seq<Candidate>, i: nat): set<string>
    requires i <= |all|
  {
    (set e | e in base.cores :: Fold(e.id)) + IdsWhere(AvailableCore(x), all[..i])
  }

  lemma CoresStep(x: Context, base: Base, all: seq<Candidate>, i: nat)
    requires i < |all|
    ensures all[i].entry.Core? && !RefusedEarly(x, all[i]) ==>
      CoresSoFar(x, base, all, i + 1) == CoresSoFar(x, base, all, i) + {Fold(all[i].entry.id)}
    ensures !(all[i].entry.Core? && !RefusedEarly(x, all[i])) ==>
      CoresSoFar(x, base, all, i + 1) == CoresSoFar(x, base, all, i)
  {
    hide RefusedEarly, IdsWhere, Fold;
    IdsWhereNext(AvailableCore(x), all, i);
  }

  lemma CoresStart(x: Context, base: Base, all: seq<Candidate>)
    ensures CoresSoFar(x, base, all, 0) == set e | e in base.cores :: Fold(e.id)
  {
  }

  lemma CoresEnd(x: Context, base: Base, all: seq<Candidate>, owned: seq<seq<Claim>>)
    requires Candidating(x, all, owned)
    ensures CoresSoFar(x, base, all, |all|) == CoreIds(x, base)
  {
    hide RefusedEarly;
    assert all[..|all|] == all;
    forall s ensures s in CoresSoFar(x, base, all, |all|) <==> s in CoreIds(x, base) {
      IdsWhereMembers(AvailableCore(x), all, s);
    }
  }

  method ReleaseCoreIds(base: Base) returns (ids: seq<string>)
    ensures FoldsTo(ids, set e | e in base.cores :: Fold(e.id))
  {
    ids := [];
    for i := 0 to |base.cores|
      invariant FoldsTo(ids, set e | e in base.cores[..i] :: Fold(e.id))
    {
      assert base.cores[..i + 1] == base.cores[..i] + [base.cores[i]];
      ids := AddString(ids, base.cores[i].id);
    }
    assert base.cores[..|base.cores|] == base.cores;
  }

  method AvailableCores(base: Base, all: seq<Candidate>, owned: seq<seq<Claim>>, refused: array<bool>, ghost x: Context)
    returns (ids: seq<string>)
    requires Candidating(x, all, owned) && refused.Length == |all|
    requires forall i | 0 <= i < |all| :: refused[i] <==> RefusedEarly(x, all[i])
    ensures FoldsTo(ids, CoreIds(x, base))
  {
    hide *;
    ids := ReleaseCoreIds(base);
    CoresStart(x, base, all);
    for i := 0 to |all|
      invariant FoldsTo(ids, CoresSoFar(x, base, all, i))
    {
      CoresStep(x, base, all, i);
      if !refused[i] && all[i].entry.Core? {
        ids := AddCoreId(ids, all[i].entry, CoresSoFar(x, base, all, i));
      }
    }
    CoresEnd(x, base, all, owned);
  }

  /** The stage-4 flags: refused early, and late too once a pass has run. */
  ghost predicate Flagged(x: Context, base: Base, c: Candidate, ran: bool) {
    RefusedEarly(x, c) || (ran && RefusedLate(x, base, c))
  }

  method ReportMissingCore(c: Candidate, refusedCores: seq<string>, ghost x: Context) returns (d: Diagnostic)
    requires c.entry.System? && FoldsTo(refusedCores, RefusedCoreIds(x))
    ensures d == MissingCore(x, c)
  {
    var refusedCore := FindFolded(refusedCores, c.entry.defaultCore);
    d := Diagnostic(c.provider,
      if refusedCore then "default-core-unavailable" else "unknown-default-core",
      "system " + c.entry.id + " needs core " + c.entry.defaultCore + ", which is not available after merge; "
      + "the system is refused too rather than producing a tile that cannot launch");
  }

  lemma Stage4Step(x: Context, base: Base, all: seq<Candidate>, i: nat)
    requires i < |all|
    ensures RefusedLate(x, base, all[i]) <==>
      all[i].entry.System? && !RefusedEarly(x, all[i]) && Fold(all[i].entry.defaultCore) !in CoreIds(x, base)
    ensures Flagged(x, base, all[i], true) <==> RefusedEarly(x, all[i]) || RefusedLate(x, base, all[i])
    ensures Flagged(x, base, all[i], false) <==> RefusedEarly(x, all[i])
    ensures RefusedLate(x, base, all[i]) ==>
      FlatMap(Stage4(x, base), all[..i + 1]) == FlatMap(Stage4(x, base), all[..i]) + [MissingCore(x, all[i])]
    ensures !RefusedLate(x, base, all[i]) ==>
      FlatMap(Stage4(x, base), all[..i + 1]) == FlatMap(Stage4(x, base), all[..i])
  {
    hide RefusedEarly, CoreIds, FlatMap, Fold, MissingCore;
    FlatMapNext(Stage4(x, base), all, i);
  }

  method CoreExists(ids: seq<string>, name: string, ghost set_: set<string>) returns (b: bool)
    requires FoldsTo(ids, set_)
    ensures b <==> Fold(name) in set_
  {
    b := FindFolded(ids, name);
  }

  /** One pass of the fixed point. `ran` tells whether an earlier pass did the work already. */
  method DropPass(base: Base, all: seq<Candidate>, refused: array<bool>, coreIds: seq<string>,
                  refusedCores: seq<string>,
                  ghost x: Context, ghost ran: bool)
    returns (dropped: bool, diagnostics: seq<Diagnostic>)
    requires refused.Length == |all|
    requires FoldsTo(coreIds, CoreIds(x, base)) && FoldsTo(refusedCores, RefusedCoreIds(x))
    requires forall i | 0 <= i < |all| :: refused[i] <==> Flagged(x, base, all[i], ran)
    modifies refused
    ensures forall i | 0 <= i < |all| :: refused[i] <==> Flagged(x, base, all[i], true)
    ensures diagnostics == if ran then [] else FlatMap(Stage4(x, base), all)
    ensures ran ==> !dropped
  {
    hide *;
    dropped, diagnostics := false, [];
    FlatMapNone(Stage4(x, base), all);
    for i := 0 to |all|
      invariant forall j | 0 <= j < i :: refused[j] <==> Flagged(x, base, all[j], true)
      invariant forall j | i <= j < |all| :: refused[j] <==> Flagged(x, base, all[j], ran)
      invariant diagnostics == if ran then [] else FlatMap(Stage4(x, base), all[..i])
      invariant ran ==> !dropped
    {
      Stage4Step(x, base, all, i);
      if !refused[i] && all[i].entry.System? {
        var present := CoreExists(coreIds, all[i].entry.defaultCore, CoreIds(x, base));
        if !present {
          refused[i] := true;
          dropped := true;
          var d := ReportMissingCore(all[i], refusedCores, x);
          diagnostics := diagnostics + [d];
        }
      }
    }
    assert all[..|all|] == all;
  }

  /** Stage 4 as the fixed-point loop it is written as; it never runs more than twice. */
  method DropDependents(base: Base, all: seq<Candidate>, refused: array<bool>, coreIds: seq<string>,
                        refusedCores: seq<string>, ghost x: Context)
    returns (diagnostics: seq<Diagnostic>, ghost passes: nat)
    requires refused.Length == |all|
    requires FoldsTo(coreIds, CoreIds(x, base)) && FoldsTo(refusedCores, RefusedCoreIds(x))
    requires forall i | 0 <= i < |all| :: refused[i] <==> RefusedEarly(x, all[i])
    modifies refused
    ensures forall i | 0 <= i < |all| :: refused[i] <==> !Survives(x, base, all[i])
    ensures diagnostics == FlatMap(Stage4(x, base), all)
    ensures 1 <= passes <= 2
  {
    diagnostics, passes := [], 0;
    var dropped := true;
    while dropped
      invariant passes <= 2
      invariant dropped <==> passes == 0 || (passes == 1 && dropped)
      invariant forall i | 0 <= i < |all| :: refused[i] <==> Flagged(x, base, all[i], passes > 0)
      invariant diagnostics == if passes > 0 then FlatMap(Stage4(x, base), all) else []
      decreases 2 - passes
    {
      var more;
      dropped, more := DropPass(base, all, refused, coreIds, refusedCores, x, passes > 0);
      diagnostics := diagnostics + more;
      passes := passes + 1;
    }
  }

  // ---------------------------------------------------------------- the rows

  lemma RowsStep(x: Context, base: Base, all: seq<Candidate>, i: nat)
    requires i < |all|
    ensures var c := all[i]; var kept := Survives(x, base, c);
      && FlatMap(SystemRow(x, base), all[..i + 1])
           == FlatMap(SystemRow(x, base), all[..i]) + (if c.entry.System? && kept then [Adopted(c)] else [])
      && FlatMap(CoreRow(x, base), all[..i + 1])
           == FlatMap(CoreRow(x, base), all[..i]) + (if c.entry.Core? && kept then [Adopted(c)] else [])
  {
    hide Survives, Adopted, FlatMap;
    FlatMapNext(SystemRow(x, base), all, i);
    FlatMapNext(CoreRow(x, base), all, i);
  }

  lemma Append1<T>(a: seq<T>, b: seq<T>, x: T)
    ensures (a + b) + [x] == a + (b + [x]) && (a + b) + [] == a + b && b + [] == b
  {
  }

  /** The release rows, then a copy of every survivor. */
  method BuildRows(base: Base, all: seq<Candidate>, refused: array<bool>, ghost x: Context)
    returns (systems: seq<Row>, cores: seq<Row>)
    requires refused.Length == |all|
    requires forall i | 0 <= i < |all| :: refused[i] <==> !Survives(x, base, all[i])
    ensures systems == SystemRows(x, base, all) && cores == CoreRows(x, base, all)
  {
    hide Survives, Adopted, FlatMap;
    systems, cores := ReleaseRows(base.systems), ReleaseRows(base.cores);
    FlatMapNone(SystemRow(x, base), all);
    FlatMapNone(CoreRow(x, base), all);
    for i := 0 to |all|
      invariant systems == ReleaseRows(base.systems) + FlatMap(SystemRow(x, base), all[..i])
      invariant cores == ReleaseRows(base.cores) + FlatMap(CoreRow(x, base), all[..i])
    {
      RowsStep(x, base, all, i);
      if !refused[i] {
        var copy := Adopted(all[i]);
        Append1(ReleaseRows(base.systems), FlatMap(SystemRow(x, base), all[..i]), copy);
        Append1(ReleaseRows(base.cores), FlatMap(CoreRow(x, base), all[..i]), copy);
        if all[i].entry.Core? {
          cores := cores + [copy];
        } else {
          systems := systems + [copy];
        }
      }
    }
    assert all[..|all|] == all;
  }

  // ---------------------------------------------------------------- stage 5

  /** `find_id` */
  method FindId(rows: seq<Row>, id: string) returns (r: Option<nat>)
    ensures r == FirstWithId(rows, id)
  {
    for i := 0 to |rows|
      invariant FirstWithId(rows[..i], id) == None
    {
      assert rows[..i + 1][..i] == rows[..i];
      if Fold(rows[i].entry.id) == Fold(id) {
        FirstStays(rows, id, i + 1);
        return Some(i);
      }
    }
    assert rows[..|rows|] == rows;
    return None;
  }

  lemma {:induction false} FirstStays(rows: seq<Row>, id: string, n: nat)
    requires n <= |rows| && FirstWithId(rows[..n], id).Some?
    ensures FirstWithId(rows, id) == FirstWithId(rows[..n], id)
    decreases |rows|
  {
    if n == |rows| {
      assert rows[..n] == rows;
    } else {
      assert rows[..|rows| - 1][..n] == rows[..n];
      FirstStays(rows[..|rows| - 1], id, n);
    }
  }

  method AddAlternates(provider: string, systemId: string, alternates: seq<string>, names: seq<string>,
                       coreIds: seq<string>, ghost ids: set<string>)
    returns (r: seq<string>, diagnostics: seq<Diagnostic>)
    requires FoldsTo(coreIds, ids)
    ensures r == AddNames(alternates, names, ids)
    ensures diagnostics == FlatMap(DanglingNames(provider, systemId, ids), names)
  {
    hide FoldsTo;
    r, diagnostics := alternates, [];
    ghost var report := DanglingNames(provider, systemId, ids);
    FlatMapNone(report, names);
    for i := 0 to |names|
      invariant r == AddNames(alternates, names[..i], ids)
      invariant diagnostics == FlatMap(report, names[..i])
    {
      FlatMapNext(report, names, i);
      assert names[..i + 1][..i] == names[..i];
      var known := CoreExists(coreIds, names[i], ids);
      if !known {
        diagnostics := diagnostics + [DanglingCore(provider, systemId, names[i])];
      } else {
        var exists_ := FindFolded(r, names[i]);
        if !exists_ { r := r + [names[i]]; }
      }
    }
    assert names[..|names|] == names;
  }

  /** The rows carry exactly these folded ids. */
  ghost predicate RowIds(rows: seq<Row>, ids: set<string>) {
    forall s :: Fold(s) in ids <==> exists i :: 0 <= i < |rows| && Fold(rows[i].entry.id) == Fold(s)
  }

  /** What one extension does and reports, by whether its system exists. */
  lemma ExtensionStep(rows: seq<Row>, s: Sourced, ids: set<string>, systemIds: set<string>)
    requires AllSystems(rows) && RowIds(rows, systemIds)
    ensures var at := FirstWithId(rows, s.extension.systemId);
      && (at.None? ==>
            && Stage5(systemIds, ids)(s) == [DanglingSystem(s.provider, s.extension.systemId)]
            && Extended(rows, s.extension, ids) == rows)
      && (at.Some? ==>
            && at.value < |rows| && rows[at.value].entry.System?
            && Stage5(systemIds, ids)(s)
              == FlatMap(DanglingNames(s.provider, s.extension.systemId, ids), s.extension.addCores)
            && Extended(rows, s.extension, ids)
              == rows[at.value := rows[at.value].(entry := rows[at.value].entry.(alternates :=
                 Some(AddNames(Listed(rows[at.value].entry.alternates), s.extension.addCores, ids))))])
  {
    hide Fold, AddNames, FlatMap, DanglingNames;
    FirstWithIdInRange(rows, s.extension.systemId);
    if FirstWithId(rows, s.extension.systemId).Some? {
      assert rows[FirstWithId(rows, s.extension.systemId).value] in rows;
    }
  }

  lemma ExtendedKeepsIds(rows: seq<Row>, e: Extension, ids: set<string>, systemIds: set<string>)
    requires AllSystems(rows) && RowIds(rows, systemIds)
    ensures RowIds(Extended(rows, e, ids), systemIds)
  {
    hide Fold, AddNames, Extended;
    ExtendedSameIds(rows, e, ids);
  }

  lemma ExtendedSameIds(rows: seq<Row>, e: Extension, ids: set<string>)
    requires AllSystems(rows)
    ensures var r := Extended(rows, e, ids);
      |r| == |rows| && forall i | 0 <= i < |rows| :: r[i].entry.id == rows[i].entry.id
  {
    hide Fold, AddNames;
    FirstWithIdInRange(rows, e.systemId);
  }

  method ApplyExtension(rows: seq<Row>, s: Sourced, coreIds: seq<string>, ghost ids: set<string>,
                        ghost systemIds: set<string>)
    returns (rows': seq<Row>, diagnostics: seq<Diagnostic>)
    requires AllSystems(rows) && FoldsTo(coreIds, ids) && RowIds(rows, systemIds)
    ensures rows' == Extended(rows, s.extension, ids)
    ensures RowIds(rows', systemIds)
    ensures diagnostics == Stage5(systemIds, ids)(s)
  {
    hide *;
    var e := s.extension;
    ExtensionStep(rows, s, ids, systemIds);
    ExtendedKeepsIds(rows, e, ids, systemIds);
    var at := FindId(rows, e.systemId);
    if at.None? {
      return rows, [DanglingSystem(s.provider, e.systemId)];
    }
    var row := rows[at.value];
    var alternates;
    alternates, diagnostics :=
      AddAlternates(s.provider, e.systemId, Listed(row.entry.alternates), e.addCores, coreIds, ids);
    rows' := rows[at.value := row.(entry := row.entry.(alternates := Some(alternates)))];
  }

  lemma NothingExtended(rows: seq<Row>, cs: seq<Contributor>, ids: set<string>, systemIds: set<string>)
    requires AllSystems(rows)
    ensures FlatMap(Extends, cs[..0]) == [] && ExtendAll(rows, [], ids) == rows
    ensures FlatMap(Stage5(systemIds, ids), []) == []
  {
  }

  lemma ExtendsOf(c: Contributor)
    ensures |Extends(c)| == |c.extensions|
    ensures Extends(c)[..0] == [] && Extends(c)[..|c.extensions|] == Extends(c)
    ensures forall j | 0 <= j < |c.extensions| ::
      Extends(c)[..j + 1] == Extends(c)[..j] + [Sourced(c.provider, c.extensions[j])]
  {
  }

  lemma OneExtended(rows: seq<Row>, done: seq<Sourced>, s: Sourced, ids: set<string>, systemIds: set<string>)
    requires AllSystems(rows)
    ensures ExtendAll(rows, done + [s], ids) == Extended(ExtendAll(rows, done, ids), s.extension, ids)
    ensures FlatMap(Stage5(systemIds, ids), done + [s])
      == FlatMap(Stage5(systemIds, ids), done) + Stage5(systemIds, ids)(s)
  {
    hide Extended, Stage5;
    assert (done + [s])[..|done|] == done;
  }

  method ExtendSystems(rows: seq<Row>, cs: seq<Contributor>, coreIds: seq<string>, ghost ids: set<string>,
                       ghost systemIds: set<string>)
    returns (rows': seq<Row>, diagnostics: seq<Diagnostic>)
    requires AllSystems(rows) && FoldsTo(coreIds, ids) && RowIds(rows, systemIds)
    ensures rows' == ExtendAll(rows, Extensions(cs), ids)
    ensures diagnostics == FlatMap(Stage5(systemIds, ids), Extensions(cs))
  {
    hide FoldsTo, Fold, Extended, ExtendAll, RowIds, Stage5, FlatMap, Extends;
    rows', diagnostics := rows, [];
    ghost var done: seq<Sourced> := [];
    NothingExtended(rows, cs, ids, systemIds);
    for i := 0 to |cs|
      invariant done == FlatMap(Extends, cs[..i])
      invariant rows' == ExtendAll(rows, done, ids) && RowIds(rows', systemIds)
      invariant diagnostics == FlatMap(Stage5(systemIds, ids), done)
    {
      FlatMapNext(Extends, cs, i);
      ExtendsOf(cs[i]);
      ghost var before := done;
      for j := 0 to |cs[i].extensions|
        invariant done == before + Extends(cs[i])[..j]
        invariant rows' == ExtendAll(rows, done, ids) && RowIds(rows', systemIds)
        invariant diagnostics == FlatMap(Stage5(systemIds, ids), done)
      {
        var s := Sourced(cs[i].provider, cs[i].extensions[j]);
        var more;
        rows', more := ApplyExtension(rows', s, coreIds, ids, systemIds);
        diagnostics := diagnostics + more;
        OneExtended(rows, done, s, ids, systemIds);
        done := done + [s];
      }
    }
    assert cs[..|cs|] == cs;
  }

  // ---------------------------------------------------------------- the whole merge

  lemma CandidateKinds(base: Base, cs: seq<Contributor>)
    requires Typed(base, cs)
    ensures AllSystems(SystemRows(ContextOf(base, cs), base, Candidates(cs)))
  {
    hide Survives, Adopted;
    var x := ContextOf(base, cs);
    SystemRowsAreSystems(x, base, Candidates(cs));
  }

  lemma {:induction false} SystemRowsAreSystems(x: Context, base: Base, all: seq<Candidate>)
    ensures forall r | r in FlatMap(SystemRow(x, base), all) :: r.entry.System?
    decreases |all|
  {
    hide Survives;
    if all != [] { SystemRowsAreSystems(x, base, all[..|all| - 1]); }
  }

  lemma {:induction false} RowFrom(x: Context, base: Base, all: seq<Candidate>, r: Row)
    ensures r in FlatMap(SystemRow(x, base), all)
      <==> exists c :: c in all && c.entry.System? && Survives(x, base, c) && r == Adopted(c)
    decreases |all|
  {
    hide Survives, Adopted;
    if all != [] {
      var init, last := all[..|all| - 1], all[|all| - 1];
      RowFrom(x, base, init, r);
      assert all == init + [last];
      assert SystemRow(x, base)(last) == if last.entry.System? && Survives(x, base, last) then [Adopted(last)] else [];
    }
  }

  /** Where a system row comes from. */
  lemma SystemRowFrom(x: Context, base: Base, all: seq<Candidate>, r: Row)
    ensures r in SystemRows(x, base, all) <==>
      || (exists e :: e in base.systems && r == Row(e, None))
      || (exists c :: c in all && c.entry.System? && Survives(x, base, c) && r == Adopted(c))
  {
    hide Survives, Adopted, FlatMap;
    RowFrom(x, base, all, r);
    if e :| e in base.systems && r == Row(e, None) {
      var i :| 0 <= i < |base.systems| && base.systems[i] == e;
      assert ReleaseRows(base.systems)[i] == r;
    }
  }

  lemma RowHasId(x: Context, base: Base, all: seq<Candidate>, s: string)
    requires x.all == (set c | c in all) && Fold(s) in SystemIds(x, base)
    ensures exists r :: r in SystemRows(x, base, all) && Fold(r.entry.id) == Fold(s)
  {
    hide Survives, Fold, FlatMap;
    if e :| e in base.systems && Fold(e.id) == Fold(s) {
      SystemRowFrom(x, base, all, Row(e, None));
    } else {
      var c :| c in x.all && c.entry.System? && Survives(x, base, c) && Fold(c.entry.id) == Fold(s);
      SystemRowFrom(x, base, all, Adopted(c));
    }
  }

  lemma IdHasRow(x: Context, base: Base, all: seq<Candidate>, r: Row)
    requires x.all == (set c | c in all) && r in SystemRows(x, base, all)
    ensures Fold(r.entry.id) in SystemIds(x, base)
  {
    hide Survives, Fold, FlatMap;
    SystemRowFrom(x, base, all, r);
  }

  lemma SystemRowIds(base: Base, cs: seq<Contributor>)
    ensures RowIds(SystemRows(ContextOf(base, cs), base, Candidates(cs)), SystemIds(ContextOf(base, cs), base))
  {
    hide Survives, FlatMap, Fold, SystemIds, SystemRows, Candidates;
    var x, all := ContextOf(base, cs), Candidates(cs);
    var rows := SystemRows(x, base, all);
    forall s
      ensures Fold(s) in SystemIds(x, base) <==> exists i :: 0 <= i < |rows| && Fold(rows[i].entry.id) == Fold(s)
    {
      if Fold(s) in SystemIds(x, base) {
        RowHasId(x, base, all, s);
        var r :| r in rows && Fold(r.entry.id) == Fold(s);
        var i :| 0 <= i < |rows| && rows[i] == r;
      }
      if i :| 0 <= i < |rows| && Fold(rows[i].entry.id) == Fold(s) { IdHasRow(x, base, all, rows[i]); }
    }
  }

  /** jw_catalog_merge */
  method Merge(base: Base, cs: seq<Contributor>)
    returns (catalog: Catalog, diagnostics: seq<Diagnostic>, ghost passes: nat)
    requires Typed(base, cs)
    ensures IsMerge(base, cs, catalog, diagnostics)
    ensures passes <= 2
  {
    hide *;
    ghost var x := ContextOf(base, cs);
    CandidateKinds(base, cs);
    SystemRowIds(base, cs);
    var release := ReleaseClaims(base);
    var all, owned := CollectCandidates(cs);
    ContextFits(base, cs, all, owned);
    var refused := new bool[|all|](_ => false);
    var refusedCores, d2 := RefuseBaseCollisions(all, owned, release, refused, x);
    var d3;
    refusedCores, d3 := RefuseContested(all, owned, refused, refusedCores, x);
    var coreIds := AvailableCores(base, all, owned, refused, x);
    var d4;
    d4, passes := DropDependents(base, all, refused, coreIds, refusedCores, x);
    var systems, cores := BuildRows(base, all, refused, x);
    var d5;
    systems, d5 := ExtendSystems(systems, cs, coreIds, CoreIds(x, base), SystemIds(x, base));
    IdLeIsComparison();
    DiagnosticLeIsComparison();
    systems := QSort(systems, IdLe);
    cores := QSort(cores, IdLe);
    ReportsAre(base, cs, d2, d3, d4, d5);
    diagnostics := QSort(d2 + d3 + d4 + d5, DiagnosticLe);
    catalog := Catalog(base.platform, systems, cores);
    MergeDone(base, cs, catalog, diagnostics);
  }

  lemma MergeDone(base: Base, cs: seq<Contributor>, catalog: Catalog, diagnostics: seq<Diagnostic>)
    requires var x, all := ContextOf(base, cs), Candidates(cs);
      && catalog.platform == base.platform
      && AllSystems(SystemRows(x, base, all))
      && SortedBy(catalog.systems, IdLe)
      && Permuted(catalog.systems, ExtendAll(SystemRows(x, base, all), Extensions(cs), CoreIds(x, base)))
      && SortedBy(catalog.cores, IdLe) && Permuted(catalog.cores, CoreRows(x, base, all))
      && SortedBy(diagnostics, DiagnosticLe) && Permuted(diagnostics, Reports(base, cs))
    ensures IsMerge(base, cs, catalog, diagnostics)
  {
  }

  lemma ContextFits(base: Base, cs: seq<Contributor>, all: seq<Candidate>, owned: seq<seq<Claim>>)
    requires all == Candidates(cs)
    requires |owned| == |all| && forall i | 0 <= i < |all| :: owned[i] == Owned(all[i].entry)
    ensures Candidating(ContextOf(base, cs), all, owned)
    ensures ContextOf(base, cs).release == BaseClaims(base)
  {
  }

  lemma ReportsAre(base: Base, cs: seq<Contributor>, d2: seq<Diagnostic>, d3: seq<Diagnostic>, d4: seq<Diagnostic>,
                   d5: seq<Diagnostic>)
    requires var x := ContextOf(base, cs);
      && d2 == FlatMap(Stage2(x), Candidates(cs)) && d3 == FlatMap(Stage3(x), Candidates(cs))
      && d4 == FlatMap(Stage4(x, base), Candidates(cs))
      && d5 == FlatMap(Stage5(SystemIds(x, base), CoreIds(x, base)), Extensions(cs))
    ensures d2 + d3 + d4 + d5 == Reports(base, cs)
  {
  }
}
