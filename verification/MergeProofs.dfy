/** Confluence, soundness and maximality of the catalog merge. */
module MergeProofs {
  import opened Wrappers
  import opened CStrings
  import opened Sorting
  import opened MergeModel

  // ---------------------------------------------------------------- permuted inputs

  lemma {:induction false} FlatMapAppend<T, U>(f: T -> seq<U>, a: seq<T>, b: seq<T>)
    ensures FlatMap(f, a + b) == FlatMap(f, a) + FlatMap(f, b)
    decreases |b|
  {
    if b == [] {
      assert a + b == a;
    } else {
      assert (a + b)[..|a + b| - 1] == a + b[..|b| - 1];
      FlatMapAppend(f, a, b[..|b| - 1]);
    }
  }

  lemma FlatMapOne<T, U>(f: T -> seq<U>, x: T)
    ensures FlatMap(f, [x]) == f(x)
  {
    assert [x][..0] == [];
    assert FlatMap(f, [x]) == FlatMap(f, []) + f(x);
  }

  /** Permuting the elements permutes what they contribute. */
  lemma {:induction false} FlatMapPermuted<T, U>(f: T -> seq<U>, s: seq<T>, t: seq<T>)
    requires Permuted(s, t)
    ensures Permuted(FlatMap(f, s), FlatMap(f, t))
    decreases |s|
  {
    PermutedMembers(s, t);
    if s != [] {
      hide FlatMap, Permuted;
      var init, last := s[..|s| - 1], s[|s| - 1];
      assert s == init + [last];
      assert last in t;
      var k :| 0 <= k < |t| && t[k] == last;
      var a, b := t[..k], t[k + 1..];
      assert t == a + [last] + b;
      WithoutOne(init, a, last, b);
      FlatMapPermuted(f, init, a + b);
      FlatMapAppend(f, a, b);
      FlatMapAppend(f, a + [last], b);
      FlatMapAppend(f, a, [last]);
      FlatMapAppend(f, init, [last]);
      FlatMapOne(f, last);
      WithMore(FlatMap(f, init), FlatMap(f, a), f(last), FlatMap(f, b));
    }
  }

  lemma WithoutOne<T>(init: seq<T>, a: seq<T>, last: T, b: seq<T>)
    requires Permuted(init + [last], a + [last] + b)
    ensures Permuted(init, a + b)
  {
    assert multiset(a + [last] + b) == multiset(a + b) + multiset{last};
    assert multiset(init) == multiset(init + [last]) - multiset{last};
    assert multiset(a + b) == multiset(a + [last] + b) - multiset{last};
  }

  lemma WithMore<T>(init: seq<T>, a: seq<T>, more: seq<T>, b: seq<T>)
    requires Permuted(init, a + b)
    ensures Permuted(init + more, a + more + b)
  {
  }

  lemma ContextsAgree(base: Base, cs: seq<Contributor>, cs': seq<Contributor>)
    requires Permuted(cs, cs')
    ensures ContextOf(base, cs) == ContextOf(base, cs')
    ensures Permuted(Candidates(cs), Candidates(cs')) && Permuted(Extensions(cs), Extensions(cs'))
  {
    FlatMapPermuted(Offered, cs, cs');
    FlatMapPermuted(Extends, cs, cs');
    PermutedMembers(Candidates(cs), Candidates(cs'));
  }

  lemma ReportsPermuted(base: Base, cs: seq<Contributor>, cs': seq<Contributor>)
    requires Permuted(cs, cs')
    ensures Permuted(Reports(base, cs), Reports(base, cs'))
  {
    hide CoreIds, SystemIds, Candidates, Extensions, ContextOf;
    ContextsAgree(base, cs, cs');
    var x := ContextOf(base, cs);
    var a, b := Candidates(cs), Candidates(cs');
    var f := Stage5(SystemIds(x, base), CoreIds(x, base));
    FlatMapPermuted(Stage2(x), a, b);
    FlatMapPermuted(Stage3(x), a, b);
    FlatMapPermuted(Stage4(x, base), a, b);
    FlatMapPermuted(f, Extensions(cs), Extensions(cs'));
  }

  // ---------------------------------------------------------------- no two rows answer to one id

  lemma {:induction false} FlatMapMembers<T, U>(f: T -> seq<U>, s: seq<T>, u: U)
    ensures u in FlatMap(f, s) <==> exists x :: x in s && u in f(x)
    decreases |s|
  {
    if s != [] {
      FlatMapMembers(f, s[..|s| - 1], u);
      assert s == s[..|s| - 1] + [s[|s| - 1]];
    }
  }

  lemma CandidateFrom(cs: seq<Contributor>, c: Candidate)
    ensures c in Candidates(cs) <==>
      exists k :: k in cs && c.provider == k.provider && (c.entry in k.systems || c.entry in k.cores)
  {
    FlatMapMembers(Offered, cs, c);
    forall k ensures c in Offered(k) <==> c.provider == k.provider && (c.entry in k.systems || c.entry in k.cores) {
      OfferedMembers(k, c);
    }
  }

  lemma OfferedMembers(k: Contributor, c: Candidate)
    ensures c in Offered(k) <==> c.provider == k.provider && (c.entry in k.systems || c.entry in k.cores)
  {
    ByProviderMembers(k.provider, k.systems, c);
    ByProviderMembers(k.provider, k.cores, c);
  }

  lemma ByProviderMembers(provider: string, es: seq<Entry>, c: Candidate)
    ensures c in ByProvider(provider, es) <==> c.provider == provider && c.entry in es
  {
    if c.provider == provider && c.entry in es {
      var i :| 0 <= i < |es| && es[i] == c.entry;
      assert ByProvider(provider, es)[i] == c;
    }
  }

  function IdClaim(e: Entry): Claim {
    Claim(if e.System? then "system_id" else "core_id", Fold(e.id))
  }

  lemma IdIsClaimed(e: Entry)
    ensures IdClaim(e) in ClaimSet(e)
  {
  }

  lemma EqualIdsEqualEntries(es: seq<Entry>, a: Entry, b: Entry)
    requires DistinctIds(es) && a in es && b in es && Fold(a.id) == Fold(b.id)
    ensures a == b
  {
    var i :| 0 <= i < |es| && es[i] == a;
    var j :| 0 <= j < |es| && es[j] == b;
  }

  lemma OneProviderOneContributor(base: Base, cs: seq<Contributor>, k: Contributor, l: Contributor)
    requires ValidInput(base, cs) && k in cs && l in cs && k.provider == l.provider
    ensures k == l
  {
    var i :| 0 <= i < |cs| && cs[i] == k;
    var j :| 0 <= j < |cs| && cs[j] == l;
  }

  /** Two candidates of one provider and kind with one id are the same candidate. */
  lemma OwnIdsDistinct(base: Base, cs: seq<Contributor>, c: Candidate, d: Candidate)
    requires ValidInput(base, cs) && c in Candidates(cs) && d in Candidates(cs)
    requires c.provider == d.provider && IdClaim(c.entry) == IdClaim(d.entry)
    ensures c == d
  {
    hide Fold;
    CandidateFrom(cs, c); CandidateFrom(cs, d);
    var k :| k in cs && c.provider == k.provider && (c.entry in k.systems || c.entry in k.cores);
    var l :| l in cs && d.provider == l.provider && (d.entry in l.systems || d.entry in l.cores);
    OneProviderOneContributor(base, cs, k, l);
    if c.entry.System? { EqualIdsEqualEntries(k.systems, c.entry, d.entry); }
    else { EqualIdsEqualEntries(k.cores, c.entry, d.entry); }
  }

  /** Candidates that came through stage 3 share no claim with another provider's. */
  lemma SurvivorsDisjoint(x: Context, c: Candidate, d: Candidate)
    requires c in x.all && d in x.all && !RefusedEarly(x, c) && !RefusedEarly(x, d) && c.provider != d.provider
    ensures ClaimSet(c.entry) !! ClaimSet(d.entry)
  {
    hide ClaimSet, BaseHit;
    forall k ensures k in ClaimSet(c.entry) && k in ClaimSet(d.entry) ==> Contests(x, c, k) {
    }
  }

  lemma SurvivorIdsDistinct(base: Base, cs: seq<Contributor>, c: Candidate, d: Candidate)
    requires ValidInput(base, cs)
    requires var x := ContextOf(base, cs); c in x.all && d in x.all && !RefusedEarly(x, c) && !RefusedEarly(x, d)
    requires IdClaim(c.entry) == IdClaim(d.entry)
    ensures c == d
  {
    hide ClaimSet, RefusedEarly, Candidates;
    var x := ContextOf(base, cs);
    IdIsClaimed(c.entry); IdIsClaimed(d.entry);
    if c.provider != d.provider { SurvivorsDisjoint(x, c, d); }
    else { OwnIdsDistinct(base, cs, c, d); }
  }

  lemma ReleaseClaimsEntry(base: Base, e: Entry)
    requires e in base.systems || e in base.cores
    ensures ClaimSet(e) <= BaseClaims(base)
  {
    hide ClaimSet;
  }

  /** A survivor shares no claim with a release row. */
  lemma SurvivorVersusRelease(base: Base, cs: seq<Contributor>, c: Candidate, e: Entry)
    requires var x := ContextOf(base, cs); !BaseHit(x, c)
    requires e in base.systems || e in base.cores
    ensures ClaimSet(c.entry) !! ClaimSet(e)
  {
    hide ClaimSet, BaseClaims;
    ReleaseClaimsEntry(base, e);
    forall k
      ensures k in ClaimSet(c.entry) && k in ClaimSet(e) ==> k in ClaimSet(c.entry) * ContextOf(base, cs).release
    {
    }
  }

  // ---------------------------------------------------------------- rows of the catalog before the extensions

  ghost predicate DistinctRows(rows: seq<Row>) {
    forall i, j | 0 <= i < j < |rows| :: Fold(rows[i].entry.id) != Fold(rows[j].entry.id)
  }

  lemma ValidPrefix(base: Base, cs: seq<Contributor>, n: nat)
    requires ValidInput(base, cs) && n <= |cs|
    ensures ValidInput(base, cs[..n])
  {
  }

  lemma OfferedOnce(base: Base, cs: seq<Contributor>, k: Contributor)
    requires ValidInput(base, cs) && k in cs
    ensures NoRepeats(Offered(k))
  {
    hide Fold;
    var a, b := ByProvider(k.provider, k.systems), ByProvider(k.provider, k.cores);
    assert forall i | 0 <= i < |a| :: a[i].entry == k.systems[i] && a[i].entry in k.systems;
    assert forall i | 0 <= i < |b| :: b[i].entry == k.cores[i] && b[i].entry in k.cores;
  }

  lemma NoRepeatsConcat<T>(a: seq<T>, b: seq<T>)
    requires NoRepeats(a) && NoRepeats(b) && forall x | x in a :: x !in b
    ensures NoRepeats(a + b)
  {
    forall i, j | 0 <= i < j < |a + b| ensures (a + b)[i] != (a + b)[j] {
      if i < |a| <= j { assert a[i] in a && b[j - |a|] in b; }
    }
  }

  lemma {:induction false} CandidatesOnce(base: Base, cs: seq<Contributor>)
    requires ValidInput(base, cs)
    ensures NoRepeats(Candidates(cs))
    decreases |cs|
  {
    hide Offered, ValidInput, Fold;
    if cs != [] {
      var init, last := cs[..|cs| - 1], cs[|cs| - 1];
      ValidPrefix(base, cs, |cs| - 1);
      CandidatesOnce(base, init);
      OfferedOnce(base, cs, last);
      forall c ensures c !in Candidates(init) || c !in Offered(last) {
        OtherProviders(base, cs, c);
      }
      NoRepeatsConcat(Candidates(init), Offered(last));
    }
  }

  /** What the last contributor offers is not offered before. */
  lemma OtherProviders(base: Base, cs: seq<Contributor>, c: Candidate)
    requires ValidInput(base, cs) && cs != []
    ensures !(c in Candidates(cs[..|cs| - 1]) && c in Offered(cs[|cs| - 1]))
  {
    hide Offered, Fold, DistinctIds;
    CandidateFrom(cs[..|cs| - 1], c);
    OfferedMembers(cs[|cs| - 1], c);
  }

  /** The survivors of one kind, as rows. */
  ghost function Survivors(x: Context, base: Base, systems: bool): Candidate -> seq<Row> {
    if systems then SystemRow(x, base) else CoreRow(x, base)
  }

  lemma {:induction false} SurvivorRow(x: Context, base: Base, systems: bool, all: seq<Candidate>, r: Row)
    ensures r in FlatMap(Survivors(x, base, systems), all)
      <==> exists c :: c in all && c.entry.System? == systems && Survives(x, base, c) && r == Adopted(c)
    decreases |all|
  {
    hide Survives, Adopted;
    if all != [] {
      var init, last := all[..|all| - 1], all[|all| - 1];
      SurvivorRow(x, base, systems, init, r);
      assert all == init + [last];
      assert Survivors(x, base, systems)(last)
        == if last.entry.System? == systems && Survives(x, base, last) then [Adopted(last)] else [];
    }
  }

  lemma AdoptedKeeps(c: Candidate)
    ensures var r := Adopted(c);
      && r.provider == Some(c.provider) && r.entry.System? == c.entry.System?
      && r.entry.id == c.entry.id && IdClaim(r.entry) == IdClaim(c.entry) && ClaimSet(r.entry) == ClaimSet(c.entry)
  {
  }

  lemma SurvivesEarly(x: Context, base: Base, c: Candidate)
    requires Survives(x, base, c)
    ensures !RefusedEarly(x, c) && !BaseHit(x, c)
  {
  }

  lemma {:induction false} SurvivorRowsDistinct(base: Base, cs: seq<Contributor>, systems: bool, all: seq<Candidate>)
    requires ValidInput(base, cs) && NoRepeats(all) && forall c | c in all :: c in Candidates(cs)
    ensures DistinctRows(FlatMap(Survivors(ContextOf(base, cs), base, systems), all))
    decreases |all|
  {
    hide Survives, Adopted, ValidInput, ContextOf, Fold, Candidates;
    if all != [] {
      var x := ContextOf(base, cs);
      var f := Survivors(x, base, systems);
      var init, last := all[..|all| - 1], all[|all| - 1];
      SurvivorRowsDistinct(base, cs, systems, init);
      assert f(last) == if last.entry.System? == systems && Survives(x, base, last) then [Adopted(last)] else [];
      if f(last) != [] {
        forall r: Row | r in FlatMap(f, init) ensures Fold(r.entry.id) != Fold(Adopted(last).entry.id) {
          SurvivorRow(x, base, systems, init, r);
          var c :| c in init && c.entry.System? == systems && Survives(x, base, c) && r == Adopted(c);
          DifferentIds(base, cs, c, last);
        }
      }
    }
  }

  lemma DifferentIds(base: Base, cs: seq<Contributor>, c: Candidate, d: Candidate)
    requires ValidInput(base, cs) && c in Candidates(cs) && d in Candidates(cs) && c != d
    requires c.entry.System? == d.entry.System?
    requires Survives(ContextOf(base, cs), base, c) && Survives(ContextOf(base, cs), base, d)
    ensures Fold(Adopted(c).entry.id) != Fold(Adopted(d).entry.id)
  {
    hide Survives, Adopted, ValidInput, Candidates, RefusedEarly, Fold;
    AdoptedKeeps(c); AdoptedKeeps(d);
    SurvivesEarly(ContextOf(base, cs), base, c); SurvivesEarly(ContextOf(base, cs), base, d);
    if IdClaim(c.entry) == IdClaim(d.entry) { SurvivorIdsDistinct(base, cs, c, d); }
  }

  lemma ReleaseVersusSurvivor(base: Base, cs: seq<Contributor>, e: Entry, c: Candidate)
    requires e in base.systems || e in base.cores
    requires c in Candidates(cs) && Survives(ContextOf(base, cs), base, c) && e.System? == c.entry.System?
    ensures Fold(e.id) != Fold(Adopted(c).entry.id)
  {
    hide Survives, Adopted, Candidates, BaseHit, Fold, ClaimSet;
    AdoptedKeeps(c);
    SurvivesEarly(ContextOf(base, cs), base, c);
    SurvivorVersusRelease(base, cs, c, e);
    IdIsClaimed(e); IdIsClaimed(c.entry);
  }

  lemma RowsDistinct(base: Base, cs: seq<Contributor>)
    requires ValidInput(base, cs)
    ensures DistinctRows(SystemRows(ContextOf(base, cs), base, Candidates(cs)))
    ensures DistinctRows(CoreRows(ContextOf(base, cs), base, Candidates(cs)))
  {
    KindDistinct(base, cs, true, base.systems);
    KindDistinct(base, cs, false, base.cores);
  }

  lemma KindDistinct(base: Base, cs: seq<Contributor>, systems: bool, release: seq<Entry>)
    requires ValidInput(base, cs) && release == if systems then base.systems else base.cores
    ensures DistinctRows(ReleaseRows(release) + FlatMap(Survivors(ContextOf(base, cs), base, systems), Candidates(cs)))
  {
    hide Survives, Adopted, Fold, Candidates, ContextOf;
    var x, all := ContextOf(base, cs), Candidates(cs);
    CandidatesOnce(base, cs);
    SurvivorRowsDistinct(base, cs, systems, all);
    var a, b := ReleaseRows(release), FlatMap(Survivors(x, base, systems), all);
    forall i, j | 0 <= i < |a| && 0 <= j < |b| ensures Fold(a[i].entry.id) != Fold(b[j].entry.id) {
      SurvivorRow(x, base, systems, all, b[j]);
      var c :| c in all && c.entry.System? == systems && Survives(x, base, c) && b[j] == Adopted(c);
      assert release[i] in release;
      ReleaseVersusSurvivor(base, cs, release[i], c);
    }
  }
}
