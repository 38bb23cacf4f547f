/** Who may put art on a system, what a slot ends up with, and what is reported: in the fields of rows and documents. */
module ArtPassLaws {
  import opened Wrappers
  import opened CStrings
  import opened MergeModel
  import opened MergeProofs
  import opened ArtPass

  // ---------------------------------------------------------------- who may

  /**
   * The contributor may put art on this system: it is the contributor's own; or it is a release system, lists one of
   * the cores this contributor asked to be added to it, and that core is in the catalog as this contributor's.
   */
  ghost predicate May(row: Row, cores: seq<Row>, a: Artist)
    requires row.entry.System?
  {
    if row.provider.Some? && row.provider.value != "" then row.provider.value == a.provider
    else exists x, n ::
      && x in a.extensions && x.systemId == row.entry.id && n in x.addCores
      && row.entry.alternates.Some? && n in row.entry.alternates.value && HasCore(cores, n, a.provider)
  }

  /** The catalog has a core of that id, and it is this contributor's. */
  ghost predicate HasCore(cores: seq<Row>, id: string, provider: string) {
    exists core :: core in cores && EqualUpToCase(core.entry.id, id) && core.provider == Some(provider)
  }

  lemma OwnsIff(cores: seq<Row>, name: string, provider: string)
    requires DistinctRows(cores)
    ensures OwnsCore(cores, name, provider) <==> HasCore(cores, name, provider)
  {
    hide Fold, EqualUpToCase;
    FirstWithIdInRange(cores, name);
    forall core: Row ensures EqualUpToCase(core.entry.id, name) <==> Fold(core.entry.id) == Fold(name) {
      FoldIff(core.entry.id, name);
    }
    if core :| core in cores && EqualUpToCase(core.entry.id, name) && core.provider == Some(provider) {
      var i :| 0 <= i < |cores| && cores[i] == core;
    }
  }

  lemma MayIff(row: Row, cores: seq<Row>, a: Artist)
    requires row.entry.System? && DistinctRows(cores)
    ensures Eligible(row, cores, a) <==> May(row, cores, a)
  {
    hide OwnsCore, HasCore, DistinctRows;
    forall n ensures OwnsCore(cores, n, a.provider) <==> HasCore(cores, n, a.provider) {
      OwnsIff(cores, n, a.provider);
    }
  }

  // ---------------------------------------------------------------- what a slot holds

  /** The offer claims slot `k` of the system. */
  ghost predicate ClaimsSlot(o: Offer, row: Row, cores: seq<Row>, k: nat)
    requires row.entry.System?
  {
    o.entry.id == row.entry.id && k < |o.entry.paths| && o.entry.paths[k] != "" && May(row, cores, o.artist)
  }

  /** Offer number `m` is the only one that claims the slot. */
  ghost predicate OnlyClaim(offers: seq<Offer>, m: int, row: Row, cores: seq<Row>, k: nat)
    requires row.entry.System?
  {
    && 0 <= m < |offers| && ClaimsSlot(offers[m], row, cores, k)
    && forall n | 0 <= n < |offers| && n != m :: !ClaimsSlot(offers[n], row, cores, k)
  }

  lemma OffersAre(artists: seq<Artist>, o: Offer)
    ensures o in Offers(artists) <==> o.artist in artists && o.entry in o.artist.art
  {
    FlatMapMembers(ArtOffered, artists, o);
    forall a ensures o in ArtOffered(a) <==> o.artist == a && o.entry in a.art {
      if o.artist == a && o.entry in a.art {
        var j :| 0 <= j < |a.art| && a.art[j] == o.entry;
        assert ArtOffered(a)[j] == o;
      }
    }
  }

  lemma ClaimOnIs(row: Row, cores: seq<Row>, k: nat, o: Offer)
    requires row.entry.System? && DistinctRows(cores)
    ensures ClaimOn(row, cores, k)(o)
      == if ClaimsSlot(o, row, cores, k) then [Slot(o.entry.paths[k], o.artist.provider)] else []
  {
    hide Eligible, May, DistinctRows;
    MayIff(row, cores, o.artist);
  }

  /** Of functions that yield one thing at most: together they yield one thing exactly when one of them does. */
  lemma {:induction false} OneOfAll<T, U>(f: T -> seq<U>, s: seq<T>)
    requires forall x :: |f(x)| <= 1
    ensures |FlatMap(f, s)| == 0 <==> forall m | 0 <= m < |s| :: f(s[m]) == []
    ensures |FlatMap(f, s)| == 1 ==> exists m :: 0 <= m < |s| && OnlyOneYields(f, s, m) && FlatMap(f, s) == f(s[m])
    ensures (exists m :: 0 <= m < |s| && OnlyOneYields(f, s, m)) ==> |FlatMap(f, s)| == 1
    decreases |s|
  {
    if s != [] {
      var init, last := s[..|s| - 1], s[|s| - 1];
      OneOfAll(f, init);
      if |FlatMap(f, s)| == 1 {
        if f(last) == [] {
          assert FlatMap(f, init) + [] == FlatMap(f, init);
          var m :| 0 <= m < |init| && OnlyOneYields(f, init, m) && FlatMap(f, init) == f(init[m]);
          assert OnlyOneYields(f, s, m);
        } else {
          assert FlatMap(f, init) == [];
          assert [] + f(last) == f(last);
          assert OnlyOneYields(f, s, |s| - 1);
        }
      }
      if m :| 0 <= m < |s| && OnlyOneYields(f, s, m) {
        if m < |init| {
          assert OnlyOneYields(f, init, m);
        } else {
          assert forall n | 0 <= n < |init| :: f(init[n]) == [] by {
            forall n | 0 <= n < |init| ensures f(init[n]) == [] { assert init[n] == s[n]; }
          }
        }
      }
    }
  }

  ghost predicate OnlyOneYields<T, U>(f: T -> seq<U>, s: seq<T>, m: int)
    requires 0 <= m < |s|
  {
    |f(s[m])| == 1 && forall n | 0 <= n < |s| && n != m :: f(s[n]) == []
  }

  lemma ClaimsCount(row: Row, cores: seq<Row>, k: nat, offers: seq<Offer>)
    requires row.entry.System? && DistinctRows(cores)
    ensures |Claims(row, cores, k, offers)| == 1 <==> exists m :: OnlyClaim(offers, m, row, cores, k)
    ensures forall m | OnlyClaim(offers, m, row, cores, k) ::
      k < |offers[m].entry.paths|
        && Claims(row, cores, k, offers) == [Slot(offers[m].entry.paths[k], offers[m].artist.provider)]
    ensures |Claims(row, cores, k, offers)| == 0 <==>
      forall m | 0 <= m < |offers| :: !ClaimsSlot(offers[m], row, cores, k)
  {
    hide May, Eligible, ClaimsSlot, DistinctRows;
    var f := ClaimOn(row, cores, k);
    forall o
      ensures f(o) == if ClaimsSlot(o, row, cores, k) then ClaimedSlot(o, k) else []
    {
      ClaimYields(row, cores, k, o);
    }
    OneOfAll(f, offers);
    forall m | 0 <= m < |offers| ensures OnlyClaim(offers, m, row, cores, k) <==> OnlyOneYields(f, offers, m) {
    }
    forall m | OnlyClaim(offers, m, row, cores, k) ensures FlatMap(f, offers) == ClaimedSlot(offers[m], k) {
      assert OnlyOneYields(f, offers, m);
      var n :| 0 <= n < |offers| && OnlyOneYields(f, offers, n) && FlatMap(f, offers) == f(offers[n]);
      assert n == m;
    }
    forall o | ClaimsSlot(o, row, cores, k)
      ensures k < |o.entry.paths| && ClaimedSlot(o, k) == [Slot(o.entry.paths[k], o.artist.provider)]
    {
      ClaimYields(row, cores, k, o);
    }
  }

  function ClaimedSlot(o: Offer, k: nat): (s: seq<Slot>)
    ensures |s| == 1
  {
    [Slot(if k < |o.entry.paths| then o.entry.paths[k] else "", o.artist.provider)]
  }

  lemma ClaimYields(row: Row, cores: seq<Row>, k: nat, o: Offer)
    requires row.entry.System? && DistinctRows(cores)
    ensures ClaimOn(row, cores, k)(o) == if ClaimsSlot(o, row, cores, k) then ClaimedSlot(o, k) else []
    ensures ClaimsSlot(o, row, cores, k) ==>
      k < |o.entry.paths| && ClaimedSlot(o, k) == [Slot(o.entry.paths[k], o.artist.provider)]
  {
    ClaimOnIs(row, cores, k, o);
  }

  /** A slot with exactly one claim holds it; any other slot holds what it held. */
  lemma SlotHolds(before: seq<Tile>, after: seq<Tile>, cores: seq<Row>, offers: seq<Offer>, i: nat, k: nat)
    requires SystemTiles(before) && FilledTiles(before, after, cores, offers, offers) && DistinctRows(cores)
    requires i < |before| && k < 3
    ensures |after| == |before| && after[i].row == before[i].row && |after[i].slots| == |before[i].slots| == 3
    ensures before[i].row.entry.System?
    ensures forall m | OnlyClaim(offers, m, before[i].row, cores, k) ::
      && k < |offers[m].entry.paths|
      && after[i].slots[k] == Some(Slot(offers[m].entry.paths[k], offers[m].artist.provider))
    ensures (forall m :: !OnlyClaim(offers, m, before[i].row, cores, k)) ==> after[i].slots[k] == before[i].slots[k]
  {
    hide May, Eligible, Claims;
    assert before[i] in before;
    ClaimsCount(before[i].row, cores, k, offers);
  }

  // ---------------------------------------------------------------- what is reported

  ghost predicate TwoClaims(offers: seq<Offer>, row: Row, cores: seq<Row>, k: nat)
    requires row.entry.System?
  {
    exists m, n :: 0 <= m < n < |offers| && ClaimsSlot(offers[m], row, cores, k) && ClaimsSlot(offers[n], row, cores, k)
  }

  /** The offer's system, if there is one this contributor may put art on. */
  ghost predicate TargetOf(tiles: seq<Tile>, cores: seq<Row>, o: Offer, i: int)
    requires SystemTiles(tiles)
  {
    && 0 <= i < |tiles| && tiles[i] in tiles
    && tiles[i].row.entry.id == o.entry.id && May(tiles[i].row, cores, o.artist)
  }

  /** A report about this offer: it may not be made, or another claims a slot as well. */
  ghost predicate ArtReport(tiles: seq<Tile>, cores: seq<Row>, offers: seq<Offer>, o: Offer, d: Diagnostic)
    requires SystemTiles(tiles)
  {
    if !exists i :: TargetOf(tiles, cores, o, i) then
      d == Diagnostic(o.artist.provider, "ineligible-content-art-system", o.entry.id)
    else exists i, k ::
      && TargetOf(tiles, cores, o, i) && 0 <= k < 3 && k < |o.entry.paths| && o.entry.paths[k] != ""
      && TwoClaims(offers, tiles[i].row, cores, k)
      && d == Diagnostic(o.artist.provider, "conflicting-content-art-system",
                         o.entry.id + (if k == 0 then "" else if k == 1 then ":grid_icon" else ":wordmark_color"))
  }

  lemma ClaimsAreTwo(row: Row, cores: seq<Row>, k: nat, offers: seq<Offer>)
    requires row.entry.System? && DistinctRows(cores)
    ensures |Claims(row, cores, k, offers)| > 1 <==> TwoClaims(offers, row, cores, k)
  {
    hide May, Eligible, ClaimsSlot, Claims, DistinctRows;
    ClaimsCount(row, cores, k, offers);
    if m :| 0 <= m < |offers| && ClaimsSlot(offers[m], row, cores, k) {
      if !TwoClaims(offers, row, cores, k) { assert OnlyClaim(offers, m, row, cores, k); }
    }
    if m, n :| 0 <= m < n < |offers| && ClaimsSlot(offers[m], row, cores, k) && ClaimsSlot(offers[n], row, cores, k) {
      forall j ensures !OnlyClaim(offers, j, row, cores, k) {
      }
    }
  }

  lemma ConflictsAre(o: Offer, row: Row, cores: seq<Row>, offers: seq<Offer>, n: nat, d: Diagnostic)
    requires row.entry.System? && DistinctRows(cores) && |o.entry.paths| == 3 && n <= 3
    ensures d in ConflictsUpTo(o, row, cores, offers, n) <==>
      exists k: nat :: k < n && o.entry.paths[k] != "" && TwoClaims(offers, row, cores, k) && d == Conflict(o, k)
  {
    hide May, Eligible, ClaimsSlot, Claims, DistinctRows, TwoClaims, Conflict;
    if n > 0 {
      ConflictsAre(o, row, cores, offers, n - 1, d);
      ClaimsAreTwo(row, cores, n - 1, offers);
    }
  }

  lemma ConflictText(o: Offer, k: nat)
    requires k < 3
    ensures Conflict(o, k) == Diagnostic(o.artist.provider, "conflicting-content-art-system",
                         o.entry.id + (if k == 0 then "" else if k == 1 then ":grid_icon" else ":wordmark_color"))
  {
    assert ":" + "grid_icon" == ":grid_icon" && ":" + "wordmark_color" == ":wordmark_color";
  }

  /** An offer is reported in these words exactly when it may not be made or conflicts with another. */
  lemma ReportsAre(tiles: seq<Tile>, artists: seq<Artist>, cores: seq<Row>, o: Offer, d: Diagnostic)
    requires Wellformed(tiles, artists) && SystemTiles(tiles) && AllSystems(Rows(tiles)) && DistinctRows(cores)
    requires o.artist in artists && o.entry in o.artist.art
    ensures d in Reported(Rows(tiles), cores, Offers(artists))(o) <==> ArtReport(tiles, cores, Offers(artists), o, d)
  {
    hide May, Eligible, Offers, DistinctRows, TwoClaims, ConflictsUpTo, Fold, Wellformed, TargetOf, FirstWithId;
    FirstTarget(tiles, artists, o);
    FirstWithIdInRange(Rows(tiles), o.entry.id);
    var at := FirstWithId(Rows(tiles), o.entry.id);
    if at.Some? {
      var row := tiles[at.value].row;
      assert Rows(tiles)[at.value] in Rows(tiles) && tiles[at.value] in tiles;
      MayIff(row, cores, o.artist);
      ThreePaths(tiles, artists, o);
      forall i ensures TargetOf(tiles, cores, o, i) <==> i == at.value && May(row, cores, o.artist) {
        TargetIs(tiles, cores, o, at.value, i);
      }
      if May(row, cores, o.artist) {
        ConflictsAre(o, row, cores, Offers(artists), 3, d);
        forall k: nat | k < 3 ensures Conflict(o, k) == Diagnostic(o.artist.provider, "conflicting-content-art-system",
                         o.entry.id + (if k == 0 then "" else if k == 1 then ":grid_icon" else ":wordmark_color"))
        {
          ConflictText(o, k);
        }
      }
    } else {
      forall i ensures !TargetOf(tiles, cores, o, i) {
        NoTarget(tiles, cores, o, i);
      }
    }
  }

  lemma ThreePaths(tiles: seq<Tile>, artists: seq<Artist>, o: Offer)
    requires Wellformed(tiles, artists) && o.artist in artists && o.entry in o.artist.art
    ensures |o.entry.paths| == 3
  {
  }

  lemma TargetIs(tiles: seq<Tile>, cores: seq<Row>, o: Offer, at: nat, i: int)
    requires SystemTiles(tiles) && at < |tiles| && tiles[at] in tiles && tiles[at].row.entry.id == o.entry.id
    requires forall j | 0 <= j < |tiles| && j != at :: tiles[j].row.entry.id != o.entry.id
    ensures TargetOf(tiles, cores, o, i) <==> i == at && May(tiles[at].row, cores, o.artist)
  {
    hide May;
  }

  lemma NoTarget(tiles: seq<Tile>, cores: seq<Row>, o: Offer, i: int)
    requires SystemTiles(tiles) && forall j | 0 <= j < |tiles| :: tiles[j].row.entry.id != o.entry.id
    ensures !TargetOf(tiles, cores, o, i)
  {
    hide May;
  }
}
