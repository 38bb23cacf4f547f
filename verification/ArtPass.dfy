/** `jw_catalog_apply_content_art`: contributed artwork for the tiles of the merged catalog. */
module ArtPass {
  import opened Wrappers
  import opened CStrings
  import opened Sorting
  import opened MergeModel
  import opened MergeProofs
  import opened MergeExtensions

  const SLOTS := 3

  datatype Slot = Slot(path: string, provider: string)

  /** A system row with its three art slots: wordmark, grid icon, coloured wordmark. */
  datatype Tile = Tile(row: Row, slots: seq<Option<Slot>>)

  /** One entry of a `content_art` block; an absent path reads as "". */
  datatype ArtEntry = ArtEntry(id: string, paths: seq<string>)

  datatype Artist = Artist(provider: string, extensions: seq<Extension>, art: seq<ArtEntry>)

  datatype Offer = Offer(artist: Artist, entry: ArtEntry)

  ghost predicate SystemTiles(tiles: seq<Tile>) {
    forall t | t in tiles :: t.row.entry.System?
  }

  ghost predicate Wellformed(tiles: seq<Tile>, artists: seq<Artist>) {
    && (forall t | t in tiles :: |t.slots| == SLOTS && t.row.entry.System?)
    && (forall i, j | 0 <= i < j < |tiles| :: Fold(tiles[i].row.entry.id) != Fold(tiles[j].row.entry.id))
    && (forall a, e | a in artists && e in a.art :: |e.paths| == SLOTS)
    // System ids have no lower-case letters, so ids equal up to case are equal.
    && (forall a, e, t | a in artists && e in a.art && t in tiles
      && Fold(e.id) == Fold(t.row.entry.id) :: e.id == t.row.entry.id)
  }

  // ---------------------------------------------------------------- eligibility

  /** Core rows as `find_id` sees them: the first with the id, up to case. */
  ghost predicate OwnsCore(cores: seq<Row>, name: string, provider: string) {
    var at := FirstWithId(cores, name);
    FirstWithIdInRange(cores, name);
    at.Some? && cores[at.value].provider == Some(provider)
  }

  /** A contributed tile belongs to its provider; a release tile needs this provider's surviving alternate core. */
  ghost predicate Eligible(row: Row, cores: seq<Row>, a: Artist)
    requires row.entry.System?
  {
    if row.provider.Some? && row.provider.value != "" then row.provider.value == a.provider
    else exists e, n ::
      && e in a.extensions && n in e.addCores
      && e.systemId == row.entry.id && OwnsCore(cores, n, a.provider) && n in Listed(row.entry.alternates)
  }

  method FindOwner(cores: seq<Row>, name: string, provider: string) returns (b: bool)
    ensures b <==> OwnsCore(cores, name, provider)
  {
    FirstWithIdInRange(cores, name);
    FirstWithIdLeast(cores, name);
    for i := 0 to |cores|
      invariant forall j | 0 <= j < i :: Fold(cores[j].entry.id) != Fold(name)
    {
      if Fold(cores[i].entry.id) == Fold(name) {
        return cores[i].provider == Some(provider);
      }
    }
    return false;
  }

  lemma {:induction false} FirstWithIdLeast(rows: seq<Row>, id: string)
    ensures FirstWithId(rows, id).Some? ==>
      && FirstWithId(rows, id).value < |rows|
      && forall j | 0 <= j < FirstWithId(rows, id).value :: Fold(rows[j].entry.id) != Fold(id)
    decreases |rows|
  {
    if rows != [] {
      FirstWithIdLeast(rows[..|rows| - 1], id);
      FirstWithIdInRange(rows[..|rows| - 1], id);
    }
  }

  /** `art_eligible` */
  method CheckEligible(row: Row, cores: seq<Row>, a: Artist) returns (b: bool)
    requires row.entry.System?
    ensures b <==> Eligible(row, cores, a)
  {
    hide OwnsCore;
    if row.provider.Some? && row.provider.value != "" {
      return row.provider.value == a.provider;
    }
    for i := 0 to |a.extensions|
      invariant forall e, n | e in a.extensions[..i] && n in e.addCores ::
        !(e.systemId == row.entry.id && OwnsCore(cores, n, a.provider) && n in Listed(row.entry.alternates))
    {
      assert a.extensions[..i + 1] == a.extensions[..i] + [a.extensions[i]];
      if a.extensions[i].systemId == row.entry.id {
        var names := a.extensions[i].addCores;
        for j := 0 to |names|
          invariant forall n | n in names[..j] :: !(OwnsCore(cores, n, a.provider) && n in Listed(row.entry.alternates))
        {
          assert names[..j + 1] == names[..j] + [names[j]];
          var owned := FindOwner(cores, names[j], a.provider);
          if owned && names[j] in Listed(row.entry.alternates) {
            return true;
          }
        }
        assert names[..|names|] == names;
      }
    }
    assert a.extensions[..|a.extensions|] == a.extensions;
    return false;
  }

  // ---------------------------------------------------------------- claims on a slot

  function ArtOffered(a: Artist): seq<Offer> {
    seq(|a.art|, i requires 0 <= i < |a.art| => Offer(a, a.art[i]))
  }

  ghost function Offers(artists: seq<Artist>): seq<Offer> {
    FlatMap(ArtOffered, artists)
  }

  /** The claim an offer makes on slot `k` of a tile, if any. */
  ghost function ClaimOn(row: Row, cores: seq<Row>, k: nat): Offer -> seq<Slot>
    requires row.entry.System?
  {
    (o: Offer) =>
      if Eligible(row, cores, o.artist) && o.entry.id == row.entry.id && k < |o.entry.paths| && o.entry.paths[k] != ""
      then [Slot(o.entry.paths[k], o.artist.provider)] else []
  }

  ghost function Claims(row: Row, cores: seq<Row>, k: nat, offers: seq<Offer>): seq<Slot>
    requires row.entry.System?
  {
    FlatMap(ClaimOn(row, cores, k), offers)
  }

  /** What a slot holds once `done` is processed out of `all`: the claim, if it is the only one. */
  ghost function Filled(old_: Option<Slot>, all: seq<Slot>, done: seq<Slot>): Option<Slot> {
    if |all| == 1 && |done| == 1 then Some(all[0]) else old_
  }

  ghost predicate FilledTile(before: Tile, after: Tile, cores: seq<Row>, all: seq<Offer>, done: seq<Offer>)
    requires before.row.entry.System?
  {
    && after.row == before.row && |before.slots| == |after.slots| == SLOTS
    && forall k | 0 <= k < SLOTS ::
         after.slots[k] == Filled(before.slots[k],
           Claims(before.row, cores, k, all), Claims(before.row, cores, k, done))
  }

  ghost predicate FilledTiles(before: seq<Tile>, after: seq<Tile>, cores: seq<Row>, all: seq<Offer>, done: seq<Offer>)
    requires forall t | t in before :: t.row.entry.System?
  {
    |after| == |before| && forall i | 0 <= i < |before| ::
      before[i] in before && FilledTile(before[i], after[i], cores, all, done)
  }

  lemma OneMore<T>(done: seq<T>, o: T)
    ensures (done + [o])[..|done|] == done && (done + [o])[|done|] == o
  {
  }

  lemma CountStep(row: Row, cores: seq<Row>, k: nat, done: seq<Offer>, o: Offer)
    requires row.entry.System? && k < SLOTS && |o.entry.paths| == SLOTS
    ensures |Claims(row, cores, k, done + [o])| == |Claims(row, cores, k, done)|
      + if Eligible(row, cores, o.artist) && o.entry.id == row.entry.id && o.entry.paths[k] != "" then 1 else 0
  {
    hide Eligible;
    OneMore(done, o);
  }

  lemma OffersOf(artists: seq<Artist>, i: nat)
    requires i < |artists|
    ensures FlatMap(ArtOffered, artists[..i + 1]) == FlatMap(ArtOffered, artists[..i]) + ArtOffered(artists[i])
    ensures |ArtOffered(artists[i])| == |artists[i].art|
    ensures forall j | 0 <= j < |artists[i].art| :: ArtOffered(artists[i])[j] == Offer(artists[i], artists[i].art[j])
  {
    assert artists[..i + 1][..i] == artists[..i];
  }

  /** The loop over all contributors and their entries that counts the eligible claims on one slot. */
  method CountClaims(row: Row, cores: seq<Row>, artists: seq<Artist>, k: nat) returns (count: nat)
    requires row.entry.System? && k < SLOTS && forall a, e | a in artists && e in a.art :: |e.paths| == SLOTS
    ensures count == |Claims(row, cores, k, Offers(artists))|
  {
    hide Eligible, Claims, FlatMap, ArtOffered;
    count := 0;
    ghost var done: seq<Offer> := [];
    NoClaims(row, cores, k, artists);
    for i := 0 to |artists|
      invariant done == FlatMap(ArtOffered, artists[..i]) && count == |Claims(row, cores, k, done)|
    {
      OffersOf(artists, i);
      var a := artists[i];
      var eligible := CheckEligible(row, cores, a);
      ghost var before := done;
      for j := 0 to |a.art|
        invariant done == before + ArtOffered(a)[..j] && count == |Claims(row, cores, k, done)|
      {
        ghost var o := Offer(a, a.art[j]);
        assert a.art[j] in a.art;
        CountStep(row, cores, k, done, o);
        assert ArtOffered(a)[..j + 1] == ArtOffered(a)[..j] + [o];
        done := done + [o];
        if eligible && a.art[j].id == row.entry.id && a.art[j].paths[k] != "" {
          count := count + 1;
        }
      }
      assert ArtOffered(a)[..|a.art|] == ArtOffered(a);
    }
    assert artists[..|artists|] == artists;
  }

  lemma NoClaims(row: Row, cores: seq<Row>, k: nat, artists: seq<Artist>)
    requires row.entry.System?
    ensures FlatMap(ArtOffered, artists[..0]) == [] && Claims(row, cores, k, []) == []
  {
  }

  // ---------------------------------------------------------------- reports

  function SlotName(k: nat): string {
    if k == 0 then "wordmark" else if k == 1 then "grid_icon" else "wordmark_color"
  }

  function Ineligible(o: Offer): Diagnostic {
    Diagnostic(o.artist.provider, "ineligible-content-art-system", o.entry.id)
  }

  function Conflict(o: Offer, k: nat): Diagnostic {
    Diagnostic(o.artist.provider, "conflicting-content-art-system",
      o.entry.id + (if k == 0 then "" else ":" + SlotName(k)))
  }

  ghost function ConflictsUpTo(o: Offer, row: Row, cores: seq<Row>, all: seq<Offer>, n: nat): seq<Diagnostic>
    requires row.entry.System? && |o.entry.paths| == SLOTS && n <= SLOTS
  {
    if n == 0 then []
    else ConflictsUpTo(o, row, cores, all, n - 1)
         + if o.entry.paths[n - 1] != "" && |Claims(row, cores, n - 1, all)| > 1 then [Conflict(o, n - 1)] else []
  }

  /** What is reported about one offer; the tile it finds does not depend on the order of the offers. */
  ghost function Reported(rows: seq<Row>, cores: seq<Row>, all: seq<Offer>): Offer -> seq<Diagnostic>
    requires AllSystems(rows)
  {
    (o: Offer) =>
      FirstWithIdInRange(rows, o.entry.id);
      var at := FirstWithId(rows, o.entry.id);
      if at.None? then [Ineligible(o)]
      else
        assert rows[at.value] in rows;
        if !Eligible(rows[at.value], cores, o.artist) then [Ineligible(o)]
        else if |o.entry.paths| == SLOTS then ConflictsUpTo(o, rows[at.value], cores, all, SLOTS) else []
  }

  function Rows(tiles: seq<Tile>): (r: seq<Row>)
    ensures |r| == |tiles| && forall i | 0 <= i < |tiles| :: r[i] == tiles[i].row
  {
    seq(|tiles|, i requires 0 <= i < |tiles| => tiles[i].row)
  }

  // ---------------------------------------------------------------- the pass

  lemma {:induction false} ClaimsPrefix(f: Offer -> seq<Slot>, all: seq<Offer>, n: nat)
    requires n <= |all|
    ensures FlatMap(f, all[..n]) <= FlatMap(f, all)
    decreases |all|
  {
    assert all == all[..n] + all[n..];
    FlatMapAppend(f, all[..n], all[n..]);
  }

  lemma ClaimsNext(row: Row, cores: seq<Row>, k: nat, done: seq<Offer>, o: Offer)
    requires row.entry.System?
    ensures Claims(row, cores, k, done + [o]) == Claims(row, cores, k, done) + ClaimOn(row, cores, k)(o)
  {
    hide Eligible;
    OneMore(done, o);
  }

  /** The row the offer is for, or none that it may touch. */
  lemma FirstTarget(tiles: seq<Tile>, artists: seq<Artist>, o: Offer)
    requires Wellformed(tiles, artists) && o.artist in artists && o.entry in o.artist.art
    ensures FirstWithId(Rows(tiles), o.entry.id).None? ==>
      forall i | 0 <= i < |tiles| :: tiles[i].row.entry.id != o.entry.id
    ensures var at := FirstWithId(Rows(tiles), o.entry.id); at.Some? ==>
      && at.value < |tiles| && tiles[at.value].row.entry.id == o.entry.id
      && forall i | 0 <= i < |tiles| && i != at.value :: tiles[i].row.entry.id != o.entry.id
  {
    FirstWithIdInRange(Rows(tiles), o.entry.id);
    if FirstWithId(Rows(tiles), o.entry.id).Some? {
      var at := FirstWithId(Rows(tiles), o.entry.id).value;
      assert tiles[at] in tiles;
    }
  }

  /** An offer that makes no claim on a tile leaves it as it is. */
  lemma TileUntouched(before: Tile, after: Tile, cores: seq<Row>, all: seq<Offer>, done: seq<Offer>, o: Offer)
    requires before.row.entry.System? && FilledTile(before, after, cores, all, done)
    requires o.entry.id != before.row.entry.id || !Eligible(before.row, cores, o.artist)
    ensures FilledTile(before, after, cores, all, done + [o])
  {
    hide Eligible, Claims;
    forall k | 0 <= k < SLOTS ensures Claims(before.row, cores, k, done + [o]) == Claims(before.row, cores, k, done) {
      ClaimsNext(before.row, cores, k, done, o);
      assert ClaimOn(before.row, cores, k)(o) == [];
    }
  }

  /** What one slot of the tile holds after the offer has been dealt with. */
  lemma SlotFilled(old_: Option<Slot>, all: seq<Slot>, done: seq<Slot>, claim: seq<Slot>)
    requires done + claim <= all && |claim| <= 1
    ensures Filled(old_, all, done + claim) == if claim != [] && |all| == 1
      then Some(claim[0]) else Filled(old_, all, done)
  {
    if claim != [] && |all| == 1 { assert all[0] == (done + claim)[0]; }
  }

  /** The offers so far are the first ones of all. */
  lemma ClaimsSoFar(row: Row, cores: seq<Row>, k: nat, all: seq<Offer>, done: seq<Offer>, o: Offer)
    requires row.entry.System? && done + [o] <= all
    ensures Claims(row, cores, k, done + [o]) <= Claims(row, cores, k, all)
  {
    hide Eligible;
    assert all[..|done| + 1] == done + [o];
    ClaimsPrefix(ClaimOn(row, cores, k), all, |done| + 1);
  }

  /** What slot `k` holds after an eligible offer for this tile. */
  lemma SlotNext(before: Tile, cores: seq<Row>, k: nat, all: seq<Offer>, done: seq<Offer>, o: Offer)
    requires before.row.entry.System? && |before.slots| == SLOTS && |o.entry.paths| == SLOTS && k < SLOTS
    requires done + [o] <= all && o.entry.id == before.row.entry.id && Eligible(before.row, cores, o.artist)
    ensures var all_, was := Claims(before.row, cores, k, all), Claims(before.row, cores, k, done);
      Filled(before.slots[k], all_, Claims(before.row, cores, k, done + [o]))
        == if o.entry.paths[k] != "" && |all_| <= 1 then Some(Slot(o.entry.paths[k], o.artist.provider))
           else Filled(before.slots[k], all_, was)
  {
    hide Claims, Eligible;
    ClaimsNext(before.row, cores, k, done, o);
    ClaimsSoFar(before.row, cores, k, all, done, o);
    SlotFilled(before.slots[k], Claims(before.row, cores, k, all),
      Claims(before.row, cores, k, done), ClaimOn(before.row, cores, k)(o));
  }

  method FillSlots(tile: Tile, cores: seq<Row>, artists: seq<Artist>, a: Artist, e: ArtEntry,
                   ghost before: Tile, ghost all: seq<Offer>, ghost done: seq<Offer>)
    returns (tile': Tile, diagnostics: seq<Diagnostic>)
    requires before.row.entry.System? && FilledTile(before, tile, cores, all, done)
    requires all == Offers(artists) && done + [Offer(a, e)] <= all && |e.paths| == SLOTS
    requires forall b, f | b in artists && f in b.art :: |f.paths| == SLOTS
    requires e.id == before.row.entry.id && Eligible(before.row, cores, a)
    ensures FilledTile(before, tile', cores, all, done + [Offer(a, e)])
    ensures diagnostics == ConflictsUpTo(Offer(a, e), before.row, cores, all, SLOTS)
  {
    hide Claims, Eligible, Offers, FlatMap, Filled, ClaimOn;
    ghost var o := Offer(a, e);
    var slots := tile.slots;
    diagnostics := [];
    for k := 0 to SLOTS
      invariant |slots| == SLOTS
      invariant forall m | 0 <= m < k ::
        slots[m] == Filled(before.slots[m], Claims(before.row, cores, m, all), Claims(before.row, cores, m, done + [o]))
      invariant forall m | k <= m < SLOTS :: slots[m] == tile.slots[m]
      invariant diagnostics == ConflictsUpTo(o, before.row, cores, all, k)
    {
      SlotNext(before, cores, k, all, done, o);
      if e.paths[k] != "" {
        var claims := CountClaims(tile.row, cores, artists, k);
        if claims > 1 {
          diagnostics := diagnostics + [Conflict(Offer(a, e), k)];
        } else {
          slots := slots[k := Some(Slot(e.paths[k], a.provider))];
        }
      }
    }
    tile' := tile.(slots := slots);
  }

  /** One offer: an ineligible one is reported, any other fills the slots that only it claims. */
  method ApplyOffer(tiles: seq<Tile>, cores: seq<Row>, artists: seq<Artist>, a: Artist, e: ArtEntry,
                    ghost before: seq<Tile>, ghost all: seq<Offer>, ghost done: seq<Offer>)
    returns (tiles': seq<Tile>, diagnostics: seq<Diagnostic>)
    requires Wellformed(before, artists) && FilledTiles(before, tiles, cores, all, done)
    requires all == Offers(artists) && done + [Offer(a, e)] <= all && a in artists && e in a.art
    ensures AllSystems(Rows(before)) && FilledTiles(before, tiles', cores, all, done + [Offer(a, e)])
    ensures diagnostics == Reported(Rows(before), cores, all)(Offer(a, e))
  {
    hide Eligible, Offers, FilledTile, ConflictsUpTo, Fold, FlatMap;
    ghost var o := Offer(a, e);
    FirstTarget(before, artists, o);
    RowsKept(before, tiles, cores, all, done);
    var at := FindTile(tiles, e.id);
    tiles' := tiles;
    if at.None? {
      diagnostics := [Ineligible(Offer(a, e))];
      forall i | 0 <= i < |before| ensures FilledTile(before[i], tiles[i], cores, all, done + [o]) {
        TileUntouched(before[i], tiles[i], cores, all, done, o);
      }
      return;
    }
    var eligible := CheckEligible(tiles[at.value].row, cores, a);
    forall i | 0 <= i < |before| && (i != at.value || !eligible)
      ensures FilledTile(before[i], tiles[i], cores, all, done + [o])
    {
      TileUntouched(before[i], tiles[i], cores, all, done, o);
    }
    if !eligible {
      diagnostics := [Ineligible(Offer(a, e))];
      return;
    }
    var tile;
    tile, diagnostics := FillSlots(tiles[at.value], cores, artists, a, e, before[at.value], all, done);
    tiles' := tiles[at.value := tile];
  }

  lemma RowsKept(before: seq<Tile>, after: seq<Tile>, cores: seq<Row>, all: seq<Offer>, done: seq<Offer>)
    requires (forall t | t in before :: t.row.entry.System?) && FilledTiles(before, after, cores, all, done)
    ensures Rows(after) == Rows(before) && AllSystems(Rows(before))
  {
    hide Claims;
  }

  method FindTile(tiles: seq<Tile>, id: string) returns (at: Option<nat>)
    ensures at == FirstWithId(Rows(tiles), id)
  {
    FirstWithIdLeast(Rows(tiles), id);
    FirstWithIdInRange(Rows(tiles), id);
    for i := 0 to |tiles|
      invariant forall j | 0 <= j < i :: Fold(tiles[j].row.entry.id) != Fold(id)
    {
      if Fold(tiles[i].row.entry.id) == Fold(id) {
        return Some(i);
      }
    }
    return None;
  }

  lemma NothingFilled(tiles: seq<Tile>, artists: seq<Artist>, cores: seq<Row>, all: seq<Offer>)
    requires Wellformed(tiles, artists)
    ensures FilledTiles(tiles, tiles, cores, all, []) && AllSystems(Rows(tiles))
  {
    hide Fold, Eligible;
  }

  lemma OffersSoFar(artists: seq<Artist>, i: nat, j: nat)
    requires i < |artists| && j < |artists[i].art|
    ensures var o := Offer(artists[i], artists[i].art[j]);
      && FlatMap(ArtOffered, artists[..i]) + ArtOffered(artists[i])[..j] + [o] <= Offers(artists)
      && FlatMap(ArtOffered, artists[..i]) + ArtOffered(artists[i])[..j] + [o]
        == FlatMap(ArtOffered, artists[..i]) + ArtOffered(artists[i])[..j + 1]
  {
    var a := ArtOffered(artists[i]);
    assert artists == artists[..i + 1] + artists[i + 1..];
    FlatMapAppend(ArtOffered, artists[..i + 1], artists[i + 1..]);
    assert artists[..i + 1][..i] == artists[..i];
    assert a == a[..j] + [a[j]] + a[j + 1..];
  }

  /** Every slot ends up with the one eligible claim on it, if there is exactly one; otherwise it keeps what it had. */
  method ApplyArt(tiles: seq<Tile>, cores: seq<Row>, artists: seq<Artist>, diagnostics: seq<Diagnostic>)
    returns (tiles': seq<Tile>, sorted: seq<Diagnostic>)
    requires Wellformed(tiles, artists)
    ensures FilledTiles(tiles, tiles', cores, Offers(artists), Offers(artists))
    ensures AllSystems(Rows(tiles)) && SortedBy(sorted, DiagnosticLe)
    ensures Permuted(sorted, diagnostics + FlatMap(Reported(Rows(tiles), cores, Offers(artists)), Offers(artists)))
  {
    hide Wellformed, FilledTiles, Eligible, Fold, Reported, SortedBy;
    ghost var all := Offers(artists);
    NothingFilled(tiles, artists, cores, all);
    ghost var report := Reported(Rows(tiles), cores, all);
    ghost var done: seq<Offer> := [];
    tiles' := tiles;
    var reports := [];
    for i := 0 to |artists|
      invariant done == FlatMap(ArtOffered, artists[..i])
      invariant SystemTiles(tiles) && FilledTiles(tiles, tiles', cores, all, done)
      invariant reports == FlatMap(report, done)
    {
      assert artists[..i + 1][..i] == artists[..i];
      var a := artists[i];
      ghost var start := done;
      for j := 0 to |a.art|
        invariant done == start + ArtOffered(a)[..j]
        invariant SystemTiles(tiles) && FilledTiles(tiles, tiles', cores, all, done)
        invariant reports == FlatMap(report, done)
      {
        OffersSoFar(artists, i, j);
        ghost var o := Offer(a, a.art[j]);
        var more;
        tiles', more := ApplyOffer(tiles', cores, artists, a, a.art[j], tiles, all, done);
        OneMore(done, o);
        done := done + [o];
        reports := reports + more;
      }
    }
    assert artists[..|artists|] == artists;
    DiagnosticLeIsComparison();
    sorted := QSort(diagnostics + reports, DiagnosticLe);
  }

  // ---------------------------------------------------------------- any order

  /** Two tables of tiles that differ at most in the order of alternates. */
  ghost predicate SameTiles(a: seq<Tile>, b: seq<Tile>) {
    |a| == |b| && forall i | 0 <= i < |a| :: SameButOrder(a[i].row, b[i].row) && a[i].slots == b[i].slots
  }

  /**
   * The order of the contributors decides neither what is filled nor what is reported, on tables that themselves
   * may differ in the order of alternates.
   */
  lemma ArtConfluent(tiles: seq<Tile>, tiles': seq<Tile>, cores: seq<Row>, artists: seq<Artist>, artists': seq<Artist>,
                     diagnostics: seq<Diagnostic>, a: seq<Tile>, da: seq<Diagnostic>, b: seq<Tile>, db: seq<Diagnostic>)
    requires SameTiles(tiles, tiles') && Permuted(artists, artists') && AllSystems(Rows(tiles))
    requires AllSystems(Rows(tiles'))
    requires SystemTiles(tiles) && FilledTiles(tiles, a, cores, Offers(artists), Offers(artists))
    requires SystemTiles(tiles') && FilledTiles(tiles', b, cores, Offers(artists'), Offers(artists'))
    requires SortedBy(da, DiagnosticLe) && SortedBy(db, DiagnosticLe)
    requires Permuted(da, diagnostics + FlatMap(Reported(Rows(tiles), cores, Offers(artists)), Offers(artists)))
    requires Permuted(db, diagnostics + FlatMap(Reported(Rows(tiles'), cores, Offers(artists')), Offers(artists')))
    ensures SameTiles(a, b) && da == db
  {
    hide Eligible, Fold, Reported, SameButOrder, FilledTile;
    var o, o' := Offers(artists), Offers(artists');
    FlatMapPermuted(ArtOffered, artists, artists');
    forall i | 0 <= i < |tiles| ensures SameButOrder(a[i].row, b[i].row) && a[i].slots == b[i].slots {
      SameTile(tiles[i], tiles'[i], a[i], b[i], cores, o, o');
    }
    ReportedAgree(Rows(tiles), Rows(tiles'), cores, o, o');
    FlatMapPermuted(Reported(Rows(tiles), cores, o), o, o');
    FlatMapSame(Reported(Rows(tiles), cores, o), Reported(Rows(tiles'), cores, o'), o');
    NoDiagnosticTies(da);
    SortedUnique(da, db, DiagnosticLe);
  }

  /** Who may put art on a system does not depend on the order of its alternates. */
  lemma SameEligible(r: Row, s: Row, cores: seq<Row>, a: Artist)
    requires SameButOrder(r, s)
    ensures Eligible(r, cores, a) <==> Eligible(s, cores, a)
  {
    hide OwnsCore;
    PermutedMembers(Listed(r.entry.alternates), Listed(s.entry.alternates));
  }

  lemma SameTile(before: Tile, before': Tile, a: Tile, b: Tile, cores: seq<Row>, o: seq<Offer>, o': seq<Offer>)
    requires SameButOrder(before.row, before'.row) && before.slots == before'.slots && Permuted(o, o')
    requires FilledTile(before, a, cores, o, o) && FilledTile(before', b, cores, o', o')
    ensures SameButOrder(a.row, b.row) && a.slots == b.slots
  {
    hide Eligible, Claims;
    forall k | 0 <= k < SLOTS ensures a.slots[k] == b.slots[k] {
      ClaimsAgree(before.row, before'.row, cores, k, o, o');
    }
    assert a.slots == b.slots;
  }

  lemma SameClaims(row: Row, row': Row, cores: seq<Row>, k: nat, offers: seq<Offer>)
    requires SameButOrder(row, row')
    ensures Claims(row, cores, k, offers) == Claims(row', cores, k, offers)
  {
    hide Eligible, SameButOrder;
    SameRowId(row, row');
    forall x: Offer ensures ClaimOn(row, cores, k)(x) == ClaimOn(row', cores, k)(x) {
      SameEligible(row, row', cores, x.artist);
    }
    FlatMapSame(ClaimOn(row, cores, k), ClaimOn(row', cores, k), offers);
  }

  lemma SameRowId(row: Row, row': Row)
    requires SameButOrder(row, row')
    ensures row.entry.System? && row'.entry.System? && row.entry.id == row'.entry.id
  {
  }

  lemma OnlyOne<T>(a: seq<T>, b: seq<T>)
    requires Permuted(a, b)
    ensures |a| == |b| && (|a| == 1 ==> a[0] == b[0])
  {
    PermutedMembers(a, b);
    if |a| == 1 { assert a[0] in b; }
  }

  lemma ClaimsAgree(row: Row, row': Row, cores: seq<Row>, k: nat, o: seq<Offer>, o': seq<Offer>)
    requires SameButOrder(row, row') && Permuted(o, o')
    ensures var c, c' := Claims(row, cores, k, o), Claims(row', cores, k, o');
      |c| == |c'| && (|c| == 1 ==> c[0] == c'[0])
  {
    hide Eligible, SameButOrder, Permuted;
    SameRowId(row, row');
    FlatMapPermuted(ClaimOn(row, cores, k), o, o');
    SameClaims(row, row', cores, k, o');
    OnlyOne(Claims(row, cores, k, o), Claims(row', cores, k, o'));
  }

  ghost predicate SameRows(rows: seq<Row>, rows': seq<Row>) {
    |rows| == |rows'| && forall i | 0 <= i < |rows| :: SameButOrder(rows[i], rows'[i])
  }

  lemma {:induction false} SameFirst(rows: seq<Row>, rows': seq<Row>, id: string)
    requires SameRows(rows, rows')
    ensures FirstWithId(rows, id) == FirstWithId(rows', id)
    decreases |rows|
  {
    hide Fold;
    if rows != [] { SameFirst(rows[..|rows| - 1], rows'[..|rows| - 1], id); }
  }

  lemma ReportedAgree(rows: seq<Row>, rows': seq<Row>, cores: seq<Row>, o: seq<Offer>, o': seq<Offer>)
    requires AllSystems(rows) && AllSystems(rows') && SameRows(rows, rows') && Permuted(o, o')
    ensures forall x :: Reported(rows, cores, o)(x) == Reported(rows', cores, o')(x)
  {
    forall x ensures Reported(rows, cores, o)(x) == Reported(rows', cores, o')(x) {
      OneReportAgrees(rows, rows', cores, o, o', x);
    }
  }

  lemma OneReportAgrees(rows: seq<Row>, rows': seq<Row>, cores: seq<Row>, o: seq<Offer>, o': seq<Offer>, x: Offer)
    requires AllSystems(rows) && AllSystems(rows') && SameRows(rows, rows') && Permuted(o, o')
    ensures Reported(rows, cores, o)(x) == Reported(rows', cores, o')(x)
  {
    hide Eligible, Fold, Claims, SameButOrder, FirstWithId, ConflictsUpTo;
    FirstWithIdInRange(rows, x.entry.id);
    FirstWithIdInRange(rows', x.entry.id);
    SameFirst(rows, rows', x.entry.id);
    var at := FirstWithId(rows, x.entry.id);
    if at.Some? {
      assert SameButOrder(rows[at.value], rows'[at.value]);
      assert rows[at.value] in rows && rows'[at.value] in rows';
      SameEligible(rows[at.value], rows'[at.value], cores, x.artist);
      if |x.entry.paths| == SLOTS { ConflictsAgree(x, rows[at.value], rows'[at.value], cores, o, o', SLOTS); }
    }
  }

  lemma {:induction false} ConflictsAgree(x: Offer, row: Row, row': Row, cores: seq<Row>, o: seq<Offer>, o': seq<Offer>,
                                          n: nat)
    requires SameButOrder(row, row') && |x.entry.paths| == SLOTS && n <= SLOTS && Permuted(o, o')
    ensures ConflictsUpTo(x, row, cores, o, n) == ConflictsUpTo(x, row', cores, o', n)
  {
    hide Eligible, Claims;
    if n > 0 {
      ConflictsAgree(x, row, row', cores, o, o', n - 1);
      ClaimsAgree(row, row', cores, n - 1, o, o');
    }
  }

  lemma {:induction false} FlatMapSame<T, U>(f: T -> seq<U>, g: T -> seq<U>, s: seq<T>)
    requires forall x :: f(x) == g(x)
    ensures FlatMap(f, s) == FlatMap(g, s)
    decreases |s|
  {
    if s != [] { FlatMapSame(f, g, s[..|s| - 1]); }
  }
}
