/** What every run of relocation calls keeps, what one call undoes, and why lost replies are harmless. */
module RelocationProofs {
  import opened Wrappers
  import opened RelocationModel

  // ---------------------------------------------------------------- the invariant

  /** The items of one operation never get in each other's way. */
  ghost predicate Independent(items: seq<Item>) {
    forall i, j | 0 <= i < |items| && 0 <= j < |items| && i != j ::
      && items[i].gameId != items[j].gameId
      && items[i].source.key != items[j].source.key
      && items[i].dest.key != items[j].dest.key
      && items[i].source.key != items[j].dest.key
  }

  /** Every item's row is where a move in this direction expects it, and its target locator is free. */
  ghost predicate Ready(games: map<int, Game>, items: seq<Item>, forward: bool) {
    forall i | 0 <= i < |items| ::
      && items[i].gameId in games
      && games[items[i].gameId].place.key == From(items[i], forward).key
      && forall g | g in games && g != items[i].gameId :: games[g].place.key != To(items[i], forward).key
  }

  ghost predicate OpInv(games: map<int, Game>, op: Op) {
    && Independent(op.items)
    && (op.state == Prepared || op.state == Reverted ==> Ready(games, op.items, true))
    && (op.state == Committed ==> Ready(games, op.items, false))
    && (op.state == Finishing || op.state == Finished ==> op.scanTicket > op.mappingGeneration)
  }

  ghost predicate AtMostOneUnfinished(ops: map<string, Op>) {
    forall a, b | a in ops && b in ops && Unfinished(ops[a]) && Unfinished(ops[b]) :: a == b
  }

  ghost predicate Inv(db: Db) {
    && ValidDb(db)
    && AtMostOneUnfinished(db.ops)
    && forall id | id in db.ops :: OpInv(db.games, db.ops[id])
  }

  // ---------------------------------------------------------------- prepare

  lemma {:induction false} CheckItemsAll(games: map<int, Game>, reqs: seq<Request>, n: nat)
    requires n <= |reqs| && CheckItems(games, reqs, n).Done?
    ensures |CheckItems(games, reqs, n).value| == n
    ensures forall i | 0 <= i < n :: CheckItem(games, reqs, i) == Done(CheckItems(games, reqs, n).value[i])
  {
    if n > 0 { CheckItemsAll(games, reqs, n - 1); }
  }

  /** A successful prepare reserves independent items, recorded exactly as the rows stand. */
  lemma PrepareChecks(games: map<int, Game>, reqs: seq<Request>)
    requires UniqueKeys(games) && 0 !in games && CheckItems(games, reqs, |reqs|).Done?
    ensures var items := CheckItems(games, reqs, |reqs|).value;
      && Independent(items) && Ready(games, items, true)
      && forall i | 0 <= i < |items| :: items[i].source == games[items[i].gameId].place
  {
    CheckItemsAll(games, reqs, |reqs|);
    var items := CheckItems(games, reqs, |reqs|).value;
    forall i | 0 <= i < |items|
      ensures items[i].gameId in games && games[items[i].gameId].place == items[i].source
      ensures items[i].source.key == reqs[i].sourceKey && items[i].dest == reqs[i].dest
      ensures forall g | g in games && g != items[i].gameId :: games[g].place.key != items[i].dest.key
    {
      assert CheckItem(games, reqs, i) == Done(items[i]);
    }
    forall i, j | 0 <= i < |items| && 0 <= j < i
      ensures items[i].source.key != items[j].source.key && items[i].dest.key != items[j].dest.key
    {
      assert CheckItem(games, reqs, i) == Done(items[i]);
      assert !Clash(reqs[i], reqs[j]);
    }
  }

  // ---------------------------------------------------------------- moves

  /** `after` is `before` with exactly the first `n` items relocated. */
  ghost predicate Relocated(before: map<int, Game>, after: map<int, Game>, items: seq<Item>, forward: bool, n: nat)
    requires n <= |items|
  {
    && after.Keys == before.Keys
    && (forall i | 0 <= i < n && items[i].gameId in before ::
          after[items[i].gameId] == before[items[i].gameId].(place := To(items[i], forward)))
    && (forall id | id in before && (forall i | 0 <= i < n :: items[i].gameId != id) :: after[id] == before[id])
  }

  /** From a ready state no row update fails, the locators stay unique after each one,
      and the outcome is the simultaneous relocation of all items. */
  lemma {:induction false} MoveAlwaysSucceeds(games: map<int, Game>, items: seq<Item>, forward: bool, n: nat)
    requires n <= |items| && UniqueKeys(games) && Independent(items) && Ready(games, items, forward)
    ensures MoveGames(games, items, forward, n).Some?
    ensures UniqueKeys(MoveGames(games, items, forward, n).value)
    ensures Relocated(games, MoveGames(games, items, forward, n).value, items, forward, n)
  {
    hide Relocated, UniqueKeys, UpdateRow, Ready, Independent;
    if n == 0 {
      NothingMoved(games, items, forward);
    } else {
      MoveAlwaysSucceeds(games, items, forward, n - 1);
      MoveOne(games, MoveGames(games, items, forward, n - 1).value, items, forward, n - 1);
    }
  }

  lemma NothingMoved(games: map<int, Game>, items: seq<Item>, forward: bool)
    ensures Relocated(games, games, items, forward, 0)
  {
  }

  /** One more item: its row is found, its place is free, and only its row changes. */
  lemma MoveOne(games: map<int, Game>, g: map<int, Game>, items: seq<Item>, forward: bool, n: nat)
    requires n < |items| && UniqueKeys(g) && Independent(items) && Ready(games, items, forward)
    requires Relocated(games, g, items, forward, n)
    ensures var r := UpdateRow(g, items[n], forward);
      r.Some? && UniqueKeys(r.value) && Relocated(games, r.value, items, forward, n + 1)
  {
    DestinationFree(games, g, items, forward, n);
    RowUntouched(games, g, items, forward, n);
    var after := UpdateRow(g, items[n], forward).value;
    RelocatedNext(games, g, after, items, forward, n);
    UniqueAfter(g, items[n], forward);
  }

  lemma RowUntouched(games: map<int, Game>, g: map<int, Game>, items: seq<Item>, forward: bool, n: nat)
    requires n < |items| && Independent(items) && Ready(games, items, forward) && Relocated(games, g, items, forward, n)
    ensures items[n].gameId in g && g[items[n].gameId] == games[items[n].gameId]
    ensures g[items[n].gameId].place.key == From(items[n], forward).key
  {
  }

  lemma RelocatedNext(games: map<int, Game>, g: map<int, Game>, after: map<int, Game>, items: seq<Item>, forward: bool,
                      n: nat)
    requires n < |items| && Independent(items) && Relocated(games, g, items, forward, n)
    requires items[n].gameId in g && g[items[n].gameId] == games[items[n].gameId]
    requires after == g[items[n].gameId := g[items[n].gameId].(place := To(items[n], forward))]
    ensures Relocated(games, after, items, forward, n + 1)
  {
    hide To;
  }

  lemma UniqueAfter(g: map<int, Game>, item: Item, forward: bool)
    requires UniqueKeys(g) && UpdateRow(g, item, forward).Some?
    ensures UniqueKeys(UpdateRow(g, item, forward).value)
  {
  }

  /** After `n` moves nothing stands where the next item goes. */
  lemma DestinationFree(games: map<int, Game>, g: map<int, Game>, items: seq<Item>, forward: bool, n: nat)
    requires n < |items| && Independent(items) && Ready(games, items, forward) && Relocated(games, g, items, forward, n)
    ensures forall other | other in g && other != items[n].gameId :: g[other].place.key != To(items[n], forward).key
  {
    forall other | other in g && other != items[n].gameId ensures g[other].place.key != To(items[n], forward).key {
      if i :| 0 <= i < n && items[i].gameId == other {
        assert g[other].place == To(items[i], forward);
      } else {
        assert g[other] == games[other];
      }
    }
  }

  /** After a move the same items are ready to move back. */
  lemma ReadyToReturn(games: map<int, Game>, after: map<int, Game>, items: seq<Item>, forward: bool)
    requires UniqueKeys(games) && Independent(items) && Ready(games, items, forward)
    requires Relocated(games, after, items, forward, |items|)
    ensures Ready(after, items, !forward)
  {
    forall i, g | 0 <= i < |items| && g in after && g != items[i].gameId
      ensures after[g].place.key != To(items[i], !forward).key
    {
      if j :| 0 <= j < |items| && items[j].gameId == g {
        assert after[g].place == To(items[j], forward);
      } else {
        assert after[g] == games[g];
        assert games[items[i].gameId].place.key == From(items[i], forward).key;
      }
    }
  }

  /** Moving there and back restores every row and id, when the items recorded the rows as they stood. */
  lemma MoveThereAndBack(games: map<int, Game>, items: seq<Item>)
    requires UniqueKeys(games) && Independent(items) && Ready(games, items, true)
    requires forall i | 0 <= i < |items| :: items[i].source == games[items[i].gameId].place
    ensures MoveGames(games, items, true, |items|).Some?
    ensures MoveGames(MoveGames(games, items, true, |items|).value, items, false, |items|) == Some(games)
  {
    MoveAlwaysSucceeds(games, items, true, |items|);
    var there := MoveGames(games, items, true, |items|).value;
    ReadyToReturn(games, there, items, true);
    MoveAlwaysSucceeds(there, items, false, |items|);
    var back := MoveGames(there, items, false, |items|).value;
    forall id | id in games ensures back[id] == games[id] {
      if i :| 0 <= i < |items| && items[i].gameId == id {
        assert back[id].place == items[i].source;
      }
    }
    assert back == games;
  }

  /** Membership of a hidden row after the first `n` items moved. */
  ghost predicate HiddenAfter(before: set<Hidden>, h: Hidden, items: seq<Item>, forward: bool, n: nat)
    requires n <= |items|
  {
    || (h in before && forall i | 0 <= i < n :: From(items[i], forward).key != h.key)
    || exists i :: 0 <= i < n && To(items[i], forward).key == h.key
                   && Hidden(From(items[i], forward).key, h.member) in before
  }

  lemma {:induction false} MoveAllHiddenMembers(hidden: set<Hidden>, items: seq<Item>, forward: bool, n: nat, h: Hidden)
    requires n <= |items| && Independent(items)
    ensures h in MoveAllHidden(hidden, items, forward, n) <==> HiddenAfter(hidden, h, items, forward, n)
  {
    hide MoveHidden, HiddenAfter, Independent;
    if n == 0 {
      HiddenAtFirst(hidden, h, items, forward);
    } else {
      var from, to := From(items[n - 1], forward).key, To(items[n - 1], forward).key;
      MoveAllHiddenMembers(hidden, items, forward, n - 1, h);
      MoveAllHiddenMembers(hidden, items, forward, n - 1, Hidden(from, h.member));
      MoveHiddenMember(MoveAllHidden(hidden, items, forward, n - 1), from, to, h);
      HiddenAfterNext(hidden, h, items, forward, n - 1);
    }
  }

  lemma MoveHiddenMember(hidden: set<Hidden>, from: Key, to: Key, h: Hidden)
    ensures h in MoveHidden(hidden, from, to) <==>
      (h in hidden && h.key != from) || (h.key == to && Hidden(from, h.member) in hidden)
  {
    if h.key == to && Hidden(from, h.member) in hidden { assert h == Hidden(to, Hidden(from, h.member).member); }
  }

  lemma HiddenAtFirst(hidden: set<Hidden>, h: Hidden, items: seq<Item>, forward: bool)
    ensures HiddenAfter(hidden, h, items, forward, 0) <==> h in hidden
  {
  }

  /** What the next item does to the hidden rows. */
  lemma HiddenAfterNext(hidden: set<Hidden>, h: Hidden, items: seq<Item>, forward: bool, n: nat)
    requires n < |items| && Independent(items)
    ensures var from, to := From(items[n], forward).key, To(items[n], forward).key;
      HiddenAfter(hidden, h, items, forward, n + 1) <==>
        || (HiddenAfter(hidden, h, items, forward, n) && h.key != from)
        || (h.key == to && HiddenAfter(hidden, Hidden(from, h.member), items, forward, n))
  {
    var from, to := From(items[n], forward).key, To(items[n], forward).key;
    var f := Hidden(from, h.member);
    Untouched(items, forward, n);
    assert HiddenAfter(hidden, f, items, forward, n) <==> f in hidden;
    if i :|
         && 0 <= i < n + 1 && To(items[i], forward).key == h.key
         && Hidden(From(items[i], forward).key, h.member) in hidden
    {
      if i < n { assert HiddenAfter(hidden, h, items, forward, n); }
    }
  }

  /** No earlier item comes from or goes to the place item `n` comes from. */
  lemma Untouched(items: seq<Item>, forward: bool, n: nat)
    requires n < |items| && Independent(items)
    ensures forall i | 0 <= i < n ::
      From(items[i], forward).key != From(items[n], forward).key
        && To(items[i], forward).key != From(items[n], forward).key
  {
  }

  /** Some hidden row sits at a destination that differs from its own source. */
  ghost predicate HiddenAtDestination(hidden: set<Hidden>, items: seq<Item>) {
    exists i, h :: 0 <= i < |items| && h in hidden
      && h.key == items[i].dest.key && items[i].source.key != items[i].dest.key
  }

  ghost function HiddenThereAndBack(hidden: set<Hidden>, items: seq<Item>): set<Hidden> {
    MoveAllHidden(MoveAllHidden(hidden, items, true, |items|), items, false, |items|)
  }

  /** One row, there and back. */
  lemma HiddenReturns(hidden: set<Hidden>, items: seq<Item>, h: Hidden)
    requires Independent(items)
    ensures h in HiddenThereAndBack(hidden, items) <==>
      || (h in hidden && forall i | 0 <= i < |items| :: items[i].source.key != h.key && items[i].dest.key != h.key)
      || exists i :: 0 <= i < |items| && items[i].source.key == h.key
           && (h in hidden || Hidden(items[i].dest.key, h.member) in hidden)
  {
    var mid := MoveAllHidden(hidden, items, true, |items|);
    MoveAllHiddenMembers(hidden, items, true, |items|, h);
    MoveAllHiddenMembers(mid, items, false, |items|, h);
    forall i | 0 <= i < |items|
      ensures Hidden(items[i].dest.key, h.member) in mid <==>
        || Hidden(items[i].source.key, h.member) in hidden
        || (Hidden(items[i].dest.key, h.member) in hidden && items[i].source.key != items[i].dest.key)
    {
      var d := Hidden(items[i].dest.key, h.member);
      MoveAllHiddenMembers(hidden, items, true, |items|, d);
      assert forall k | 0 <= k < |items| && To(items[k], true).key == d.key :: k == i;
      if Hidden(items[i].source.key, h.member) in hidden {
        assert To(items[i], true).key == d.key && Hidden(From(items[i], true).key, d.member) in hidden;
      }
    }
  }

  /** hidden_roms comes back exactly when no hidden row sat at a destination beforehand. */
  lemma HiddenRestoredIff(hidden: set<Hidden>, items: seq<Item>)
    requires Independent(items)
    ensures HiddenThereAndBack(hidden, items) == hidden <==> !HiddenAtDestination(hidden, items)
  {
    var back := HiddenThereAndBack(hidden, items);
    if i, h :|
         && 0 <= i < |items| && h in hidden
         && h.key == items[i].dest.key && items[i].source.key != items[i].dest.key
    {
      HiddenReturns(hidden, items, h);
      assert forall k | 0 <= k < |items| :: items[k].source.key != h.key;
      assert h !in back;
    } else {
      forall h ensures h in back <==> h in hidden {
        HiddenReturns(hidden, items, h);
      }
    }
  }

  // ---------------------------------------------------------------- every step keeps the invariant

  lemma PrepareKeepsInv(db: Db, id: string, expected: int, fingerprint: string, reqs: seq<Request>)
    requires Inv(db)
    ensures Inv(PrepareStep(db, id, expected, fingerprint, reqs).0)
  {
    if CheckItems(db.games, reqs, |reqs|).Done? { PrepareChecks(db.games, reqs); }
  }

  /** Another finished or unfinished operation never holds anything while this one is unfinished. */
  lemma OnlyOneHolds(db: Db, id: string, other: string)
    requires Inv(db) && id in db.ops && other in db.ops && other != id && Unfinished(db.ops[id])
    ensures !Holds(db.ops[other])
  {
  }

  lemma MoveKeepsInv(db: Db, id: string, forward: bool)
    requires Inv(db)
    ensures Inv(MoveStep(db, id, forward).0)
    ensures id in db.ops && db.ops[id].state == Origin(forward) ==> MoveStep(db, id, forward).1 == Ok
  {
    if id in db.ops && db.ops[id].state == Origin(forward) {
      var op := db.ops[id];
      assert OpInv(db.games, op);
      MoveAlwaysSucceeds(db.games, op.items, forward, |op.items|);
      var g := MoveGames(db.games, op.items, forward, |op.items|).value;
      ReadyToReturn(db.games, g, op.items, forward);
      var db' := MoveStep(db, id, forward).0;
      forall other | other in db'.ops ensures OpInv(db'.games, db'.ops[other]) {
        if other != id { OnlyOneHolds(db, id, other); }
      }
    }
  }

  lemma OtherKeepsInv(db: Db, games: map<int, Game>, hidden: set<Hidden>, generation: int)
    requires Inv(db) && Respects(db, games)
    ensures Inv(db.(games := games, hidden := hidden, generation := generation))
  {
    forall id | id in db.ops && Holds(db.ops[id]) ensures OpInv(games, db.ops[id]) {
      var op := db.ops[id];
      var forward := op.state != Committed;
      assert OpInv(db.games, op) && Ready(db.games, op.items, forward);
      forall i | 0 <= i < |op.items|
        ensures op.items[i].gameId in games
        ensures games[op.items[i].gameId].place == db.games[op.items[i].gameId].place
        ensures forall g | g in games && g != op.items[i].gameId :: games[g].place.key != To(op.items[i], forward).key
      {
        assert GameReserved(db, op.items[i].gameId);
        assert KeyReserved(db, To(op.items[i], forward).key);
      }
    }
  }

  /** Equal but for absolute paths and snapshots, which a refresh rewrites. */
  predicate SameMove(a: Item, b: Item) {
    && a.gameId == b.gameId && a.source.(romPath := "", imagePath := "") == b.source.(romPath := "", imagePath := "")
    && a.dest.(romPath := "", imagePath := "") == b.dest.(romPath := "", imagePath := "")
  }

  ghost predicate SameMoves(a: seq<Item>, b: seq<Item>) {
    |a| == |b| && forall i | 0 <= i < |a| :: SameMove(a[i], b[i])
  }

  lemma {:induction false} RefreshKeepsMoves(items: seq<Item>, rs: seq<Refresh>, n: nat)
    requires n <= |rs| && RefreshItems(items, rs, n).Some?
    ensures SameMoves(items, RefreshItems(items, rs, n).value)
    decreases n
  {
    if n > 0 { RefreshKeepsMoves(items, rs, n - 1); }
  }

  lemma SameKeys(a: seq<Item>, b: seq<Item>)
    requires SameMoves(a, b)
    ensures forall i | 0 <= i < |a| ::
      b[i].gameId == a[i].gameId && b[i].source.key == a[i].source.key && b[i].dest.key == a[i].dest.key
  {
    forall i | 0 <= i < |a|
      ensures b[i].gameId == a[i].gameId && b[i].source.key == a[i].source.key && b[i].dest.key == a[i].dest.key
    {
      assert SameMove(a[i], b[i]);
      assert a[i].source.(romPath := "", imagePath := "").key == a[i].source.key;
      assert a[i].dest.(romPath := "", imagePath := "").key == a[i].dest.key;
    }
  }

  lemma RefreshKeepsInv(db: Db, id: string, rs: seq<Refresh>)
    requires Inv(db)
    ensures Inv(RefreshStep(db, id, rs).0)
  {
    if id in db.ops && RefreshItems(db.ops[id].items, rs, |rs|).Some? {
      RefreshKeepsMoves(db.ops[id].items, rs, |rs|);
      var items := RefreshItems(db.ops[id].items, rs, |rs|).value;
      SameKeys(db.ops[id].items, items);
      assert OpInv(db.games, db.ops[id]);
      forall forward | Ready(db.games, db.ops[id].items, forward) ensures Ready(db.games, items, forward) {}
      assert OpInv(db.games, db.ops[id].(items := items));
    }
  }

  lemma StepKeepsInv(db: Db, e: Event)
    requires Inv(db) && Admissible(db, e)
    ensures Inv(Step(db, e).0)
  {
    match e
    case Prepare(id, expected, fingerprint, reqs) => PrepareKeepsInv(db, id, expected, fingerprint, reqs);
    case Commit(id) => MoveKeepsInv(db, id, true);
    case Revert(id) => MoveKeepsInv(db, id, false);
    case Abort(id) =>
    case Finish(id) =>
      if id in db.ops { assert OpInv(db.games, db.ops[id]); }
    case NoteScan(scan) =>
      forall id | id in db.ops
        ensures OpInv(db.games, Scanned(db.ops[id], scan))
      {
        assert OpInv(db.games, db.ops[id]);
      }
    case RefreshPaths(id, rs) => RefreshKeepsInv(db, id, rs);
    case Other(games, hidden, generation) => OtherKeepsInv(db, games, hidden, generation);
  }

  /** A library that has never seen a relocation. */
  ghost predicate Initial(db: Db) {
    ValidDb(db) && db.ops == map[]
  }

  lemma {:induction false} RunKeepsInv(db: Db, events: seq<Event>)
    requires Inv(db) && AdmissibleRun(db, events)
    ensures Inv(Run(db, events))
    decreases |events|
  {
    if events != [] {
      StepKeepsInv(db, events[0]);
      RunKeepsInv(Step(db, events[0]).0, events[1..]);
    }
  }

  /** Over all runs: one unfinished operation at most, unique locators, and neither commit from prepared
      nor revert from committed ever meets a changed row. */
  lemma ReachableMovesSucceed(db: Db, events: seq<Event>, id: string)
    requires Initial(db) && AdmissibleRun(db, events)
    ensures var now := Run(db, events);
      && AtMostOneUnfinished(now.ops) && UniqueKeys(now.games)
      && (id in now.ops && now.ops[id].state == Prepared ==> Step(now, Commit(id)).1 == Ok)
      && (id in now.ops && now.ops[id].state == Committed ==> Step(now, Revert(id)).1 == Ok)
  {
    RunKeepsInv(db, events);
    MoveKeepsInv(Run(db, events), id, true);
    MoveKeepsInv(Run(db, events), id, false);
  }

  // ---------------------------------------------------------------- prepare, commit, revert

  /** Some request's destination already carries a hidden row of another game. */
  ghost predicate DestinationHidden(hidden: set<Hidden>, reqs: seq<Request>) {
    exists i, h :: 0 <= i < |reqs| && h in hidden && h.key == reqs[i].dest.key && reqs[i].sourceKey != reqs[i].dest.key
  }

  lemma SameDestinations(games: map<int, Game>, hidden: set<Hidden>, reqs: seq<Request>)
    requires CheckItems(games, reqs, |reqs|).Done?
    ensures HiddenAtDestination(hidden, CheckItems(games, reqs, |reqs|).value) <==> DestinationHidden(hidden, reqs)
  {
    CheckItemsAll(games, reqs, |reqs|);
    var items := CheckItems(games, reqs, |reqs|).value;
    forall i | 0 <= i < |items| ensures items[i].source.key == reqs[i].sourceKey && items[i].dest == reqs[i].dest {
      assert CheckItem(games, reqs, i) == Done(items[i]);
    }
    if i, h :| 0 <= i < |reqs| && h in hidden && h.key == reqs[i].dest.key && reqs[i].sourceKey != reqs[i].dest.key {
      assert h.key == items[i].dest.key && items[i].source.key != items[i].dest.key;
    }
  }

  /** With nobody in between, prepare, commit and revert restore every game row and id;
      hidden_roms comes back if and only if no hidden row sat at a destination. */
  lemma PrepareCommitRevert(db: Db, id: string, expected: int, fingerprint: string, reqs: seq<Request>)
    requires ValidDb(db) && id !in db.ops
    requires PrepareStep(db, id, expected, fingerprint, reqs).1 == Ok
    ensures var prepared := PrepareStep(db, id, expected, fingerprint, reqs).0;
      var (committed, code) := MoveStep(prepared, id, true);
      var (reverted, code') := MoveStep(committed, id, false);
      && code == Ok && code' == Ok
      && reverted.games == db.games
      && (reverted.hidden == db.hidden <==> !DestinationHidden(db.hidden, reqs))
      && reverted.generation == db.generation + 2
  {
    var items := CheckItems(db.games, reqs, |reqs|).value;
    var prepared := PrepareStep(db, id, expected, fingerprint, reqs).0;
    assert prepared.ops[id].items == items && prepared.ops[id].state == Prepared;
    PrepareChecks(db.games, reqs);
    MoveThereAndBack(db.games, items);
    var committed := MoveStep(prepared, id, true).0;
    assert committed.ops[id].items == items && committed.ops[id].state == Committed;
    HiddenRestoredIff(db.hidden, items);
    SameDestinations(db.games, db.hidden, reqs);
  }

  // ---------------------------------------------------------------- lost replies

  /** The calls whose reply may be lost and which are therefore sent again. */
  predicate Repeatable(e: Event) {
    e.Prepare? || e.Commit? || e.Revert? || e.Abort? || e.Finish?
  }

  /** What is true forever after the call has succeeded once. */
  ghost predicate Settled(db: Db, e: Event)
    requires Repeatable(e)
  {
    && e.id in db.ops
    && var op := db.ops[e.id];
       match e
       case Prepare(_, expected, fingerprint, _) => op.expectedGeneration == expected && op.fingerprint == fingerprint
       case Commit(_) => op.state in {Committed, Reverted, Finishing, Finished}
       case Revert(_) => op.state in {Reverted, Finishing, Finished}
       case Abort(_) => op.state == Aborted
       case Finish(_) => op.state in {Finishing, Finished}
  }

  lemma SuccessSettles(db: Db, e: Event)
    requires Repeatable(e) && Step(db, e).1 == Ok
    ensures Settled(Step(db, e).0, e)
  {
  }

  lemma StaysSettled(db: Db, e: Event, other: Event)
    requires Repeatable(e) && Settled(db, e)
    ensures Settled(Step(db, other).0, e)
  {
    var op := db.ops[e.id];
    match other
    case Prepare(_, _, _, _) =>
    case Commit(id) =>
    case Revert(id) =>
    case Abort(id) =>
    case Finish(id) =>
    case NoteScan(scan) =>
    case RefreshPaths(id, rs) =>
    case Other(_, _, _) =>
  }

  lemma {:induction false} StaysSettledOverRun(db: Db, e: Event, events: seq<Event>)
    requires Repeatable(e) && Settled(db, e)
    ensures Settled(Run(db, events), e)
    decreases |events|
  {
    if events != [] {
      StaysSettled(db, e, events[0]);
      StaysSettledOverRun(Step(db, events[0]).0, e, events[1..]);
    }
  }

  /**
   * A late duplicate of a call that succeeded changes nothing at all, at any later point of any run. It is answered
   * with success, except a commit or revert whose effect has been followed by a later one: that is a bad state.
   */
  lemma LateDuplicateIsHarmless(db: Db, e: Event, later: seq<Event>)
    requires Repeatable(e) && Step(db, e).1 == Ok
    ensures var now := Run(Step(db, e).0, later);
      && e.id in now.ops && Step(now, e).0 == now
      && Step(now, e).1
           == if (e.Commit? && now.ops[e.id].state != Committed) || (e.Revert? && now.ops[e.id].state != Reverted)
              then BadState else Ok
  {
    SuccessSettles(db, e);
    StaysSettledOverRun(Step(db, e).0, e, later);
  }

  /** How often in a run the call `e` actually changed the database. */
  ghost function TimesEffective(db: Db, events: seq<Event>, e: Event): nat
    decreases |events|
  {
    if events == [] then 0
    else
      var next := Step(db, events[0]).0;
      (if events[0] == e && next != db then 1 else 0) + TimesEffective(next, events[1..], e)
  }

  lemma {:induction false} SettledNeverEffective(db: Db, events: seq<Event>, e: Event)
    requires Repeatable(e) && Settled(db, e)
    ensures TimesEffective(db, events, e) == 0
    decreases |events|
  {
    if events != [] {
      StaysSettled(db, e, events[0]);
      SettledNeverEffective(Step(db, events[0]).0, events[1..], e);
    }
  }

  /** However often it is sent, a call takes effect at most once. */
  lemma {:induction false} TakesEffectOnce(db: Db, events: seq<Event>, e: Event)
    requires Repeatable(e)
    ensures TimesEffective(db, events, e) <= 1
    decreases |events|
  {
    if events != [] {
      var next := Step(db, events[0]).0;
      if events[0] == e && next != db {
        if Step(db, e).1 != Ok { FailureChangesNothing(db, e); }
        SuccessSettles(db, e);
        SettledNeverEffective(next, events[1..], e);
      } else {
        TakesEffectOnce(next, events[1..], e);
      }
    }
  }

  lemma FailureChangesNothing(db: Db, e: Event)
    requires Step(db, e).1 != Ok
    ensures Step(db, e).0 == db
  {
  }

  /** Moves that took effect, and what other writers added to the generation. */
  ghost function Moves(db: Db, events: seq<Event>): nat
    decreases |events|
  {
    if events == [] then 0
    else
      var next := Step(db, events[0]).0;
      (if (events[0].Commit? || events[0].Revert?) && next != db then 1 else 0) + Moves(next, events[1..])
  }

  ghost function Drift(db: Db, events: seq<Event>): int
    decreases |events|
  {
    if events == [] then 0
    else
      (if events[0].Other? then events[0].generation - db.generation else 0) + Drift(Step(db, events[0]).0, events[1..])
  }

  /** The generation counts exactly the commits and reverts that took effect. */
  lemma {:induction false} GenerationCountsMoves(db: Db, events: seq<Event>)
    ensures Run(db, events).generation == db.generation + Moves(db, events) + Drift(db, events)
    decreases |events|
  {
    if events != [] { GenerationCountsMoves(Step(db, events[0]).0, events[1..]); }
  }

  lemma RunStep(db: Db, events: seq<Event>)
    requires AdmissibleRun(db, events)
    ensures events == [] ==> Run(db, events) == db
    ensures events != [] ==>
      && Admissible(db, events[0]) && AdmissibleRun(Step(db, events[0]).0, events[1..])
      && Run(db, events) == Run(Step(db, events[0]).0, events[1..])
  {
    hide Step, Inv;
  }

  lemma FinishedByScan(db: Db, e: Event, id: string)
    requires Inv(db) && Admissible(db, e) && Inv(Step(db, e).0)
    requires id in Step(db, e).0.ops && Step(db, e).0.ops[id].state == Finished
    requires id in db.ops ==> db.ops[id].state != Finished
    ensures var op := Step(db, e).0.ops[id]; e.NoteScan? && e.scan >= op.scanTicket > op.mappingGeneration
  {
    hide Step, Admissible;
    FinishingStep(db, e, id);
    var next := Step(db, e).0;
    assert OpInv(next.games, next.ops[id]);
  }

  /** Only a noted scan finishes an operation. */
  lemma FinishingStep(db: Db, e: Event, id: string)
    requires id in Step(db, e).0.ops && Step(db, e).0.ops[id].state == Finished
    requires id in db.ops ==> db.ops[id].state != Finished
    ensures e.NoteScan? && e.scan >= Step(db, e).0.ops[id].scanTicket
  {
    match e
    case Prepare(_, _, _, _) =>
    case Commit(_) =>
    case Revert(_) =>
    case Abort(_) =>
    case Finish(_) =>
    case NoteScan(scan) =>
    case RefreshPaths(_, rs) =>
    case Other(_, _, _) =>
  }

  /** An operation is finished only by a scan noted at or above a ticket that exceeds its mapping generation. */
  lemma {:induction false} FinishedWasScanned(db: Db, events: seq<Event>, id: string)
    requires Inv(db) && AdmissibleRun(db, events)
    requires id in Run(db, events).ops && Run(db, events).ops[id].state == Finished
    requires id in db.ops ==> db.ops[id].state != Finished
    ensures var op := Run(db, events).ops[id];
      exists k :: 0 <= k < |events| && events[k].NoteScan? && events[k].scan >= op.scanTicket > op.mappingGeneration
    decreases |events|
  {
    hide Step, Inv;
    RunStep(db, events);
    var next := Step(db, events[0]).0;
    StepKeepsInv(db, events[0]);
    if id in next.ops && next.ops[id].state == Finished {
      FinishedByScan(db, events[0], id);
      FinishedIsFinal(next, events[1..], id);
    } else {
      FinishedWasScanned(next, events[1..], id);
      var op := Run(db, events).ops[id];
      var k :| 0 <= k < |events[1..]| && events[1..][k].NoteScan?
        && events[1..][k].scan >= op.scanTicket > op.mappingGeneration;
      assert events[k + 1] == events[1..][k];
    }
  }

  ghost predicate StaysFinished(before: Db, after: Db, id: string)
    requires id in before.ops
  {
    && id in after.ops && after.ops[id].(items := []) == before.ops[id].(items := [])
    && SameMoves(before.ops[id].items, after.ops[id].items)
  }

  lemma FinishedStays(db: Db, e: Event, id: string)
    requires id in db.ops && db.ops[id].state == Finished
    ensures StaysFinished(db, Step(db, e).0, id)
  {
    match e
    case Prepare(_, _, _, _) =>
    case Commit(_) =>
    case Revert(_) =>
    case Abort(_) =>
    case Finish(_) =>
    case NoteScan(_) =>
    case RefreshPaths(_, rs) =>
      if Step(db, e).1 == Ok { RefreshKeepsMoves(db.ops[e.id].items, rs, |rs|); }
    case Other(_, _, _) =>
  }

  lemma {:induction false} FinishedIsFinal(db: Db, events: seq<Event>, id: string)
    requires id in db.ops && db.ops[id].state == Finished
    ensures StaysFinished(db, Run(db, events), id)
    decreases |events|
  {
    hide Step, SameMove;
    if events != [] {
      var next := Step(db, events[0]).0;
      FinishedStays(db, events[0], id);
      assert next.ops[id].(items := []).state == Finished;
      FinishedIsFinal(next, events[1..], id);
      SameMovesTwice(db.ops[id].items, next.ops[id].items, Run(next, events[1..]).ops[id].items);
    } else {
      SameMovesSelf(db.ops[id].items);
    }
  }

  lemma SameMovesTwice(a: seq<Item>, b: seq<Item>, c: seq<Item>)
    requires SameMoves(a, b) && SameMoves(b, c)
    ensures SameMoves(a, c)
  {
  }

  lemma SameMovesSelf(a: seq<Item>)
    ensures SameMoves(a, a)
  {
  }
}
