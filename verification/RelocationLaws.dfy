/**
 * The relocation protocol from outside: which calls succeed, what they do to the rows, and when an operation is over.
 */
module RelocationLaws {
  import opened Wrappers
  import opened RelocationModel
  import opened RelocationProofs

  // ---------------------------------------------------------------- the life of an operation

  /** Where a call takes an operation: the only changes of state there are. */
  function NextState(op: Op, id: string, e: Event): OpState {
    match op.state
    case Prepared => if e == Commit(id) then Committed else if e == Abort(id) then Aborted else Prepared
    case Committed => if e == Revert(id) then Reverted else if e == Finish(id) then Finishing else Committed
    case Reverted => if e == Finish(id) then Finishing else Reverted
    case Finishing =>
      if e.NoteScan? && e.scan > 0 && e.scan >= op.scanTicket
        && e.scan > op.mappingGeneration then Finished else Finishing
    case Finished => Finished
    case Aborted => Aborted
  }

  lemma Transition(db: Db, e: Event, id: string)
    requires Inv(db) && id in db.ops
    ensures id in Step(db, e).0.ops && Step(db, e).0.ops[id].state == NextState(db.ops[id], id, e)
  {
    hide Inv, MoveGames, MoveAllHidden, CheckItems, RefreshItems, AnyUnfinished;
    match e
    case Prepare(_, _, _, _) =>
    case Commit(other) => MoveKeepsInv(db, other, true);
    case Revert(other) => MoveKeepsInv(db, other, false);
    case Abort(_) =>
    case Finish(_) =>
    case NoteScan(_) =>
    case RefreshPaths(_, _) =>
    case Other(_, _, _) =>
  }

  /** An operation comes into being by a successful prepare and in no other way. */
  lemma NewOperation(db: Db, e: Event, id: string)
    requires id !in db.ops
    ensures id in Step(db, e).0.ops <==> e.Prepare? && e.id == id && Step(db, e).1 == Ok
    ensures id in Step(db, e).0.ops ==>
      var op := Step(db, e).0.ops[id];
      op.state == Prepared && op.expectedGeneration == e.expected
        && op.fingerprint == e.fingerprint && |op.items| == |e.reqs|
  {
    hide CheckItems, MoveGames, MoveAllHidden;
    match e
    case Prepare(_, _, _, reqs) =>
      if CheckItems(db.games, reqs, |reqs|).Done? { CheckItemsAll(db.games, reqs, |reqs|); }
    case Commit(_) =>
    case Revert(_) =>
    case Abort(_) =>
    case Finish(_) =>
    case NoteScan(_) =>
    case RefreshPaths(_, _) =>
    case Other(_, _, _) =>
  }

  /** What a call leaves of an operation as it was: everything but what its change of state or a refresh writes. */
  lemma OperationKept(db: Db, e: Event, id: string)
    requires Inv(db) && id in db.ops
    ensures id in Step(db, e).0.ops
    ensures var was, op := db.ops[id], Step(db, e).0.ops[id];
      && op.expectedGeneration == was.expectedGeneration && op.fingerprint == was.fingerprint
      && (!(e.RefreshPaths? && e.id == id) ==> op.items == was.items)
      && op.mappingGeneration == (if op.state != was.state && op.state in {Committed, Reverted} then db.generation + 1
                                  else was.mappingGeneration)
      && (op.scanTicket == was.scanTicket || (was.state in {Committed, Reverted} && op.state == Finishing))
  {
    hide Inv, MoveGames, MoveAllHidden, CheckItems, RefreshItems, AnyUnfinished;
    match e
    case Prepare(_, _, _, _) =>
    case Commit(other) => MoveKeepsInv(db, other, true);
    case Revert(other) => MoveKeepsInv(db, other, false);
    case Abort(_) =>
    case Finish(_) =>
    case NoteScan(_) =>
    case RefreshPaths(_, _) =>
    case Other(_, _, _) =>
  }

  /** A scan is noted, and beyond that only ends operations. */
  lemma ScanIsNoted(db: Db, scan: int)
    ensures var (after, code) := Step(db, NoteScan(scan));
      if scan <= 0 then code == Error && after == db
      else code == Ok && after.lastScan == scan && after.games == db.games && after.hidden == db.hidden
           && after.generation == db.generation && after.ops.Keys == db.ops.Keys
  {
  }

  /** The reply to a call depends on the state of its operation alone. */
  lemma Replies(db: Db, id: string)
    requires Inv(db)
    ensures Step(db, Commit(id)).1 ==
      if id !in db.ops then NotFound else if db.ops[id].state in {Prepared, Committed} then Ok else BadState
    ensures Step(db, Revert(id)).1 ==
      if id !in db.ops then NotFound else if db.ops[id].state in {Committed, Reverted} then Ok else BadState
    ensures Step(db, Abort(id)).1 ==
      if id !in db.ops then NotFound else if db.ops[id].state in {Prepared, Aborted} then Ok else BadState
    ensures Step(db, Finish(id)).1 ==
      if id !in db.ops then NotFound
      else if db.ops[id].state in {Committed, Reverted, Finishing, Finished} then Ok else BadState
  {
    MoveKeepsInv(db, id, true);
    MoveKeepsInv(db, id, false);
  }

  // ---------------------------------------------------------------- when an operation is over

  /** No scan among these is later than both generations. */
  predicate NoneLater(events: seq<Event>, n: int, p: int) {
    forall e | e in events && e.NoteScan? :: e.scan <= 0 || e.scan <= n || e.scan <= p
  }

  lemma {:induction false} FinishingWaits(db: Db, events: seq<Event>, id: string, n: int, p: int)
    requires id in db.ops && db.ops[id].state == Finishing && db.ops[id].mappingGeneration == p
    requires db.ops[id].scanTicket == (if n >= p then n else p) + 1 && NoneLater(events, n, p)
    ensures var now := Run(db, events);
      && id in now.ops && now.ops[id].state == Finishing && now.ops[id].mappingGeneration == p
      && now.ops[id].scanTicket == db.ops[id].scanTicket
    decreases |events|
  {
    hide Step;
    if events != [] {
      FinishingStays(db, events[0], id);
      assert events[0] in events;
      FinishingWaits(Step(db, events[0]).0, events[1..], id, n, p);
    }
  }

  lemma FinishingStays(db: Db, e: Event, id: string)
    requires id in db.ops && db.ops[id].state == Finishing
    requires e.NoteScan? ==> e.scan <= 0 || e.scan < db.ops[id].scanTicket || e.scan <= db.ops[id].mappingGeneration
    ensures var op := Step(db, e).0.ops;
      && id in op && op[id].state == Finishing
      && op[id].mappingGeneration == db.ops[id].mappingGeneration && op[id].scanTicket == db.ops[id].scanTicket
  {
    match e
    case Prepare(_, _, _, _) =>
    case Commit(_) =>
    case Revert(_) =>
    case Abort(_) =>
    case Finish(_) =>
    case NoteScan(_) =>
    case RefreshPaths(_, _) =>
    case Other(_, _, _) =>
  }

  /**
   * Once a move or its reversal is declared finished, at library generation `n`, the first scan later than both `n` and
   * the generation of the move ends the operation, whatever else happens before it; no other scan does.
   */
  lemma ScanFinishesIff(db: Db, id: string, between: seq<Event>, scan: int)
    requires id in db.ops && (db.ops[id].state == Committed || db.ops[id].state == Reverted)
    requires NoneLater(between, db.generation, db.ops[id].mappingGeneration)
    ensures var n, p := db.generation, db.ops[id].mappingGeneration;
      var now := Run(Step(db, Finish(id)).0, between);
      var after := Step(now, NoteScan(scan)).0;
      && id in now.ops && now.ops[id].state == Finishing && id in after.ops
      && after.ops[id].state == if scan > 0 && scan > n && scan > p then Finished else Finishing
  {
    hide Run, NoneLater;
    var finishing := Step(db, Finish(id)).0;
    FinishingWaits(finishing, between, id, db.generation, db.ops[id].mappingGeneration);
  }

  // ---------------------------------------------------------------- which batches are accepted

  /**
   * Item `i` of a batch fits: no earlier one has its source or destination, its row is as described, its place is free.
   */
  ghost predicate Fits(games: map<int, Game>, reqs: seq<Request>, i: nat)
    requires i < |reqs|
  {
    && (forall j | 0 <= j < i :: reqs[j].sourceKey != reqs[i].sourceKey && reqs[j].dest.key != reqs[i].dest.key)
    && exists g ::
      && g in games && games[g].place.key == reqs[i].sourceKey
      && games[g].place.imageKind == reqs[i].imageKind && games[g].place.imageRelpath == reqs[i].imageRelpath
      && forall h | h in games && games[h].place.key == reqs[i].dest.key :: h == g
  }

  /** Its source is not there, and that is the first thing wrong with it. */
  ghost predicate Missing(games: map<int, Game>, reqs: seq<Request>, i: nat)
    requires i < |reqs|
  {
    && (forall j | 0 <= j < i :: reqs[j].sourceKey != reqs[i].sourceKey && reqs[j].dest.key != reqs[i].dest.key)
    && forall g | g in games :: games[g].place.key != reqs[i].sourceKey
  }

  lemma CheckItemIff(games: map<int, Game>, reqs: seq<Request>, i: nat)
    requires UniqueKeys(games) && 0 !in games && i < |reqs|
    ensures CheckItem(games, reqs, i).Done? <==> Fits(games, reqs, i)
    ensures CheckItem(games, reqs, i) == Failed(NotFound) <==> Missing(games, reqs, i)
  {
    var q := reqs[i];
    if exists j :: 0 <= j < i && Clash(q, reqs[j]) {
      var j :| 0 <= j < i && Clash(q, reqs[j]);
      assert reqs[j].sourceKey == q.sourceKey || reqs[j].dest.key == q.dest.key;
    } else {
      forall j | 0 <= j < i ensures reqs[j].sourceKey != q.sourceKey && reqs[j].dest.key != q.dest.key {
        assert !Clash(q, reqs[j]);
      }
      CheckRow(games, q, FindGame(games, q.sourceKey), FindGame(games, q.dest.key));
    }
  }

  lemma CheckRow(games: map<int, Game>, q: Request, from: Option<int>, at: Option<int>)
    requires UniqueKeys(games) && 0 !in games && from == FindGame(games, q.sourceKey)
    requires at == FindGame(games, q.dest.key)
    ensures from.None? <==> forall g | g in games :: games[g].place.key != q.sourceKey
    ensures from.Some? ==>
      ((games[from.value].place.imageKind == q.imageKind && games[from.value].place.imageRelpath == q.imageRelpath
        && (at.None? || at.value == from.value)) <==>
       exists g ::
         && g in games && games[g].place.key == q.sourceKey
         && games[g].place.imageKind == q.imageKind && games[g].place.imageRelpath == q.imageRelpath
         && forall h | h in games && games[h].place.key == q.dest.key :: h == g)
  {
  }

  lemma {:induction false} CheckItemsIff(games: map<int, Game>, reqs: seq<Request>, n: nat)
    requires UniqueKeys(games) && 0 !in games && n <= |reqs|
    ensures CheckItems(games, reqs, n).Done? <==> forall i | 0 <= i < n :: Fits(games, reqs, i)
    ensures CheckItems(games, reqs, n) == Failed(NotFound) <==>
      exists i :: 0 <= i < n && Missing(games, reqs, i) && forall j | 0 <= j < i :: Fits(games, reqs, j)
  {
    hide CheckItem, Fits, Missing, UniqueKeys;
    if n > 0 {
      CheckItemsIff(games, reqs, n - 1);
      CheckItemIff(games, reqs, n - 1);
      NotBoth(games, reqs, n - 1);
    }
  }

  lemma NotBoth(games: map<int, Game>, reqs: seq<Request>, i: nat)
    requires i < |reqs|
    ensures !(Fits(games, reqs, i) && Missing(games, reqs, i))
  {
  }

  /** The reply to a prepare call. */
  lemma PrepareReplies(db: Db, id: string, expected: int, fingerprint: string, reqs: seq<Request>)
    requires ValidDb(db)
    ensures var code := Step(db, Prepare(id, expected, fingerprint, reqs)).1;
      && (code == Error <==> !(0 < |id| < 96 && 0 < |reqs| <= 256))
      && (code != Error ==>
            if id in db.ops
            then code == if db.ops[id].expectedGeneration == expected
              && db.ops[id].fingerprint == fingerprint then Ok else Conflict
            else if db.generation != expected then code == Stale
            else if exists other :: other in db.ops && db.ops[other].state !in {Aborted, Finished} then code == Busy
            else
              && (code == Ok <==> forall i | 0 <= i < |reqs| :: Fits(db.games, reqs, i))
              && (code == NotFound <==>
                    exists i :: 0 <= i < |reqs| && Missing(db.games, reqs, i)
                      && forall j | 0 <= j < i :: Fits(db.games, reqs, j))
              && code in {Ok, NotFound, Conflict})
  {
    hide CheckItems, Fits, Missing, UniqueKeys;
    CheckItemsIff(db.games, reqs, |reqs|);
  }

  /** When the only unfinished operation has been ended by a scan, the next prepare is not turned away as busy. */
  lemma NextIsNotBusy(db: Db, id: string, scan: int, next: string, expected: int, fingerprint: string,
                      reqs: seq<Request>)
    requires id in db.ops && db.ops[id].state == Finishing
    requires scan > 0 && scan >= db.ops[id].scanTicket && scan > db.ops[id].mappingGeneration
    requires forall other | other in db.ops && other != id :: db.ops[other].state in {Aborted, Finished}
    ensures Step(Step(db, NoteScan(scan)).0, Prepare(next, expected, fingerprint, reqs)).1 != Busy
  {
    hide CheckItems;
  }

  // ---------------------------------------------------------------- what a move does

  /** The game that stands at the source of request `i`. */
  ghost predicate MovedBy(games: map<int, Game>, reqs: seq<Request>, g: int, i: nat) {
    i < |reqs| && g in games && games[g].place.key == reqs[i].sourceKey
  }

  ghost predicate HiddenMoved(before: set<Hidden>, reqs: seq<Request>, h: Hidden) {
    || (h in before && forall i | 0 <= i < |reqs| :: reqs[i].sourceKey != h.key)
    || exists i :: 0 <= i < |reqs| && reqs[i].dest.key == h.key && Hidden(reqs[i].sourceKey, h.member) in before
  }

  /**
   * Prepare and commit: every requested game stands at its destination, all others where they were, hidden rows follow.
   */
  lemma PrepareThenCommit(db: Db, id: string, expected: int, fingerprint: string, reqs: seq<Request>)
    requires ValidDb(db) && id !in db.ops
    requires Step(db, Prepare(id, expected, fingerprint, reqs)).1 == Ok
    ensures var prepared := Step(db, Prepare(id, expected, fingerprint, reqs)).0;
      var (after, code) := Step(prepared, Commit(id));
      && prepared.games == db.games && prepared.hidden == db.hidden && prepared.generation == db.generation
      && code == Ok && after.games.Keys == db.games.Keys
      && (forall g, i: nat | MovedBy(db.games, reqs, g, i) :: after.games[g] == db.games[g].(place := reqs[i].dest))
      && (forall g | g in db.games
        && (forall i: nat :: !MovedBy(db.games, reqs, g, i)) :: after.games[g] == db.games[g])
      && (forall h :: h in after.hidden <==> HiddenMoved(db.hidden, reqs, h))
      && after.generation == db.generation + 1 && after.ops[id].mappingGeneration == db.generation + 1
  {
    hide MoveGames, MoveAllHidden, CheckItems, Ready, Independent, Relocated, HiddenAfter, UniqueKeys;
    var items := CheckItems(db.games, reqs, |reqs|).value;
    PrepareChecks(db.games, reqs);
    ItemsOf(db.games, reqs);
    MoveAlwaysSucceeds(db.games, items, true, |items|);
    var games := MoveGames(db.games, items, true, |items|).value;
    KeysStay(db.games, games, items);
    forall g, i: nat | MovedBy(db.games, reqs, g, i)
      ensures g in games && games[g] == db.games[g].(place := reqs[i].dest)
    {
      ItemRelocated(db.games, games, reqs, items, g, i);
    }
    forall g | g in db.games && forall i: nat ::
      !MovedBy(db.games, reqs, g, i) ensures g in games && games[g] == db.games[g] {
      OthersStay(db.games, games, reqs, items, g);
    }
    forall h ensures h in MoveAllHidden(db.hidden, items, true, |items|) <==> HiddenMoved(db.hidden, reqs, h) {
      MoveAllHiddenMembers(db.hidden, items, true, |items|, h);
      HiddenMovedIff(db.hidden, reqs, items, h);
    }
  }

  /** What prepare records of each request. */
  ghost predicate Records(games: map<int, Game>, reqs: seq<Request>, items: seq<Item>) {
    && |items| == |reqs|
    && forall i | 0 <= i < |reqs| ::
      && items[i].gameId in games && games[items[i].gameId].place.key == reqs[i].sourceKey
      && items[i].source.key == reqs[i].sourceKey && items[i].dest == reqs[i].dest
  }

  lemma ItemsOf(games: map<int, Game>, reqs: seq<Request>)
    requires CheckItems(games, reqs, |reqs|).Done?
    ensures Records(games, reqs, CheckItems(games, reqs, |reqs|).value)
  {
    CheckItemsAll(games, reqs, |reqs|);
    var items := CheckItems(games, reqs, |reqs|).value;
    forall i | 0 <= i < |reqs|
      ensures items[i].gameId in games && games[items[i].gameId].place.key == reqs[i].sourceKey
      ensures items[i].source.key == reqs[i].sourceKey && items[i].dest == reqs[i].dest
    {
      assert CheckItem(games, reqs, i) == Done(items[i]);
    }
  }

  lemma ItemRelocated(games: map<int, Game>, after: map<int, Game>, reqs: seq<Request>, items: seq<Item>, g: int,
                      i: nat)
    requires UniqueKeys(games) && Records(games, reqs, items) && Relocated(games, after, items, true, |items|)
    requires MovedBy(games, reqs, g, i)
    ensures g in after && after[g] == games[g].(place := reqs[i].dest)
  {
    assert items[i].gameId == g;
  }

  lemma OthersStay(games: map<int, Game>, after: map<int, Game>, reqs: seq<Request>, items: seq<Item>, g: int)
    requires Records(games, reqs, items) && Relocated(games, after, items, true, |items|)
    requires g in games && forall i: nat :: !MovedBy(games, reqs, g, i)
    ensures g in after && after[g] == games[g]
  {
    forall i | 0 <= i < |items| ensures items[i].gameId != g {
      assert !MovedBy(games, reqs, g, i);
    }
  }

  lemma KeysStay(games: map<int, Game>, after: map<int, Game>, items: seq<Item>)
    requires Relocated(games, after, items, true, |items|)
    ensures after.Keys == games.Keys
  {
  }

  lemma HiddenMovedIff(before: set<Hidden>, reqs: seq<Request>, items: seq<Item>, h: Hidden)
    requires |items| == |reqs|
    requires forall i | 0 <= i < |reqs| :: items[i].source.key == reqs[i].sourceKey && items[i].dest == reqs[i].dest
    ensures HiddenAfter(before, h, items, true, |items|) <==> HiddenMoved(before, reqs, h)
  {
  }

  // ---------------------------------------------------------------- refreshed paths

  lemma {:induction false} RefreshedItems(items: seq<Item>, rs: seq<Refresh>, n: nat)
    requires n <= |rs|
    ensures RefreshItems(items, rs, n).Some? <==>
      n <= |items| && forall i | 0 <= i < n :: items[i].gameId == rs[i].gameId
    ensures RefreshItems(items, rs, n).Some? ==>
      forall i | 0 <= i < |items| ::
        RefreshItems(items, rs, n).value[i] == if i < n then Refreshed(items[i], rs[i]) else items[i]
  {
    hide Refreshed;
    if n > 0 { RefreshedItems(items, rs, n - 1); }
  }

  /** The item with the paths and snapshots of the refresh, and everything else as it was. */
  ghost predicate Updated(before: Item, r: Refresh, after: Item) {
    && after.gameId == before.gameId && after.source.key == before.source.key && after.dest.key == before.dest.key
    && after.source.imageKind == before.source.imageKind && after.source.imageRelpath == before.source.imageRelpath
    && after.dest.imageKind == before.dest.imageKind && after.dest.imageRelpath == before.dest.imageRelpath
    && after.source.romPath == r.sourceRomPath && after.source.imagePath == r.sourceImagePath
    && after.dest.romPath == r.destRomPath && after.dest.imagePath == r.destImagePath
    && after.sourceSnapshot == r.sourceSnapshot && after.destSnapshot == r.destSnapshot
  }

  /** A refresh is accepted exactly when it names the first items in their order; it updates these and nothing else. */
  lemma RefreshReplies(db: Db, id: string, rs: seq<Refresh>)
    ensures var (after, code) := Step(db, RefreshPaths(id, rs));
      && (code == Ok <==> id in db.ops && 0 < |rs| <= |db.ops[id].items|
                          && forall i | 0 <= i < |rs| :: db.ops[id].items[i].gameId == rs[i].gameId)
      && (code != Ok ==> code == Error && after == db)
      && (code == Ok ==>
            && after == db.(ops := after.ops) && after.ops == db.ops[id := db.ops[id].(items := after.ops[id].items)]
            && |after.ops[id].items| == |db.ops[id].items|
            && (forall i | 0 <= i < |rs| :: Updated(db.ops[id].items[i], rs[i], after.ops[id].items[i]))
            && (forall i | |rs| <= i < |db.ops[id].items| :: after.ops[id].items[i] == db.ops[id].items[i]))
  {
    hide RefreshItems;
    if id in db.ops {
      RefreshedItems(db.ops[id].items, rs, |rs|);
    }
  }

  /** A commit writes what the items say of the destination, refreshed or not; a revert what they say of the source. */
  lemma MoveWritesItems(db: Db, id: string, forward: bool, i: nat)
    requires Inv(db) && id in db.ops && i < |db.ops[id].items|
    requires db.ops[id].state == if forward then Prepared else Committed
    ensures var after := Step(db, if forward then Commit(id) else Revert(id)).0;
      var item := db.ops[id].items[i];
      && item.gameId in db.games && item.gameId in after.games
      && after.games[item.gameId] == db.games[item.gameId].(place := if forward then item.dest else item.source)
  {
    hide MoveGames, MoveAllHidden;
    var items := db.ops[id].items;
    assert OpInv(db.games, db.ops[id]);
    MoveAlwaysSucceeds(db.games, items, forward, |items|);
  }

  // ---------------------------------------------------------------- reservations

  /** What an operation holds is reserved from prepare to finish or abort, and nothing else is. */
  lemma ReservedWhileHeld(db: Db, key: Key, gameId: int)
    requires gameId > 0
    ensures KeyReserved(db, key) <==>
      exists id, i ::
        && id in db.ops && db.ops[id].state !in {Finishing, Finished, Aborted} && 0 <= i < |db.ops[id].items|
        && key in {db.ops[id].items[i].source.key, db.ops[id].items[i].dest.key}
    ensures GameReserved(db, gameId) <==>
      exists id, i ::
        && id in db.ops && db.ops[id].state !in {Finishing, Finished, Aborted} && 0 <= i < |db.ops[id].items|
        && db.ops[id].items[i].gameId == gameId
  {
  }
}
