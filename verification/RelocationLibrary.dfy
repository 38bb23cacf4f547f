/** The relocation calls as they run: transactions over mutable tables, proved against the step functions. */
module RelocationLibrary {
  import opened Wrappers
  import opened RelocationModel

  lemma {:induction false} CheckItemsFailEarly(games: map<int, Game>, reqs: seq<Request>, n: nat, m: nat)
    requires n <= m <= |reqs| && CheckItems(games, reqs, n).Failed?
    ensures CheckItems(games, reqs, m) == CheckItems(games, reqs, n)
    decreases m
  {
    if n < m { CheckItemsFailEarly(games, reqs, n, m - 1); }
  }

  lemma {:induction false} MoveFailsEarly(games: map<int, Game>, items: seq<Item>, forward: bool, n: nat, m: nat)
    requires n <= m <= |items| && MoveGames(games, items, forward, n).None?
    ensures MoveGames(games, items, forward, m).None?
    decreases m
  {
    if n < m { MoveFailsEarly(games, items, forward, n, m - 1); }
  }

  lemma {:induction false} RefreshFailsEarly(items: seq<Item>, rs: seq<Refresh>, n: nat, m: nat)
    requires n <= m <= |rs| && RefreshItems(items, rs, n).None?
    ensures RefreshItems(items, rs, m).None?
    decreases m
  {
    if n < m { RefreshFailsEarly(items, rs, n, m - 1); }
  }

  class Library {
    var games: map<int, Game>
    var hidden: set<Hidden>
    var ops: map<string, Op>
    var generation: int
    var lastScan: int

    ghost function View(): Db
      reads this
    {
      Db(games, hidden, ops, generation, lastScan)
    }

    ghost predicate Valid()
      reads this
    {
      ValidDb(View())
    }

    constructor (rows: map<int, Game>, hiddenRows: set<Hidden>, start: int)
      requires UniqueKeys(rows) && 0 !in rows
      ensures Valid() && View() == Db(rows, hiddenRows, map[], start, 0)
    {
      games, hidden, ops, generation, lastScan := rows, hiddenRows, map[], start, 0;
    }

    method SelectGame(key: Key) returns (r: Option<int>)
      requires Valid()
      ensures r == FindGame(games, key)
    {
      if id :| id in games && games[id].place.key == key {
        return Some(id);
      }
      return None;
    }

    /** One request against the earlier ones and the table. */
    method CheckRequest(reqs: seq<Request>, i: nat) returns (r: Result<Item>)
      requires Valid() && i < |reqs|
      ensures r == CheckItem(games, reqs, i)
    {
      var q := reqs[i];
      for j := 0 to i
        invariant forall k | 0 <= k < j :: !Clash(q, reqs[k])
      {
        if Clash(q, reqs[j]) {
          return Failed(Conflict);
        }
      }
      var found := SelectGame(q.sourceKey);
      if found.None? {
        return Failed(NotFound);
      }
      var row := games[found.value].place;
      if q.imageKind != row.imageKind || q.imageRelpath != row.imageRelpath {
        return Failed(Conflict);
      }
      var at := SelectGame(q.dest.key);
      if at.Some? && at.value != 0 && at.value != found.value {
        return Failed(Conflict);
      }
      return Done(Item(found.value, Place(q.sourceKey, q.imageKind, q.imageRelpath, row.romPath, row.imagePath),
                       q.dest, q.sourceSnapshot, q.destSnapshot));
    }

    /** The loop of checks that precedes the transaction. */
    method CheckBatch(reqs: seq<Request>) returns (r: Result<seq<Item>>)
      requires Valid()
      ensures r == CheckItems(games, reqs, |reqs|)
    {
      hide CheckItem;
      var items := [];
      for i := 0 to |reqs|
        invariant CheckItems(games, reqs, i) == Done(items)
      {
        var checked := CheckRequest(reqs, i);
        if checked.Failed? {
          CheckItemsFailEarly(games, reqs, i + 1, |reqs|);
          return Failed(checked.code);
        }
        items := items + [checked.value];
      }
      return Done(items);
    }

    method Prepare(id: string, expected: int, fingerprint: string, reqs: seq<Request>) returns (code: Code)
      requires Valid()
      modifies this
      ensures Valid()
      ensures (View(), code) == PrepareStep(old(View()), id, expected, fingerprint, reqs)
    {
      if id == "" || |id| >= OPERATION_ID_MAX || |reqs| == 0 || |reqs| > MAX_ITEMS {
        return Error;
      }
      if id in ops {
        if ops[id].expectedGeneration == expected && ops[id].fingerprint == fingerprint {
          return Ok;
        }
        return Conflict;
      }
      if generation != expected {
        return Stale;
      }
      if other :| other in ops && Unfinished(ops[other]) {
        return Busy;
      }
      var checked := CheckBatch(reqs);
      if checked.Failed? {
        return checked.code;
      }
      ops := ops[id := Op(Prepared, expected, 0, 0, fingerprint, checked.value)];
      return Ok;
    }

    /** One row of the move: the game row where it is reserved, and the hidden row beside it. */
    method MoveRow(item: Item, forward: bool) returns (ok: bool)
      requires UniqueKeys(games) && 0 !in games
      modifies this`games, this`hidden
      ensures ok <==> UpdateRow(old(games), item, forward).Some?
      ensures UniqueKeys(games) && 0 !in games
      ensures ok ==> Some(games) == UpdateRow(old(games), item, forward)
      ensures ok ==> hidden == MoveHidden(old(hidden), From(item, forward).key, To(item, forward).key)
      ensures !ok ==> games == old(games) && hidden == old(hidden)
    {
      var from, to := From(item, forward), To(item, forward);
      ok := item.gameId in games && games[item.gameId].place.key == from.key
        && forall g | g in games && g != item.gameId :: games[g].place.key != to.key;
      if ok {
        games := games[item.gameId := games[item.gameId].(place := to)];
        hidden := MoveHidden(hidden, from.key, to.key);
      }
    }

    /** Commit (`forward`) and revert: one transaction, rolled back when a row is not as reserved. */
    method Move(id: string, forward: bool) returns (code: Code)
      requires Valid()
      modifies this
      ensures Valid()
      ensures (View(), code) == MoveStep(old(View()), id, forward)
    {
      if id !in ops {
        return NotFound;
      }
      var op := ops[id];
      if op.state == Target(forward) {
        return Ok;
      }
      if op.state != Origin(forward) {
        return BadState;
      }
      hide UpdateRow, MoveHidden, UniqueKeys;
      var savedGames, savedHidden := games, hidden;
      var n := 0;
      while n < |op.items|
        invariant n <= |op.items|
        invariant MoveGames(savedGames, op.items, forward, n) == Some(games)
        invariant hidden == MoveAllHidden(savedHidden, op.items, forward, n)
        invariant UniqueKeys(games) && 0 !in games
        invariant ops == old(ops) && generation == old(generation) && lastScan == old(lastScan)
      {
        var moved := MoveRow(op.items[n], forward);
        if !moved {
          MoveFailsEarly(savedGames, op.items, forward, n + 1, |op.items|);
          games, hidden := savedGames, savedHidden;
          return Error;
        }
        n := n + 1;
      }
      generation := generation + 1;
      ops := ops[id := op.(state := Target(forward), mappingGeneration := generation)];
      return Ok;
    }

    method AbortOperation(id: string) returns (code: Code)
      modifies this
      ensures (View(), code) == AbortStep(old(View()), id)
    {
      if id !in ops { return NotFound; }
      if ops[id].state == Aborted { return Ok; }
      if ops[id].state != Prepared { return BadState; }
      ops := ops[id := ops[id].(state := Aborted)];
      return Ok;
    }

    method FinishOperation(id: string) returns (code: Code)
      modifies this
      ensures (View(), code) == FinishStep(old(View()), id)
    {
      if id !in ops { return NotFound; }
      var op := ops[id];
      if op.state == Finishing || op.state == Finished { return Ok; }
      var ticket := generation + 1;
      if ticket <= op.mappingGeneration { ticket := op.mappingGeneration + 1; }
      if op.state != Committed && op.state != Reverted { return BadState; }
      ops := ops[id := op.(state := Finishing, scanTicket := ticket)];
      return Ok;
    }

    method NoteLibraryScan(scan: int) returns (code: Code)
      modifies this
      ensures (View(), code) == NoteScanStep(old(View()), scan)
    {
      if scan <= 0 { return Error; }
      lastScan := scan;
      ops := map id | id in ops ::
        if ops[id].state == Finishing && ops[id].scanTicket <= scan && ops[id].mappingGeneration < scan
        then ops[id].(state := Finished) else ops[id];
      assert ops == NoteScanStep(old(View()), scan).0.ops;
      return Ok;
    }

    method RefreshOperation(id: string, rs: seq<Refresh>) returns (code: Code)
      modifies this
      ensures (View(), code) == RefreshStep(old(View()), id, rs)
    {
      if |rs| == 0 || id !in ops { return Error; }
      var items := ops[id].items;
      for i := 0 to |rs|
        invariant RefreshItems(ops[id].items, rs, i) == Some(items)
        invariant View() == old(View())
      {
        if i >= |items| || items[i].gameId != rs[i].gameId {
          RefreshFailsEarly(ops[id].items, rs, i + 1, |rs|);
          return Error;
        }
        items := items[i := Refreshed(items[i], rs[i])];
      }
      ops := ops[id := ops[id].(items := items)];
      return Ok;
    }

    method IsGameReserved(gameId: int) returns (reserved: bool)
      ensures reserved <==> GameReserved(View(), gameId)
    {
      if gameId <= 0 { return true; }
      reserved := exists id | id in ops ::
        Holds(ops[id]) && exists i | 0 <= i < |ops[id].items| :: ops[id].items[i].gameId == gameId;
    }

    method IsKeyReserved(key: Key) returns (reserved: bool)
      ensures reserved <==> KeyReserved(View(), key)
    {
      reserved := exists id | id in ops :: Holds(ops[id]) && exists i | 0 <= i < |ops[id].items| ::
        ops[id].items[i].source.key == key || ops[id].items[i].dest.key == key;
    }
  }
}
