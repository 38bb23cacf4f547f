/** The library database as the relocation code sees it, and every relocation call as a step on it. */
module RelocationModel {
  import opened Wrappers

  /** The UNIQUE (source_id, rom_relpath) locator of a game. */
  datatype Key = Key(sourceId: string, romRelpath: string)

  /** The six columns a move rewrites. SQL NULL and '' are one value. */
  datatype Place = Place(key: Key, imageKind: string, imageRelpath: string, romPath: string, imagePath: string)

  /** `rest` stands for the columns no relocation call touches. */
  datatype Game = Game(place: Place, rest: string)

  /** One library_relocation_items row. */
  datatype Item = Item(gameId: int, source: Place, dest: Place, sourceSnapshot: string, destSnapshot: string)

  /** What a caller passes to prepare for one item; paths of the source row are read from the table. */
  datatype Request = Request(sourceKey: Key, imageKind: string, imageRelpath: string, dest: Place,
                             sourceSnapshot: string, destSnapshot: string)

  /** What a caller passes to refresh for one item. */
  datatype Refresh = Refresh(gameId: int, sourceRomPath: string, sourceImagePath: string,
                             destRomPath: string, destImagePath: string,
                             sourceSnapshot: string, destSnapshot: string)

  datatype OpState = Prepared | Committed | Reverted | Finishing | Finished | Aborted

  datatype Op = Op(state: OpState, expectedGeneration: int, mappingGeneration: int, scanTicket: int,
                   fingerprint: string, items: seq<Item>)

  /** One hidden_roms row; all its columns are its primary key. */
  datatype Hidden = Hidden(key: Key, member: string)

  datatype Db = Db(games: map<int, Game>, hidden: set<Hidden>, ops: map<string, Op>, generation: int, lastScan: int)

  datatype Code = Ok | Error | NotFound | Conflict | Stale | Busy | BadState

  datatype Result<+T> = Done(value: T) | Failed(code: Code)

  const OPERATION_ID_MAX := 96
  const MAX_ITEMS := 256

  /** The table's UNIQUE constraint. */
  ghost predicate UniqueKeys(games: map<int, Game>) {
    forall a, b | a in games && b in games && games[a].place.key == games[b].place.key :: a == b
  }

  ghost predicate ValidDb(db: Db) {
    UniqueKeys(db.games) && 0 !in db.games
  }

  ghost predicate KeyTaken(games: map<int, Game>, key: Key) {
    exists id :: id in games && games[id].place.key == key
  }

  /** SELECT id FROM games WHERE source_id=? AND rom_relpath=? */
  ghost function FindGame(games: map<int, Game>, key: Key): (r: Option<int>)
    ensures r.Some? <==> KeyTaken(games, key)
    ensures r.Some? ==> r.value in games && games[r.value].place.key == key
  {
    if KeyTaken(games, key) then
      var id :| id in games && games[id].place.key == key;
      Some(id)
    else None
  }

  // ---------------------------------------------------------------- prepare

  predicate Clash(a: Request, b: Request) {
    a.sourceKey == b.sourceKey || a.dest.key == b.dest.key
  }

  /** The checks of one prepare item against the earlier ones and the table. */
  ghost function CheckItem(games: map<int, Game>, reqs: seq<Request>, i: nat): (r: Result<Item>)
    requires i < |reqs|
    ensures r.Failed? ==> r.code == Conflict || r.code == NotFound
  {
    var q := reqs[i];
    if exists j :: 0 <= j < i && Clash(q, reqs[j]) then Failed(Conflict)
    else
      match FindGame(games, q.sourceKey)
      case None => Failed(NotFound)
      case Some(id) =>
        var row := games[id].place;
        if q.imageKind != row.imageKind || q.imageRelpath != row.imageRelpath then Failed(Conflict)
        else
          var at := FindGame(games, q.dest.key);
          if at.Some? && at.value != 0 && at.value != id then Failed(Conflict)
          else Done(Item(id, Place(q.sourceKey, q.imageKind, q.imageRelpath, row.romPath, row.imagePath), q.dest,
                         q.sourceSnapshot, q.destSnapshot))
  }

  ghost function CheckItems(games: map<int, Game>, reqs: seq<Request>, n: nat): (r: Result<seq<Item>>)
    requires n <= |reqs|
    ensures r.Failed? ==> r.code == Conflict || r.code == NotFound
  {
    if n == 0 then Done([])
    else
      var earlier := CheckItems(games, reqs, n - 1);
      if earlier.Failed? then earlier
      else
        var last := CheckItem(games, reqs, n - 1);
        if last.Failed? then Failed(last.code) else Done(earlier.value + [last.value])
  }

  /** prepare refuses while any operation is outside 'aborted' and 'finished'. */
  predicate Unfinished(op: Op) {
    op.state != Aborted && op.state != Finished
  }

  ghost predicate AnyUnfinished(ops: map<string, Op>) {
    exists id :: id in ops && Unfinished(ops[id])
  }

  ghost function PrepareStep(db: Db, id: string, expected: int, fingerprint: string, reqs: seq<Request>): (Db, Code) {
    if id == "" || |id| >= OPERATION_ID_MAX || |reqs| == 0 || |reqs| > MAX_ITEMS then (db, Error)
    else if id in db.ops then
      if db.ops[id].expectedGeneration == expected && db.ops[id].fingerprint == fingerprint then (db, Ok)
      else (db, Conflict)
    else if db.generation != expected then (db, Stale)
    else if AnyUnfinished(db.ops) then (db, Busy)
    else
      match CheckItems(db.games, reqs, |reqs|)
      case Failed(code) => (db, code)
      case Done(items) => (db.(ops := db.ops[id := Op(Prepared, expected, 0, 0, fingerprint, items)]), Ok)
  }

  // ---------------------------------------------------------------- commit and revert

  function From(item: Item, forward: bool): Place { if forward then item.source else item.dest }

  function To(item: Item, forward: bool): Place { if forward then item.dest else item.source }

  /** UPDATE games ... WHERE id=? AND source_id=? AND rom_relpath=?, failing on no row or on the UNIQUE constraint. */
  ghost function UpdateRow(games: map<int, Game>, item: Item, forward: bool): Option<map<int, Game>> {
    var id := item.gameId;
    if id in games && games[id].place.key == From(item, forward).key
       && (forall g | g in games && g != id :: games[g].place.key != To(item, forward).key)
    then Some(games[id := games[id].(place := To(item, forward))])
    else None
  }

  /** UPDATE OR REPLACE hidden_roms: every member row of the locator follows it. */
  function MoveHidden(hidden: set<Hidden>, from: Key, to: Key): set<Hidden> {
    (set h | h in hidden && h.key != from) + (set h | h in hidden && h.key == from :: Hidden(to, h.member))
  }

  /** The first `n` items moved in ordinal order; None is the "reserved game row changed" exit. */
  ghost function MoveGames(games: map<int, Game>, items: seq<Item>, forward: bool, n: nat): Option<map<int, Game>>
    requires n <= |items|
  {
    if n == 0 then Some(games)
    else
      match MoveGames(games, items, forward, n - 1)
      case None => None
      case Some(g) => UpdateRow(g, items[n - 1], forward)
  }

  function MoveAllHidden(hidden: set<Hidden>, items: seq<Item>, forward: bool, n: nat): set<Hidden>
    requires n <= |items|
  {
    if n == 0 then hidden
    else MoveHidden(MoveAllHidden(hidden, items, forward, n - 1),
                    From(items[n - 1], forward).key, To(items[n - 1], forward).key)
  }

  function Target(forward: bool): OpState { if forward then Committed else Reverted }

  function Origin(forward: bool): OpState { if forward then Prepared else Committed }

  ghost function MoveStep(db: Db, id: string, forward: bool): (Db, Code) {
    if id !in db.ops then (db, NotFound)
    else
      var op := db.ops[id];
      if op.state == Target(forward) then (db, Ok)
      else if op.state != Origin(forward) then (db, BadState)
      else
        match MoveGames(db.games, op.items, forward, |op.items|)
        case None => (db, Error)
        case Some(g) =>
          (Db(g, MoveAllHidden(db.hidden, op.items, forward, |op.items|),
              db.ops[id := op.(state := Target(forward), mappingGeneration := db.generation + 1)],
              db.generation + 1, db.lastScan), Ok)
  }

  // ---------------------------------------------------------------- abort, finish, scan, refresh

  function AbortStep(db: Db, id: string): (Db, Code) {
    if id !in db.ops then (db, NotFound)
    else if db.ops[id].state == Aborted then (db, Ok)
    else if db.ops[id].state != Prepared then (db, BadState)
    else (db.(ops := db.ops[id := db.ops[id].(state := Aborted)]), Ok)
  }

  function Ticket(generation: int, mapping: int): int {
    if generation + 1 <= mapping then mapping + 1 else generation + 1
  }

  function FinishStep(db: Db, id: string): (Db, Code) {
    if id !in db.ops then (db, NotFound)
    else
      var op := db.ops[id];
      if op.state == Finishing || op.state == Finished then (db, Ok)
      else if op.state != Committed && op.state != Reverted then (db, BadState)
      else (db.(ops := db.ops[id :=
        op.(state := Finishing, scanTicket := Ticket(db.generation, op.mappingGeneration))]), Ok)
  }

  function Scanned(op: Op, generation: int): Op {
    if op.state == Finishing && op.scanTicket <= generation && op.mappingGeneration < generation
    then op.(state := Finished) else op
  }

  function NoteScanStep(db: Db, generation: int): (Db, Code) {
    if generation <= 0 then (db, Error)
    else (db.(ops := map id | id in db.ops :: Scanned(db.ops[id], generation), lastScan := generation), Ok)
  }

  function Refreshed(item: Item, r: Refresh): Item {
    item.(source := item.source.(romPath := r.sourceRomPath, imagePath := r.sourceImagePath),
          dest := item.dest.(romPath := r.destRomPath, imagePath := r.destImagePath),
          sourceSnapshot := r.sourceSnapshot, destSnapshot := r.destSnapshot)
  }

  function RefreshItems(items: seq<Item>, rs: seq<Refresh>, n: nat): (r: Option<seq<Item>>)
    requires n <= |rs|
    ensures r.Some? ==> |r.value| == |items|
  {
    if n == 0 then Some(items)
    else
      var earlier := RefreshItems(items, rs, n - 1);
      if earlier.None? then None
      else if n - 1 < |items| && earlier.value[n - 1].gameId == rs[n - 1].gameId
      then Some(earlier.value[n - 1 := Refreshed(earlier.value[n - 1], rs[n - 1])])
      else None
  }

  function RefreshStep(db: Db, id: string, rs: seq<Refresh>): (Db, Code) {
    if |rs| == 0 || id !in db.ops then (db, Error)
    else
      match RefreshItems(db.ops[id].items, rs, |rs|)
      case None => (db, Error)
      case Some(items) => (db.(ops := db.ops[id := db.ops[id].(items := items)]), Ok)
  }

  // ---------------------------------------------------------------- reservations and runs

  /** The states in which an operation reserves its rows and locators. */
  predicate Holds(op: Op) {
    op.state == Prepared || op.state == Committed || op.state == Reverted
  }

  ghost predicate GameReserved(db: Db, gameId: int) {
    gameId <= 0 ||
    exists id, i :: id in db.ops && Holds(db.ops[id]) && 0 <= i < |db.ops[id].items|
                    && db.ops[id].items[i].gameId == gameId
  }

  ghost predicate KeyReserved(db: Db, key: Key) {
    exists id, i :: id in db.ops && Holds(db.ops[id]) && 0 <= i < |db.ops[id].items|
                    && (db.ops[id].items[i].source.key == key || db.ops[id].items[i].dest.key == key)
  }

  /** Every call, and `Other`: whatever scans, deletions and settings do between calls. */
  datatype Event =
    | Prepare(id: string, expected: int, fingerprint: string, reqs: seq<Request>)
    | Commit(id: string)
    | Revert(id: string)
    | Abort(id: string)
    | Finish(id: string)
    | NoteScan(scan: int)
    | RefreshPaths(id: string, rs: seq<Refresh>)
    | Other(games: map<int, Game>, hidden: set<Hidden>, generation: int)

  ghost function Step(db: Db, e: Event): (Db, Code) {
    match e
    case Prepare(id, expected, fingerprint, reqs) => PrepareStep(db, id, expected, fingerprint, reqs)
    case Commit(id) => MoveStep(db, id, true)
    case Revert(id) => MoveStep(db, id, false)
    case Abort(id) => AbortStep(db, id)
    case Finish(id) => FinishStep(db, id)
    case NoteScan(scan) => NoteScanStep(db, scan)
    case RefreshPaths(id, rs) => RefreshStep(db, id, rs)
    case Other(games, hidden, generation) => (db.(games := games, hidden := hidden, generation := generation), Ok)
  }

  /** Another writer keeps the table valid and leaves reserved ids and locators alone. */
  ghost predicate Respects(db: Db, games: map<int, Game>) {
    && UniqueKeys(games) && 0 !in games
    && (forall id | id in db.games && GameReserved(db, id) :: id in games && games[id].place == db.games[id].place)
    && (forall id | id in games && KeyReserved(db, games[id].place.key) ::
          id in db.games && db.games[id].place.key == games[id].place.key)
  }

  ghost predicate Admissible(db: Db, e: Event) {
    e.Other? ==> Respects(db, e.games)
  }

  ghost function Run(db: Db, events: seq<Event>): Db
    decreases |events|
  {
    if events == [] then db else Run(Step(db, events[0]).0, events[1..])
  }

  ghost predicate AdmissibleRun(db: Db, events: seq<Event>)
    decreases |events|
  {
    events == [] || (Admissible(db, events[0]) && AdmissibleRun(Step(db, events[0]).0, events[1..]))
  }
}
