/** The producer: `jw_catalog_refresh_with_contributors` as a sequence of filesystem calls, any of which may fail. */
module PublicationStore {
  import opened Wrappers
  import opened CStrings
  import opened Sorting
  import opened TreeFraming
  import opened JsonEmitter
  import opened PublicationModel
  import opened InfoOverlay

  /** The merged documents, and the rows of the cores document as they bear on info files. */
  datatype Merged = Merged(systems: string, cores: string, rows: seq<CoreInfo>)

  /** Everything one refresh reads, fixed while it runs. `None` stands for a step that failed. */
  datatype Inputs = Inputs(
    releaseId: Option<string>,
    pathsFit: bool,
    systems: Option<string>,
    cores: Option<string>,
    info: Tree,
    contributed: bool,
    merged: Option<Merged>,
    paks: seq<Pak>,
    files: map<string, string>,
    fingerprints: Option<seq<ContributorStamp>>,
    // What another producer has put under the needed name by the time this one tries to.
    rival: Option<Dir>)

  datatype Outcome =
    | Published(name: string)
    | Reused(name: string)
    /** Return code 1: readers run on the release defaults. */
    | Fallback(reason: string)
    /** Return code -1. */
    | Failed

  predicate Done(o: Outcome) {
    o.Published? || o.Reused?
  }

  /** What the generation is to hold. */
  datatype Compiled = Compiled(systems: string, cores: string, info: Tree, stamp: Stamp)

  /** The merged info directory, if every file it needs is there. */
  function MergedInfo(inputs: Inputs): Option<Tree> {
    if inputs.merged.None? then None else Overlay(inputs.info, inputs.merged.value.rows, inputs.paks, inputs.files)
  }

  ghost function HashesOf(hash: string -> string, systems: string, cores: string, info: Tree): Hashes {
    Hashes(hash(systems), hash(cores), hash(Stream(info)))
  }

  /** The result a refresh works towards, a function of its inputs alone. */
  ghost predicate CompilesTo(hash: string -> string, platform: string, inputs: Inputs, c: Compiled) {
    && inputs.releaseId.Some? && inputs.systems.Some? && inputs.cores.Some? && inputs.fingerprints.Some?
    && (inputs.contributed ==> inputs.merged.Some? && MergedInfo(inputs).Some?)
    && (if inputs.contributed
        then c.systems == inputs.merged.value.systems && c.cores == inputs.merged.value.cores
             && c.info == MergedInfo(inputs).value
        else c.systems == inputs.systems.value && c.cores == inputs.cores.value && c.info == inputs.info)
    && c.stamp == Stamp(platform, inputs.releaseId.value,
                        HashesOf(hash, inputs.systems.value, inputs.cores.value, inputs.info),
                        HashesOf(hash, c.systems, c.cores, c.info), inputs.fingerprints.value)
  }

  /** Strings come from C strings. */
  ghost predicate CleanInputs(platform: string, inputs: Inputs) {
    && NulFree(platform) && (inputs.releaseId.Some? ==> NulFree(inputs.releaseId.value))
    && (inputs.fingerprints.Some? ==>
      forall i | 0 <= i < |inputs.fingerprints.value| :: CleanContributor(inputs.fingerprints.value[i]))
  }

  ghost predicate HexHash(hash: string -> string) {
    forall s :: Hex64(hash(s))
  }

  lemma HexIsClean(s: string)
    requires Hex64(s)
    ensures NulFree(s) && GenName("gen-" + s)
  {
    assert ("gen-" + s)[4..] == s;
    forall i | 0 <= i < |s| ensures s[i] as int != 0 { assert HexDigit(s[i]); }
  }

  lemma StampIsClean(hash: string -> string, platform: string, inputs: Inputs, c: Compiled)
    requires HexHash(hash) && CleanInputs(platform, inputs) && CompilesTo(hash, platform, inputs, c)
    ensures CleanStamp(c.stamp)
  {
    forall s ensures NulFree(hash(s)) { HexIsClean(hash(s)); }
  }

  ghost function NameOf(hash: string -> string, t: Stamp): string {
    "gen-" + hash(StampBytes(t))
  }

  /** A directory that is not a generation. */
  predicate Temporary(name: string) {
    |name| >= 4 && name[..4] == "tmp-"
  }

  lemma TemporaryIff(name: string)
    ensures Temporary(name) <==> "tmp-" <= name
  {
  }

  lemma TemporaryIsNoGen(name: string)
    requires Temporary(name)
    ensures !GenName(name)
  {
    assert name[..4][0] == 't' && "gen-"[0] == 'g';
  }

  /** The two states differ at most in directory `name`, and in nothing else. */
  ghost predicate OnlyDir(d: Disk, e: Disk, name: string) {
    && e.selector == d.selector && e.selectorTmp == d.selectorTmp && e.diagnostics == d.diagnostics
    && e.dirs - {name} == d.dirs - {name}
  }

  /** The generations are untouched and so is the selector. */
  ghost predicate Aside(d: Disk, e: Disk) {
    e.selector == d.selector && forall name | GenName(name) ::
      (name in d.dirs <==> name in e.dirs) && (name in d.dirs ==> d.dirs[name] == e.dirs[name])
  }

  lemma OnlyDirAside(d: Disk, e: Disk, name: string)
    requires Temporary(name) && OnlyDir(d, e, name)
    ensures Aside(d, e)
  {
    TemporaryIsNoGen(name);
    forall g | GenName(g) ensures (g in d.dirs <==> g in e.dirs) && (g in d.dirs ==> d.dirs[g] == e.dirs[g]) {
      assert g in d.dirs - {name} <==> g in e.dirs - {name};
      if g in d.dirs { assert (d.dirs - {name})[g] == (e.dirs - {name})[g]; }
    }
  }

  lemma AsideIsSound(hash: string -> string, d: Disk, e: Disk)
    requires Wholesome(hash, d) && Aside(d, e)
    ensures Wholesome(hash, e) && Persists(d, e)
  {
    hide Genuine, GenName;
  }

  /** A stretch of history in which the selector rests and no generation comes or goes, from state `d` to state `e`. */
  ghost predicate Calm(before: seq<Disk>, d: Disk, after: seq<Disk>, e: Disk) {
    before <= after && Aside(d, e) && forall i | |before| <= i < |after| :: Aside(d, after[i])
  }

  lemma AsideTwice(d: Disk, e: Disk, f: Disk)
    requires Aside(d, e) && Aside(e, f)
    ensures Aside(d, f)
  {
    hide GenName;
  }

  lemma CalmTwice(a: seq<Disk>, d: Disk, b: seq<Disk>, e: Disk, c: seq<Disk>, f: Disk)
    requires Calm(a, d, b, e) && Calm(b, e, c, f)
    ensures Calm(a, d, c, f)
  {
    hide Aside;
    AsideTwice(d, e, f);
    forall i | |a| <= i < |c| ensures Aside(d, c[i]) {
      if i < |b| { assert c[i] == b[i]; } else { AsideTwice(d, e, c[i]); }
    }
  }

  lemma CalmNone(a: seq<Disk>, d: Disk)
    ensures Calm(a, d, a, d)
  {
  }

  lemma OnlyDirTwice(d: Disk, e: Disk, f: Disk, name: string)
    requires OnlyDir(d, e, name) && OnlyDir(e, f, name)
    ensures OnlyDir(d, f, name)
  {
  }

  /** A directory that is made and removed again leaves the others. */
  lemma BackToBefore(before: Disk, made: Disk, after: Disk, name: string)
    requires name !in before.dirs && name !in after.dirs && OnlyDir(made, after, name)
    requires made.dirs == before.dirs[name := EMPTY_DIR]
    ensures after.dirs == before.dirs
  {
    assert after.dirs - {name} == after.dirs && made.dirs - {name} == before.dirs;
  }

  function WithPart(dir: Dir, part: Part, data: string): Dir
    requires part != Info
  {
    match part
    case Systems => dir.(systems := Some(data))
    case Cores => dir.(cores := Some(data))
    case StampFile => dir.(stamp := Some(data))
  }

  /** A stretch of history without a selector, in which no generation comes or goes. */
  ghost predicate Dark(before: seq<Disk>, after: seq<Disk>, d: Disk) {
    before <= after && forall i | |before| <= i < |after| ::
      after[i].selector.None? && Aside(d.(selector := None), after[i])
  }

  /** No temporary name is left to try. */
  ghost predicate Exhausted(dirs: map<string, Dir>, prefix: string) {
    forall n | 0 <= n < 64 :: prefix + Decimal(n) in dirs
  }

  /** Nothing in the inputs stands in the way. */
  ghost predicate Compilable(inputs: Inputs) {
    && inputs.releaseId.Some? && inputs.pathsFit && inputs.systems.Some? && inputs.cores.Some? && Hashable(inputs.info)
    && (inputs.contributed ==> MergedInfo(inputs).Some? && Hashable(MergedInfo(inputs).value))
    && inputs.fingerprints.Some?
  }

  /** The selector does not change over these states. */
  ghost predicate Held(before: seq<Disk>, after: seq<Disk>, selector: Option<string>) {
    before <= after && forall i | |before| <= i < |after| :: after[i].selector == selector
  }

  lemma CalmHeld(before: seq<Disk>, d: Disk, after: seq<Disk>, e: Disk)
    requires Calm(before, d, after, e)
    ensures Held(before, after, d.selector) && e.selector == d.selector
  {
    hide GenName;
  }

  lemma CalmNoneAppears(before: seq<Disk>, d: Disk, after: seq<Disk>, e: Disk)
    requires Calm(before, d, after, e)
    ensures NoneAppears(d, after[|before|..])
  {
    hide GenName;
  }

  lemma CalmSameNames(before: seq<Disk>, d: Disk, after: seq<Disk>, e: Disk, name: string)
    requires Calm(before, d, after, e) && GenName(name)
    ensures name in d.dirs <==> name in e.dirs
  {
    hide GenName;
  }

  lemma DarkHeld(before: seq<Disk>, after: seq<Disk>, d: Disk)
    requires Dark(before, after, d)
    ensures Held(before, after, None)
  {
  }

  lemma OnlyDirOthers(d: Disk, e: Disk, name: string)
    requires OnlyDir(d, e, name)
    ensures forall other | other != name ::
      (other in d.dirs <==> other in e.dirs) && (other in d.dirs ==> d.dirs[other] == e.dirs[other])
  {
    forall other | other != name
      ensures (other in d.dirs <==> other in e.dirs) && (other in d.dirs ==> d.dirs[other] == e.dirs[other])
    {
      assert other in d.dirs - {name} <==> other in e.dirs - {name};
      if other in d.dirs { assert (d.dirs - {name})[other] == (e.dirs - {name})[other]; }
    }
  }

  /** A timeline that begins without a selector, after a gap has been opened. */
  lemma DarkTimeline(t0: seq<Disk>, t1: seq<Disk>, t2: seq<Disk>, t3: seq<Disk>, k: nat, m: nat, found: Option<string>,
                     name: string)
    requires Held(t0, t1, found) && Held(t1, t2, None) && Timeline(t2, t3, k, m, None, name)
    ensures Timeline(t0, t3, |t1|, m, found, name)
  {
  }

  lemma NameIsGeneration(hash: string -> string, t: Stamp)
    requires HexHash(hash)
    ensures GenName(NameOf(hash, t))
  {
    hide GenName, StampBytes;
    HexIsClean(hash(StampBytes(t)));
  }

  /** Other producers, too, only ever put whole generations in place. */
  ghost predicate RivalIsWhole(hash: string -> string, platform: string, inputs: Inputs) {
    forall c | CompilesTo(hash, platform, inputs, c) && inputs.rival.Some? ::
      Genuine(hash, NameOf(hash, c.stamp), inputs.rival.value)
  }

  /**
   * What the caller is handed: the directory is there and is the one these inputs compile to. Only when another
   * producer was faster may it be one whose different stamp has the same digest.
   */
  ghost predicate Holds(hash: string -> string, d: Disk, o: Outcome, c: Compiled, rival: Option<Dir>) {
    && Done(o) && o.name == NameOf(hash, c.stamp) && o.name in d.dirs
    && (Stamped(hash, o.name, d.dirs[o.name], c.stamp)
      || (o.Published? && rival.Some? && Clashes(hash, o.name, d.dirs[o.name], c.stamp)))
    && (o.Published? ==>
          d.dirs[o.name] == if rival.Some? then rival.value
                            else Dir(Some(c.systems), Some(c.cores), Some(c.info), Some(StampBytes(c.stamp))))
  }

  /** The selector names a generation other than `name`. */
  ghost predicate Misnamed(d: Disk, name: string) {
    Readable(d.selector).Some? && ParseSelector(d.selector.value).Some? && ParseSelector(d.selector.value).value != name
  }

  /** Why a directory of the right name is not reused: a stamp too large to be read, or another with this digest. */
  ghost predicate Unreusable(hash: string -> string, name: string, dir: Dir, t: Stamp) {
    |StampBytes(t)| > MAX_FILE_BYTES || Clashes(hash, name, dir, t)
  }

  /** The directory bears another stamp, whose bytes have the same digest. */
  ghost predicate Clashes(hash: string -> string, name: string, dir: Dir, t: Stamp) {
    exists u :: Stamped(hash, name, dir, u) && Collide(hash, StampBytes(u), StampBytes(t))
  }

  ghost predicate Collide(hash: string -> string, a: string, b: string) {
    a != b && hash(a) == hash(b)
  }

  /** The directory these inputs need is there and has to be refused. */
  ghost predicate Blocked(hash: string -> string, d: Disk, t: Stamp) {
    var name := NameOf(hash, t);
    name in d.dirs && Unreusable(hash, name, d.dirs[name], t)
  }

  /** The comparison in place finds exactly the directories that bear this very stamp, if it can be read back. */
  lemma ReuseOrConflict(hash: string -> string, d: Disk, name: string, t: Stamp, identical: bool)
    requires Wholesome(hash, d) && name in d.dirs && GenName(name) && name == NameOf(hash, t) && CleanStamp(t)
    requires identical <==>
      && StampText(d, name) == Some(StampBytes(t))
      && HasPart(d, name, Systems) && HasPart(d, name, Cores) && HasPart(d, name, Info)
    ensures identical <==> |StampBytes(t)| <= MAX_FILE_BYTES && Stamped(hash, name, d.dirs[name], t)
    ensures !identical <==> Unreusable(hash, name, d.dirs[name], t)
  {
    hide StampBytes, GenName, CleanStamp, Stream;
    var u :| Stamped(hash, name, d.dirs[name], u);
    StampBytesIdentifyStamp(t, u);
    SameDigest(hash(StampBytes(t)), hash(StampBytes(u)));
  }

  /** A whole generation of the right name that another producer made is this one, unless the digests collide. */
  lemma RivalHolds(hash: string -> string, d: Disk, name: string, c: Compiled, rival: Dir)
    requires Genuine(hash, name, rival) && name == NameOf(hash, c.stamp) && CleanStamp(c.stamp)
    requires name in d.dirs && d.dirs[name] == rival
    ensures Holds(hash, d, Published(name), c, Some(rival))
  {
    hide StampBytes, GenName, CleanStamp, Stream;
    var u :| Stamped(hash, name, rival, u);
    StampBytesIdentifyStamp(c.stamp, u);
    SameDigest(hash(StampBytes(c.stamp)), hash(StampBytes(u)));
  }

  lemma SameDigest(a: string, b: string)
    requires "gen-" + a == "gen-" + b
    ensures a == b
  {
    assert ("gen-" + a)[4..] == a && ("gen-" + b)[4..] == b;
  }

  /** Content addressing: one set of inputs has one name, and two stamps share a name only if their bytes collide. */
  lemma NameIdentifiesInputs(hash: string -> string, platform: string, inputs: Inputs, c: Compiled, inputs': Inputs,
                             c': Compiled)
    requires HexHash(hash) && CleanInputs(platform, inputs) && CleanInputs(platform, inputs')
    requires CompilesTo(hash, platform, inputs, c) && CompilesTo(hash, platform, inputs', c')
    ensures inputs == inputs' ==> c == c'
    ensures NameOf(hash, c.stamp) == NameOf(hash, c'.stamp) ==>
      c.stamp == c'.stamp || Collide(hash, StampBytes(c.stamp), StampBytes(c'.stamp))
  {
    hide StampBytes, CleanStamp, Stream;
    StampIsClean(hash, platform, inputs, c);
    StampIsClean(hash, platform, inputs', c');
    StampBytesIdentifyStamp(c.stamp, c'.stamp);
    if NameOf(hash, c.stamp) == NameOf(hash, c'.stamp) {
      SameDigest(hash(StampBytes(c.stamp)), hash(StampBytes(c'.stamp)));
    }
  }

  /** No two of the texts that name the generation have one digest. */
  ghost predicate NoCollision(hash: string -> string, inputs: Inputs, c: Compiled, inputs': Inputs, c': Compiled)
    requires inputs.systems.Some? && inputs.cores.Some? && inputs'.systems.Some? && inputs'.cores.Some?
  {
    && !Collide(hash, StampBytes(c.stamp), StampBytes(c'.stamp))
    && !Collide(hash, inputs.systems.value, inputs'.systems.value)
    && !Collide(hash, inputs.cores.value, inputs'.cores.value)
    && !Collide(hash, Stream(inputs.info), Stream(inputs'.info)) && !Collide(hash, Stream(c.info), Stream(c'.info))
    && !Collide(hash, c.systems, c'.systems) && !Collide(hash, c.cores, c'.cores)
  }

  /**
   * Every input shows in the name: without a collision of digests, two sets of inputs that lead to one name have the
   * same release, the same release files, the same compiled files and the same contributors.
   */
  lemma EveryInputShows(hash: string -> string, platform: string, inputs: Inputs, c: Compiled, inputs': Inputs,
                        c': Compiled)
    requires HexHash(hash) && CleanInputs(platform, inputs) && CleanInputs(platform, inputs')
    requires CompilesTo(hash, platform, inputs, c) && CompilesTo(hash, platform, inputs', c')
    requires CleanTree(inputs.info) && CleanTree(inputs'.info) && CleanTree(c.info) && CleanTree(c'.info)
    requires NoCollision(hash, inputs, c, inputs', c') && NameOf(hash, c.stamp) == NameOf(hash, c'.stamp)
    ensures inputs.releaseId == inputs'.releaseId && inputs.systems == inputs'.systems && inputs.cores == inputs'.cores
    ensures inputs.info == inputs'.info && inputs.fingerprints == inputs'.fingerprints
    ensures c.systems == c'.systems && c.cores == c'.cores && c.info == c'.info
  {
    hide StampBytes, CleanStamp, Stream, CleanTree, Overlay;
    NameIdentifiesInputs(hash, platform, inputs, c, inputs', c');
    StreamIdentifiesTree(inputs.info, inputs'.info);
    StreamIdentifiesTree(c.info, c'.info);
  }

  lemma FilledIsStamped(hash: string -> string, platform: string, inputs: Inputs, c: Compiled, canonical: string,
                        name: string, dir: Dir)
    requires CompilesTo(hash, platform, inputs, c) && CleanStamp(c.stamp) && canonical == StampBytes(c.stamp)
    requires name == NameOf(hash, c.stamp)
    requires dir == Dir(Some(c.systems), Some(c.cores), Some(c.info), Some(canonical))
    ensures Stamped(hash, name, dir, c.stamp)
  {
    hide StampBytes, CleanStamp, Stream;
  }

  lemma HeldTwice(a: seq<Disk>, b: seq<Disk>, c: seq<Disk>, selector: Option<string>)
    requires Held(a, b, selector) && Held(b, c, selector)
    ensures Held(a, c, selector)
  {
  }

  lemma StillThere(a: seq<Disk>, b: seq<Disk>, i: nat, selector: Option<string>)
    requires Held(a, b, selector) && i < |a|
    ensures |b| > i && b[i] == a[i]
  {
  }

  lemma HeldLonger(a: seq<Disk>, b: seq<Disk>, c: seq<Disk>, d: seq<Disk>)
    requires |a| < |b| && Held(c, d, None) && c == b
    ensures |a| < |d|
  {
  }

  lemma HeldOnce(a: seq<Disk>, d: Disk)
    ensures Held(a, a + [d], d.selector)
  {
  }

  lemma HeldThenNone(a: seq<Disk>, b: seq<Disk>, c: seq<Disk>, found: Option<string>, name: string)
    requires Held(a, b, found) && Held(b, c, None)
    ensures Timeline(a, c, |b|, |c|, found, name)
  {
  }

  lemma HeldTimeline(a: seq<Disk>, b: seq<Disk>, c: seq<Disk>, k: nat, m: nat, found: Option<string>, name: string)
    requires Held(a, b, found) && Timeline(b, c, k, m, found, name)
    ensures Timeline(a, c, k, m, found, name)
  {
  }

  lemma EndsDark(a: seq<Disk>, b: seq<Disk>, k: nat, found: Option<string>, name: string)
    requires Timeline(a, b, k, |b|, found, name) && k < |b|
    ensures b[|b| - 1].selector == None
  {
  }

  /** Nothing is said about a name the selector never takes. */
  lemma NameNeverTaken(a: seq<Disk>, b: seq<Disk>, k: nat, found: Option<string>, name: string, other: string)
    requires Timeline(a, b, k, |b|, found, name)
    ensures Timeline(a, b, k, |b|, found, other)
  {
  }

  lemma HeldNever(a: seq<Disk>, selector: Option<string>)
    ensures Held(a, a, selector)
  {
  }

  lemma MarksInOrder(a: seq<Disk>, b: seq<Disk>, k: nat, m: nat, found: Option<string>, name: string)
    requires Timeline(a, b, k, m, found, name)
    ensures |a| <= k <= m <= |b| && a <= b
  {
  }

  /** The inputs determine the result. */
  lemma OneResult(hash: string -> string, platform: string, inputs: Inputs, c: Compiled, c': Compiled)
    requires CompilesTo(hash, platform, inputs, c) && CompilesTo(hash, platform, inputs, c')
    ensures c == c'
  {
    hide Stream;
  }

  lemma SameBlocked(hash: string -> string, d: Disk, e: Disk, t: Stamp)
    requires d.dirs == e.dirs
    ensures Blocked(hash, d, t) <==> Blocked(hash, e, t)
  {
    hide Unreusable, StampBytes;
  }

  lemma StampedIsGenuine(hash: string -> string, name: string, dir: Dir, t: Stamp)
    requires Stamped(hash, name, dir, t)
    ensures Genuine(hash, name, dir)
  {
  }

  lemma HoldsStays(hash: string -> string, d: Disk, e: Disk, o: Outcome, c: Compiled, rival: Option<Dir>)
    requires Holds(hash, d, o, c, rival) && e.dirs == d.dirs
    ensures Holds(hash, e, o, c, rival)
  {
    hide Stamped, StampBytes, Clashes;
  }

  lemma RivalsDir(hash: string -> string, platform: string, inputs: Inputs, c: Compiled)
    requires RivalIsWhole(hash, platform, inputs) && CompilesTo(hash, platform, inputs, c)
    ensures inputs.rival.Some? ==> Genuine(hash, NameOf(hash, c.stamp), inputs.rival.value)
  {
    hide CompilesTo, Genuine;
  }

  lemma SameMisnamed(d: Disk, e: Disk, name: string)
    requires d.selector == e.selector
    ensures Misnamed(d, name) <==> Misnamed(e, name)
  {
  }

  lemma NoneYet(d: Disk, t: seq<Disk>)
    ensures forall u | t <= u :: NoneAppears(d, u[|t|..|t|])
  {
  }

  lemma PrefixKept(t0: seq<Disk>, t1: seq<Disk>, t2: seq<Disk>, k: nat, m: nat, found: Option<string>, name: string)
    requires Held(t0, t1, found) && Timeline(t0, t2, k, m, found, name) && t1 <= t2
    ensures k == |t1| ==> t2[|t0|..k] == t1[|t0|..]
  {
  }

  class Store {
    const hash: string -> string
    const platform: string
    var disk: Disk
    /** Every state so far, one per filesystem call. */
    ghost var trace: seq<Disk>
    /** How many filesystem calls have failed. */
    ghost var faults: nat

    ghost predicate Valid()
      reads this
    {
      HexHash(hash) && Sound(hash, trace) && trace[|trace| - 1] == disk
    }

    /** After a boot: the directory as the last filesystem call before the crash left it. */
    constructor (hash: string -> string, platform: string, ghost history: seq<Disk>, found: Disk)
      requires HexHash(hash) && Sound(hash, history) && history[|history| - 1] == found
      ensures Valid() && this.hash == hash && this.platform == platform && disk == found && trace == history
    {
      this.hash := hash;
      this.platform := platform;
      disk := found;
      trace := history;
      faults := 0;
    }

    /** Any call may fail. */
    method Fails() returns (fault: bool)
      modifies this`faults
      ensures faults == old(faults) + if fault then 1 else 0
    {
      fault := *;
      if fault { faults := faults + 1; }
    }

    // -------------------------------------------------------------- single calls

    /** One call that leaves generations and selector alone. */
    method Touch(d: Disk)
      requires Valid() && Aside(disk, d)
      modifies this`disk, this`trace
      ensures Valid() && disk == d && Calm(old(trace), old(disk), trace, disk)
    {
      hide Sound, Aside, Wholesome, Persists;
      SoundLast(hash, trace);
      AsideIsSound(hash, disk, d);
      SoundStep(hash, trace, d);
      disk := d;
      trace := trace + [d];
    }

    /** Puts a new version of one temporary directory in place. */
    method PutDir(name: string, dir: Dir)
      requires Valid() && Temporary(name)
      modifies this`disk, this`trace
      ensures Valid() && disk == old(disk).(dirs := old(disk).dirs[name := dir])
      ensures OnlyDir(old(disk), disk, name) && Calm(old(trace), old(disk), trace, disk)
    {
      hide Sound, Aside, Calm;
      var d := disk.(dirs := disk.dirs[name := dir]);
      assert d.dirs - {name} == disk.dirs - {name};
      OnlyDirAside(disk, d, name);
      Touch(d);
    }

    /** rmdir */
    method DropDir(name: string)
      requires Valid() && Temporary(name)
      modifies this`disk, this`trace
      ensures Valid() && disk == old(disk).(dirs := old(disk).dirs - {name})
      ensures OnlyDir(old(disk), disk, name) && Calm(old(trace), old(disk), trace, disk)
    {
      hide Sound, Aside, Calm;
      var d := disk.(dirs := disk.dirs - {name});
      assert d.dirs - {name} == disk.dirs - {name};
      OnlyDirAside(disk, d, name);
      Touch(d);
    }

    // -------------------------------------------------------------- files below a temporary directory

    /** `jw_cat__write_file`, `jw_cat__copy_file`: created empty, then filled piece by piece; it may fail anywhere. */
    method WriteFile(name: string, part: Part, data: string) returns (ok: bool)
      requires Valid() && Temporary(name) && name in disk.dirs && part != Info
      modifies this
      ensures faults >= old(faults) && (!ok ==> faults > old(faults))
      ensures Valid() && name in disk.dirs && OnlyDir(old(disk), disk, name) && Calm(old(trace), old(disk), trace, disk)
      ensures ok ==> disk.dirs[name] == WithPart(old(disk).dirs[name], part, data)
    {
      hide Sound, Aside, Calm, HexHash, Temporary;
      ghost var t0, d0 := trace, disk;
      CalmNone(trace, disk);
      var fault := Fails();
      if fault {
        return false;
      }
      var dir := disk.dirs[name];
      PutDir(name, WithPart(dir, part, ""));
      var n := 0;
      while n < |data|
        invariant n <= |data| && Valid() && name in disk.dirs && disk.dirs[name] == WithPart(dir, part, data[..n])
        invariant OnlyDir(d0, disk, name) && Calm(t0, d0, trace, disk) && faults >= old(faults)
      {
        fault := Fails();
        if fault {
          return false;
        }
        var more :| 1 <= more <= |data| - n;
        n := n + more;
        ghost var t1, d1 := trace, disk;
        PutDir(name, WithPart(dir, part, data[..n]));
        CalmTwice(t0, d0, t1, d1, trace, disk);
        OnlyDirTwice(d0, d1, disk, name);
      }
      assert data[..|data|] == data;
      fault := Fails();
      return !fault;
    }

    /** One file of the info directory. */
    method WriteInfo(name: string, tree: Tree, path: string, data: string) returns (ok: bool)
      requires Valid() && Temporary(name) && name in disk.dirs && disk.dirs[name].info == Some(tree)
      modifies this
      ensures faults >= old(faults) && (!ok ==> faults > old(faults))
      ensures Valid() && name in disk.dirs && OnlyDir(old(disk), disk, name) && Calm(old(trace), old(disk), trace, disk)
      ensures ok ==> disk.dirs[name] == old(disk).dirs[name].(info := Some(tree[path := data]))
    {
      hide Sound, Aside, Calm, HexHash, Temporary;
      ghost var t0, d0 := trace, disk;
      CalmNone(trace, disk);
      var fault := Fails();
      if fault {
        return false;
      }
      var dir := disk.dirs[name];
      PutDir(name, dir.(info := Some(tree[path := ""])));
      var n := 0;
      while n < |data|
        invariant n <= |data| && Valid() && name in disk.dirs
        invariant disk.dirs[name] == dir.(info := Some(tree[path := data[..n]]))
        invariant OnlyDir(d0, disk, name) && Calm(t0, d0, trace, disk) && faults >= old(faults)
      {
        fault := Fails();
        if fault {
          return false;
        }
        var more :| 1 <= more <= |data| - n;
        n := n + more;
        ghost var t1, d1 := trace, disk;
        PutDir(name, dir.(info := Some(tree[path := data[..n]])));
        CalmTwice(t0, d0, t1, d1, trace, disk);
        OnlyDirTwice(d0, d1, disk, name);
      }
      assert data[..|data|] == data;
      fault := Fails();
      return !fault;
    }

    /** `jw_cat__copy_tree` */
    method CopyTree(name: string, source: Tree) returns (ok: bool)
      requires Valid() && Temporary(name) && name in disk.dirs
      modifies this
      ensures faults >= old(faults) && (!ok ==> faults > old(faults))
      ensures Valid() && name in disk.dirs && OnlyDir(old(disk), disk, name) && Calm(old(trace), old(disk), trace, disk)
      ensures ok ==> disk.dirs[name] == old(disk).dirs[name].(info := Some(source))
    {
      hide Sound, Aside, Calm, HexHash, Temporary;
      ghost var t0, d0 := trace, disk;
      CalmNone(trace, disk);
      var fault := Fails();
      if fault {
        return false;
      }
      var done: Tree := map[];
      PutDir(name, disk.dirs[name].(info := Some(done)));
      var rest := source.Keys;
      while rest != {}
        invariant Valid() && name in disk.dirs && OnlyDir(d0, disk, name) && Calm(t0, d0, trace, disk)
        invariant faults >= old(faults)
        invariant disk.dirs[name] == d0.dirs[name].(info := Some(done))
        invariant rest <= source.Keys && done.Keys == source.Keys - rest && forall p | p in done :: done[p] == source[p]
        decreases rest
      {
        var p :| p in rest;
        ghost var t1, d1 := trace, disk;
        var written := WriteInfo(name, done, p, source[p]);
        CalmTwice(t0, d0, t1, d1, trace, disk);
        OnlyDirTwice(d0, d1, disk, name);
        if !written {
          return false;
        }
        done := done[p := source[p]];
        rest := rest - {p};
      }
      assert done == source;
      return true;
    }

    /** One row of the merged cores document. */
    method AddInfo(name: string, tree: Tree, row: CoreInfo, paks: seq<Pak>, files: map<string, string>)
      returns (ok: bool)
      requires Valid() && Temporary(name) && name in disk.dirs && disk.dirs[name].info == Some(tree)
      modifies this
      ensures faults >= old(faults) && (!ok ==> faults > old(faults) || OverRow(tree, row, paks, files).None?)
      ensures Valid() && name in disk.dirs && OnlyDir(old(disk), disk, name) && Calm(old(trace), old(disk), trace, disk)
      ensures ok ==>
        && OverRow(tree, row, paks, files).Some?
        && disk.dirs[name] == old(disk).dirs[name].(info := OverRow(tree, row, paks, files))
    {
      hide Sound, Aside, Calm, HexHash, Temporary, BringsInfo, Source, Target;
      CalmNone(trace, disk);
      if !BringsInfo(row) {
        return true;
      }
      var data := Source(row, paks, files);
      if data.None? {
        return false;
      }
      ok := WriteInfo(name, tree, Target(row), data.value);
    }

    /** `jw_cat__materialize_info`: the release tree, then the info files of surviving contributed cores. */
    method MaterializeInfo(name: string, release: Tree, rows: seq<CoreInfo>, paks: seq<Pak>, files: map<string, string>)
      returns (ok: bool)
      requires Valid() && Temporary(name) && name in disk.dirs
      modifies this
      ensures faults >= old(faults) && (!ok ==> faults > old(faults) || Overlay(release, rows, paks, files).None?)
      ensures Valid() && name in disk.dirs && OnlyDir(old(disk), disk, name) && Calm(old(trace), old(disk), trace, disk)
      ensures ok ==>
        && Overlay(release, rows, paks, files).Some?
        && disk.dirs[name] == old(disk).dirs[name].(info := Overlay(release, rows, paks, files))
    {
      hide Sound, Aside, Calm, HexHash, Temporary, Overlay, OnlyDir, OverRow;
      ghost var t0, d0 := trace, disk;
      ok := CopyTree(name, release);
      if !ok {
        return;
      }
      OverlayNone(release, rows, paks, files);
      for i := 0 to |rows|
        invariant Valid() && name in disk.dirs && OnlyDir(d0, disk, name) && Calm(t0, d0, trace, disk)
        invariant faults >= old(faults)
        invariant Overlay(release, rows[..i], paks, files).Some?
        invariant disk.dirs[name] == d0.dirs[name].(info := Overlay(release, rows[..i], paks, files))
      {
        ghost var t1, d1 := trace, disk;
        OverlayNext(release, rows, paks, files, i);
        var laid := AddInfo(name, disk.dirs[name].info.value, rows[i], paks, files);
        CalmTwice(t0, d0, t1, d1, trace, disk);
        OnlyDirTwice(d0, d1, disk, name);
        if !laid {
          return false;
        }
      }
      assert rows[..|rows|] == rows;
    }

    /** `jw_cat__rmtree` on a directory this process made; what cannot be removed stays. */
    method RemoveTree(name: string) returns (ok: bool)
      requires Valid() && Temporary(name) && name in disk.dirs
      modifies this
      ensures faults >= old(faults) && (!ok ==> faults > old(faults))
      ensures Valid() && OnlyDir(old(disk), disk, name) && Calm(old(trace), old(disk), trace, disk)
      ensures ok <==> name !in disk.dirs
    {
      hide Sound, Aside, Calm, HexHash, Temporary;
      ghost var t0, d0 := trace, disk;
      CalmNone(trace, disk);
      var stages := [disk.dirs[name].(stamp := None), disk.dirs[name].(stamp := None, info := None),
                     disk.dirs[name].(stamp := None, info := None, cores := None), EMPTY_DIR];
      for i := 0 to |stages|
        invariant Valid() && name in disk.dirs && OnlyDir(d0, disk, name) && Calm(t0, d0, trace, disk)
        invariant faults >= old(faults)
      {
        var fault := Fails();
        if fault {
          return false;
        }
        ghost var t1, d1 := trace, disk;
        PutDir(name, stages[i]);
        CalmTwice(t0, d0, t1, d1, trace, disk);
        OnlyDirTwice(d0, d1, disk, name);
      }
      ghost var t1, d1 := trace, disk;
      DropDir(name);
      CalmTwice(t0, d0, t1, d1, trace, disk);
      OnlyDirTwice(d0, d1, disk, name);
      return true;
    }

    /** The first of 64 names that `mkdir` can create. */
    method MakeTemp(prefix: string) returns (name: Option<string>)
      requires Valid() && Temporary(prefix)
      modifies this
      ensures faults >= old(faults) && (name.None? ==> faults > old(faults) || Exhausted(old(disk).dirs, prefix))
      ensures Valid() && Calm(old(trace), old(disk), trace, disk)
      ensures name.Some? ==> Temporary(name.value) && name.value !in old(disk).dirs
      ensures name.Some? ==> disk == old(disk).(dirs := old(disk).dirs[name.value := EMPTY_DIR])
    {
      hide Sound, Aside, Calm, HexHash;
      CalmNone(trace, disk);
      for attempt := 0 to 64
        invariant Valid() && disk == old(disk) && trace == old(trace) && faults == old(faults)
        invariant forall n | 0 <= n < attempt :: prefix + Decimal(n) in disk.dirs
      {
        var candidate := prefix + Decimal(attempt);
        assert candidate[..4] == prefix[..4];
        if candidate !in disk.dirs {
          var fault := Fails();
          if fault {
            return None;
          }
          PutDir(candidate, EMPTY_DIR);
          return Some(candidate);
        }
      }
      return None;
    }

    // -------------------------------------------------------------- compiling

    /** `jw_catalog_tree_sha256` */
    method HashTree(t: Tree) returns (digest: Option<string>)
      ensures digest == if Hashable(t) then Some(hash(Stream(t))) else None
    {
      var walk := Walk(t);
      var out := TreeStream(t, walk);
      match out {
        case Hashed(stream) => digest := Some(hash(stream));
        case Refused => digest := None;
      }
    }

    /** `jw_cat__merged_info_hash`: materializes the merged info directory once, to fingerprint it. */
    method MergedInfoHash(pid: string, inputs: Inputs) returns (digest: Option<string>)
      requires Valid() && inputs.merged.Some?
      modifies this
      ensures faults >= old(faults)
      ensures digest.None? ==>
        || faults > old(faults) || Exhausted(old(disk).dirs, "tmp-info-" + pid + "-")
        || MergedInfo(inputs).None? || !Hashable(MergedInfo(inputs).value)
      ensures digest.Some? ==> disk.dirs == old(disk).dirs
      ensures Valid() && Calm(old(trace), old(disk), trace, disk)
      ensures digest.Some? ==> MergedInfo(inputs).Some? && digest.value == hash(Stream(MergedInfo(inputs).value))
    {
      hide Sound, Aside, Calm, HexHash, Stream, Overlay;
      ghost var t0, d0 := trace, disk;
      assert ("tmp-info-" + pid + "-")[..4] == "tmp-";
      var scratch := MakeTemp("tmp-info-" + pid + "-");
      if scratch.None? {
        return None;
      }
      ghost var t1, d1 := trace, disk;
      ghost var made := disk;
      var ok := MaterializeInfo(scratch.value, inputs.info, inputs.merged.value.rows, inputs.paks, inputs.files);
      CalmTwice(t0, d0, t1, d1, trace, disk);
      if ok {
        digest := HashTree(MergedInfo(inputs).value);
      } else {
        digest := None;
      }
      t1, d1 := trace, disk;
      var removed := RemoveTree(scratch.value);
      CalmTwice(t0, d0, t1, d1, trace, disk);
      if !removed {
        digest := None;
      } else {
        OnlyDirTwice(made, d1, disk, scratch.value);
        BackToBefore(d0, made, disk, scratch.value);
      }
    }

    /** Everything before the name is known. */
    method Compile(inputs: Inputs, pid: string) returns (r: Option<Compiled>)
      requires Valid() && CleanInputs(platform, inputs) && inputs.releaseId.Some? && inputs.systems.Some?
      requires inputs.cores.Some?
      modifies this
      ensures faults >= old(faults)
      ensures r.None? ==>
        || faults > old(faults) || !Compilable(inputs)
        || Exhausted(old(disk).dirs, "tmp-info-" + pid + "-")
      ensures r.Some? ==> disk.dirs == old(disk).dirs
      ensures Valid() && Calm(old(trace), old(disk), trace, disk)
      ensures r.Some? ==> CompilesTo(hash, platform, inputs, r.value)
    {
      hide Sound, Aside, Calm, HexHash, Stream, CleanInputs;
      CalmNone(trace, disk);
      var systems, cores, info := inputs.systems.value, inputs.cores.value, inputs.info;
      var infoHash := HashTree(info);
      if infoHash.None? {
        return None;
      }
      var base := Hashes(hash(systems), hash(cores), infoHash.value);
      var output := base;
      if inputs.contributed {
        if inputs.merged.None? {
          return None;
        }
        var merged := inputs.merged.value;
        systems, cores := merged.systems, merged.cores;
        infoHash := MergedInfoHash(pid, inputs);
        if infoHash.None? {
          return None;
        }
        info := MergedInfo(inputs).value;
        output := Hashes(hash(systems), hash(cores), infoHash.value);
      }
      if inputs.fingerprints.None? {
        return None;
      }
      return Some(Compiled(systems, cores, info,
        Stamp(platform, inputs.releaseId.value, base, output, inputs.fingerprints.value)));
    }

    // -------------------------------------------------------------- the selector

    /** `jw_cat__write_diagnostics`; its failure is ignored. */
    method WriteDiagnostics(text: string)
      requires Valid()
      modifies this
      ensures faults >= old(faults)
      ensures Valid() && disk == old(disk).(diagnostics := disk.diagnostics) && Calm(old(trace), old(disk), trace, disk)
    {
      hide Sound, Calm, HexHash;
      ghost var t0, d0 := trace, disk;
      CalmNone(trace, disk);
      var fault := Fails();
      if fault {
        return;
      }
      Touch(disk.(diagnostics := Some("")));
      ghost var t1, d1 := trace, disk;
      fault := Fails();
      if !fault {
        Touch(disk.(diagnostics := Some(text)));
        CalmTwice(t0, d0, t1, d1, trace, disk);
      }
    }

    /** `jw_cat__invalidate_selector` */
    method InvalidateSelector()
      requires Valid()
      modifies this`disk, this`trace
      ensures Valid() && disk == old(disk).(selector := None) && trace == old(trace) + [disk]
    {
      hide Sound, HexHash, Genuine, GenName;
      SoundLast(hash, trace);
      SoundStep(hash, trace, disk.(selector := None));
      disk := disk.(selector := None);
      trace := trace + [disk];
    }

    /** `jw_cat__write_selector`: a temporary file, then the rename every reader sees at once. */
    method WriteSelector(name: string) returns (ok: bool, ghost mid: seq<Disk>, ghost ready: Disk)
      requires Valid()
      modifies this
      ensures faults >= old(faults) && (!ok ==> faults > old(faults))
      ensures Valid() && Calm(old(trace), old(disk), mid, ready) && ready.dirs == old(disk).dirs
      ensures !ok ==> mid == trace && ready == disk
      ensures ok ==> trace == mid + [disk] && disk == ready.(selector := Some(name + "\n"), selectorTmp := None)
    {
      hide Sound, Calm, HexHash, Genuine, GenName;
      mid, ready := trace, disk;
      ghost var t0, d0 := trace, disk;
      CalmNone(trace, disk);
      var fault := Fails();
      if fault {
        return false, mid, ready;
      }
      var line := name + "\n";
      Touch(disk.(selectorTmp := Some("")));
      mid, ready := trace, disk;
      var n := 0;
      while n < |line|
        invariant n <= |line| && Valid() && disk.dirs == d0.dirs && Calm(t0, d0, trace, disk) && mid == trace
        invariant ready == disk
        invariant faults >= old(faults)
      {
        fault := Fails();
        if fault {
          return false, mid, ready;
        }
        var more :| 1 <= more <= |line| - n;
        n := n + more;
        Touch(disk.(selectorTmp := Some(line[..n])));
        CalmTwice(t0, d0, mid, ready, trace, disk);
        mid, ready := trace, disk;
      }
      fault := Fails();
      if fault {
        Touch(disk.(selectorTmp := None));
        CalmTwice(t0, d0, mid, ready, trace, disk);
        return false, trace, disk;
      }
      SoundLast(hash, trace);
      var d := disk.(selector := Some(line), selectorTmp := None);
      SoundStep(hash, trace, d);
      disk := d;
      trace := trace + [d];
      ok := true;
    }

    // -------------------------------------------------------------- the generation directory

    /** Fills a fresh temporary directory; on failure it is removed as far as possible. */
    method Build(pid: string, c: Compiled, inputs: Inputs, canonical: string)
      returns (created: bool, tmp: Option<string>)
      requires Valid() && CompilesTo(hash, platform, inputs, c)
      modifies this
      ensures faults >= old(faults)
      ensures tmp.None? ==> faults > old(faults) || Exhausted(old(disk).dirs, "tmp-" + pid + "-")
      ensures Valid() && Calm(old(trace), old(disk), trace, disk)
      ensures tmp.Some? ==>
        && Temporary(tmp.value) && tmp.value in disk.dirs
        && disk.dirs[tmp.value] == Dir(Some(c.systems), Some(c.cores), Some(c.info), Some(canonical))
    {
      hide Sound, Aside, Calm, HexHash, Stream;
      ghost var t0, d0 := trace, disk;
      assert ("tmp-" + pid + "-")[..4] == "tmp-";
      tmp := MakeTemp("tmp-" + pid + "-");
      created := tmp.Some?;
      if tmp.None? {
        return;
      }
      var name := tmp.value;
      ghost var t1, d1 := trace, disk;
      var ok := WriteFile(name, Systems, c.systems);
      CalmTwice(t0, d0, t1, d1, trace, disk);
      if ok {
        t1, d1 := trace, disk;
        ok := WriteFile(name, Cores, c.cores);
        CalmTwice(t0, d0, t1, d1, trace, disk);
      }
      if ok {
        t1, d1 := trace, disk;
        if inputs.contributed {
          ok := MaterializeInfo(name, inputs.info, inputs.merged.value.rows, inputs.paks, inputs.files);
        } else {
          ok := CopyTree(name, inputs.info);
        }
        CalmTwice(t0, d0, t1, d1, trace, disk);
      }
      if ok {
        t1, d1 := trace, disk;
        ok := WriteFile(name, StampFile, canonical);
        CalmTwice(t0, d0, t1, d1, trace, disk);
      }
      if !ok {
        t1, d1 := trace, disk;
        var removed := RemoveTree(name);
        CalmTwice(t0, d0, t1, d1, trace, disk);
        tmp := None;
      }
    }

    /** Another producer's rename. */
    method RivalLands(name: string, rival: Dir)
      requires Valid() && name !in disk.dirs && Genuine(hash, name, rival)
      modifies this`disk, this`trace
      ensures Valid() && trace == old(trace) + [disk] && disk == old(disk).(dirs := old(disk).dirs[name := rival])
    {
      hide Sound, HexHash, Genuine, GenName;
      var d := disk.(dirs := disk.dirs[name := rival]);
      SoundLast(hash, trace);
      SoundStep(hash, trace, d);
      disk := d;
      trace := trace + [d];
    }

    /**
     * The rename that makes the generation appear, all at once. When another producer has taken the name it fails, the
     * temporary directory is removed, and what is there counts.
     */
    method RenameDir(tmp: string, name: string, rival: Option<Dir>, ghost t: Stamp) returns (ok: bool)
      requires Valid() && Temporary(tmp) && tmp in disk.dirs && name !in disk.dirs && GenName(name)
      requires Stamped(hash, name, disk.dirs[tmp], t) && (rival.Some? ==> Genuine(hash, name, rival.value))
      modifies this
      ensures faults >= old(faults) && (!ok ==> faults > old(faults))
      ensures Valid() && Held(old(trace), trace, old(disk).selector) && disk.selector == old(disk).selector
      ensures !ok ==> rival.None? && disk == old(disk) && trace == old(trace)
      ensures ok && rival.None? ==>
        && trace == old(trace) + [disk]
        && disk == old(disk).(dirs := (old(disk).dirs - {tmp})[name := old(disk).dirs[tmp]])
      ensures ok && rival.Some? ==>
        && |trace| > |old(trace)| && trace[|old(trace)|] == old(disk).(dirs := old(disk).dirs[name := rival.value])
        && name in disk.dirs && disk.dirs[name] == rival.value
    {
      hide Sound, HexHash, Stamped, GenName, Genuine, Held, Calm;
      ghost var t0, d0 := trace, disk;
      TemporaryIsNoGen(tmp);
      StampedIsGenuine(hash, name, disk.dirs[tmp], t);
      if rival.Some? {
        RivalLands(name, rival.value);
        HeldOnce(t0, disk);
        ghost var t1, d1 := trace, disk;
        var removed := RemoveTree(tmp);
        CalmHeld(t1, d1, trace, disk);
        HeldTwice(t0, t1, trace, d0.selector);
        OnlyDirOthers(d1, disk, tmp);
        StillThere(t1, trace, |t0|, d0.selector);
        return true;
      }
      HeldNever(t0, d0.selector);
      var fault := Fails();
      if fault {
        return false;
      }
      var d := disk.(dirs := (disk.dirs - {tmp})[name := disk.dirs[tmp]]);
      SoundLast(hash, trace);
      SoundStep(hash, trace, d);
      disk := d;
      trace := trace + [d];
      HeldOnce(t0, disk);
      ok := true;
    }

    /** Every failure path: selector first, then the explanation. */
    method Fail(reason: string)
      requires Valid()
      modifies this
      ensures faults >= old(faults)
      ensures Valid() && Dark(old(trace), trace, old(disk)) && |trace| > |old(trace)| && disk.dirs == old(disk).dirs
    {
      hide Sound, HexHash, GenName;
      InvalidateSelector();
      WriteDiagnostics(reason);
    }

    // -------------------------------------------------------------- publication

    /** Finds generation `name` in place, or builds it and renames it into place. */
    method PlaceGeneration(inputs: Inputs, c: Compiled, canonical: string, name: string, pid: string)
      returns (o: Outcome, ghost k: nat)
      requires Valid() && CompilesTo(hash, platform, inputs, c) && CleanStamp(c.stamp)
      requires canonical == StampBytes(c.stamp)
      requires name == NameOf(hash, c.stamp) && GenName(name) && RivalIsWhole(hash, platform, inputs)
      modifies this
      ensures faults >= old(faults)
      ensures !Done(o) ==>
        || faults > old(faults) || o == Fallback("generation-digest-conflict")
        || Exhausted(old(disk).dirs, "tmp-" + pid + "-")
      ensures Valid()
      ensures Done(o) ==>
        && o.name == name && Holds(hash, disk, o, c, inputs.rival)
        && Held(old(trace), trace, old(disk).selector) && disk.selector == old(disk).selector
      ensures !Done(o) ==> k < |trace| && Timeline(old(trace), trace, k, |trace|, old(disk).selector, name)
      ensures o == Fallback("generation-digest-conflict") <==> Blocked(hash, old(disk), c.stamp)
    {
      if name in disk.dirs {
        o, k := CheckExisting(c, canonical, name);
      } else {
        o, k := MakeGeneration(inputs, c, canonical, name, pid);
      }
    }

    method CheckExisting(c: Compiled, canonical: string, name: string) returns (o: Outcome, ghost k: nat)
      requires Valid() && CleanStamp(c.stamp) && canonical == StampBytes(c.stamp)
      requires name == NameOf(hash, c.stamp) && GenName(name) && name in disk.dirs
      modifies this
      ensures faults >= old(faults) && (!Done(o) ==> o == Fallback("generation-digest-conflict"))
      ensures Valid()
      ensures Done(o) ==>
        && o.name == name && Holds(hash, disk, o, c, None) && o.Reused?
        && Held(old(trace), trace, old(disk).selector) && disk.selector == old(disk).selector
      ensures !Done(o) ==> k < |trace| && Timeline(old(trace), trace, k, |trace|, old(disk).selector, name)
      ensures !Done(o) <==> Blocked(hash, old(disk), c.stamp)
    {
      hide Sound, HexHash, GenName, Stamped, Aside, Calm, Dark,
        Genuine, Wholesome, Unreusable, Stream, CleanStamp, StampBytes;
      ghost var t0, d0 := trace, disk;
      SoundLast(hash, trace);
      var existing := StampText(disk, name);
      var identical := existing == Some(canonical)
        && HasPart(disk, name, Systems) && HasPart(disk, name, Cores) && HasPart(disk, name, Info);
      ReuseOrConflict(hash, disk, name, c.stamp, identical);
      k := |t0|;
      if !identical {
        Fail("generation-digest-conflict");
        DarkHeld(t0, trace, d0);
        return Fallback("generation-digest-conflict"), k;
      }
      o := Reused(name);
    }

    method MakeGeneration(inputs: Inputs, c: Compiled, canonical: string, name: string, pid: string)
      returns (o: Outcome, ghost k: nat)
      requires Valid() && CompilesTo(hash, platform, inputs, c) && CleanStamp(c.stamp)
      requires canonical == StampBytes(c.stamp)
      requires name == NameOf(hash, c.stamp) && GenName(name) && name !in disk.dirs
      requires RivalIsWhole(hash, platform, inputs)
      modifies this
      ensures faults >= old(faults)
      ensures !Done(o) ==>
        || faults > old(faults) || o == Fallback("generation-digest-conflict")
        || Exhausted(old(disk).dirs, "tmp-" + pid + "-")
      ensures Valid() && o != Fallback("generation-digest-conflict")
      ensures Done(o) ==>
        && o.name == name && Holds(hash, disk, o, c, inputs.rival)
        && Held(old(trace), trace, old(disk).selector) && disk.selector == old(disk).selector
      ensures !Done(o) ==> k < |trace| && Timeline(old(trace), trace, k, |trace|, old(disk).selector, name)
    {
      hide Sound, HexHash, GenName, Stamped, Aside, Calm, CompilesTo, RivalIsWhole,
        Dark, Genuine, Wholesome, Stream, CleanStamp, StampBytes, Timeline, Held;
      ghost var t0, d0 := trace, disk;
      var created, tmp := Build(pid, c, inputs, canonical);
      CalmHeld(t0, d0, trace, disk);
      CalmSameNames(t0, d0, trace, disk, name);
      ghost var t1, d1 := trace, disk;
      k := |trace|;
      if tmp.None? {
        Fail("compile-failed");
        DarkHeld(t1, trace, d1);
        HeldThenNone(t0, t1, trace, d0.selector, name);
        return if created then Fallback("compile-failed") else Failed, k;
      }
      FilledIsStamped(hash, platform, inputs, c, canonical, name, disk.dirs[tmp.value]);
      RivalsDir(hash, platform, inputs, c);
      var renamed := RenameDir(tmp.value, name, inputs.rival, c.stamp);
      if !renamed {
        var removed := RemoveTree(tmp.value);
        CalmHeld(t1, d1, trace, disk);
        HeldTwice(t0, t1, trace, d0.selector);
        ghost var t2, d2 := trace, disk;
        k := |trace|;
        Fail("compile-failed");
        DarkHeld(t2, trace, d2);
        HeldThenNone(t0, t2, trace, d0.selector, name);
        return Fallback("compile-failed"), k;
      }
      HeldTwice(t0, t1, trace, d0.selector);
      if inputs.rival.Some? { RivalHolds(hash, disk, name, c, inputs.rival.value); }
      o := Published(name);
    }

    /** Points the selector at the generation and leaves the reports, or fails and leaves no selector. */
    method Select(name: string) returns (ok: bool, ghost k: nat, ghost m: nat)
      requires Valid()
      modifies this
      ensures faults >= old(faults) && (!ok ==> faults > old(faults))
      ensures Valid() && disk.dirs == old(disk).dirs && Timeline(old(trace), trace, k, m, old(disk).selector, name)
      ensures if ok then m < |trace| && disk.selector == Some(name + "\n")
        else k < m == |trace| && disk.selector == None
    {
      hide Sound, HexHash, GenName, Aside, Calm, Dark, Genuine, Wholesome;
      ghost var t0, d0 := trace, disk;
      var written, mid, ready := WriteSelector(name);
      ok := written;
      CalmHeld(t0, d0, mid, ready);
      k := |mid|;
      if !ok {
        Fail("compile-failed");
        DarkHeld(mid, trace, ready);
        m := |trace|;
        return;
      }
      m := |mid|;
      ghost var t1, d1 := trace, disk;
      WriteDiagnostics("entries");
      CalmHeld(t1, d1, trace, disk);
    }

    /** Puts generation `name` in place, or finds it in place, and points the selector at it. */
    method Install(inputs: Inputs, c: Compiled, canonical: string, name: string, pid: string)
      returns (o: Outcome, ghost k: nat, ghost m: nat)
      requires Valid() && CompilesTo(hash, platform, inputs, c) && CleanStamp(c.stamp)
      requires canonical == StampBytes(c.stamp)
      requires name == NameOf(hash, c.stamp) && GenName(name) && RivalIsWhole(hash, platform, inputs)
      modifies this
      ensures faults >= old(faults)
      ensures !Done(o) ==>
        || faults > old(faults) || o == Fallback("generation-digest-conflict")
        || Exhausted(old(disk).dirs, "tmp-" + pid + "-")
      ensures Valid() && Timeline(old(trace), trace, k, m, old(disk).selector, name)
      ensures if Done(o) then o.name == name && m < |trace|
        && Holds(hash, disk, o, c, inputs.rival) else k < m == |trace|
      ensures disk.selector == if Done(o) then Some(name + "\n") else None
      ensures o == Fallback("generation-digest-conflict") <==> Blocked(hash, old(disk), c.stamp)
    {
      hide Sound, HexHash, GenName, Stamped, RivalIsWhole,
        CompilesTo, Blocked, CleanStamp, StampBytes, Timeline, Held, Holds;
      ghost var t0, d0 := trace, disk;
      o, k := PlaceGeneration(inputs, c, canonical, name, pid);
      m := |trace|;
      if !Done(o) {
        EndsDark(t0, trace, k, d0.selector, name);
        return;
      }
      ghost var t1 := trace;
      var ok;
      ghost var d1 := disk;
      ok, k, m := Select(name);
      HoldsStays(hash, d1, disk, o, c, inputs.rival);
      HeldTimeline(t0, t1, trace, k, m, d0.selector, name);
      if !ok {
        o := Failed;
      }
    }

    /** The checks of the inputs, and the compilation. Every failure takes the selector away. */
    method Prepare(inputs: Inputs, pid: string) returns (r: Option<Compiled>, o: Outcome, ghost k: nat)
      requires Valid() && CleanInputs(platform, inputs)
      modifies this
      ensures faults >= old(faults)
      ensures r.None? ==>
        || faults > old(faults) || !Compilable(inputs)
        || Exhausted(old(disk).dirs, "tmp-info-" + pid + "-")
      ensures r.Some? ==> disk.dirs == old(disk).dirs
      ensures Valid()
      ensures r.Some? ==> CompilesTo(hash, platform, inputs, r.value) && Calm(old(trace), old(disk), trace, disk)
      ensures r.None? ==>
        && !Done(o) && o != Fallback("generation-digest-conflict") && k < |trace|
        && Timeline(old(trace), trace, k, |trace|, old(disk).selector, "")
        && |old(trace)| <= k && NoneAppears(old(disk), trace[|old(trace)|..k])
    {
      hide Sound, HexHash, GenName, Aside, Calm, CompilesTo, Dark,
        Genuine, Wholesome, Stream, CleanInputs, Timeline, Held, NoneAppears;
      ghost var t0, d0 := trace, disk;
      r, k := None, |trace|;
      HeldNever(trace, d0.selector);
      NoneYet(d0, t0);
      if inputs.releaseId.None? || !inputs.pathsFit || inputs.systems.None? || inputs.cores.None? {
        var reason := if inputs.releaseId.None? then "release-identity-unavailable" else "compile-failed";
        Fail(reason);
        DarkHeld(t0, trace, d0);
        HeldThenNone(t0, t0, trace, d0.selector, "");
        return None, if inputs.releaseId.None? then Fallback("release-identity-unavailable")
                     else if !inputs.pathsFit then Failed else Fallback("compile-failed"), k;
      }
      r := Compile(inputs, pid);
      ghost var t1, d1 := trace, disk;
      if r.None? {
        CalmHeld(t0, d0, trace, disk);
        CalmNoneAppears(t0, d0, trace, disk);
        k := |trace|;
        Fail("compile-failed");
        DarkHeld(t1, trace, d1);
        HeldThenNone(t0, t1, trace, d0.selector, "");
        assert trace[|t0|..k] == t1[|t0|..];
      }
      o := Fallback("compile-failed");
    }

    /** The published generation is not the one the inputs need. */
    method DropMismatch()
      requires Valid()
      modifies this
      ensures faults >= old(faults) && |trace| > |old(trace)|
      ensures Valid() && disk.selector == None && disk.dirs == old(disk).dirs && Held(old(trace), trace, None)
    {
      hide Sound, HexHash, Held, Calm;
      ghost var t1 := trace;
      InvalidateSelector();
      HeldOnce(t1, disk);
      ghost var t2, d2 := trace, disk;
      WriteDiagnostics("stamp-mismatch");
      CalmHeld(t2, d2, trace, disk);
      HeldTwice(t1, t2, trace, None);
      HeldLonger(t1, t2, t2, trace);
    }

    /** A selector that names something else goes first; then the generation is installed. */
    method Publish(inputs: Inputs, c: Compiled, pid: string) returns (o: Outcome, ghost k: nat, ghost m: nat)
      requires Valid() && CleanInputs(platform, inputs) && CompilesTo(hash, platform, inputs, c)
      requires RivalIsWhole(hash, platform, inputs)
      modifies this
      ensures faults >= old(faults)
      ensures !Done(o) ==>
        || faults > old(faults) || o == Fallback("generation-digest-conflict")
        || Exhausted(old(disk).dirs, "tmp-" + pid + "-")
      ensures Valid() && Timeline(old(trace), trace, k, m, old(disk).selector, NameOf(hash, c.stamp))
      ensures old(trace) <= trace
      ensures Done(o) ==> m < |trace| && Holds(hash, disk, o, c, inputs.rival) && o.name == NameOf(hash, c.stamp)
      ensures !Done(o) ==> k < m == |trace|
      ensures disk.selector == if Done(o) then Some(o.name + "\n") else None
      ensures Misnamed(old(disk), NameOf(hash, c.stamp)) ==> k == |old(trace)| < m
      ensures o == Fallback("generation-digest-conflict") <==> Blocked(hash, old(disk), c.stamp)
    {
      hide Sound, HexHash, GenName, Stamped, RivalIsWhole, CompilesTo, CleanStamp, StampBytes,
        Timeline, Held, Holds, Blocked, Dark, Calm, Aside, ParseSelector, CleanInputs;
      StampIsClean(hash, platform, inputs, c);
      var canonical := StampCanonical(c.stamp);
      var name := "gen-" + hash(canonical);
      NameIsGeneration(hash, c.stamp);
      var published := None;
      var raw := Readable(disk.selector);
      if raw.Some? {
        published := ReadSelector(raw.value);
      }
      ghost var t1, d1 := trace, disk;
      forall e: Disk | e.dirs == d1.dirs ensures Blocked(hash, d1, c.stamp) <==> Blocked(hash, e, c.stamp) {
        SameBlocked(hash, d1, e, c.stamp);
      }
      if published.Some? && published.value != name {
        DropMismatch();
        ghost var t3 := trace;
        o, k, m := Install(inputs, c, canonical, name, pid);
        HeldNever(t1, d1.selector);
        DarkTimeline(t1, t1, t3, trace, k, m, d1.selector, name);
        MarksInOrder(t3, trace, k, m, None, name);
        k := |t1|;
      } else {
        o, k, m := Install(inputs, c, canonical, name, pid);
        MarksInOrder(t1, trace, k, m, d1.selector, name);
      }
    }

    /**
     * jw_catalog_refresh_with_contributors, once the catalog directory exists. `k` and `m` mark where in the history
     * the old selector goes and the new one comes.
     */
    method Refresh(inputs: Inputs, pid: string) returns (o: Outcome, ghost k: nat, ghost m: nat)
      requires Valid() && CleanInputs(platform, inputs) && RivalIsWhole(hash, platform, inputs)
      modifies this
      ensures Valid() && Timeline(old(trace), trace, k, m, old(disk).selector, if Done(o) then o.name else "")
      // Without a failing call, inputs that can be compiled are published, unless the directory has to be refused
      // or all 64 temporary names are taken.
      ensures faults >= old(faults)
      ensures !Done(o) && faults == old(faults) ==>
        || !Compilable(inputs) || o == Fallback("generation-digest-conflict")
        || Exhausted(old(disk).dirs, "tmp-info-" + pid + "-") || Exhausted(old(disk).dirs, "tmp-" + pid + "-")
      // A return with a generation leaves the selector on it; any other return leaves no selector.
      ensures Done(o) ==> m < |trace| && disk.selector == Some(o.name + "\n")
      ensures Done(o) ==> exists c :: CompilesTo(hash, platform, inputs, c) && Holds(hash, disk, o, c, inputs.rival)
      ensures !Done(o) ==> k < m == |trace| && disk.selector == None
      // What is published without another producer's help has these parts.
      ensures o.Published? && inputs.rival.None? ==> o.name in disk.dirs && PublishedParts(inputs, disk.dirs[o.name])
      // A selector that names something else is gone before any generation appears.
      ensures forall c | CompilesTo(hash, platform, inputs, c) && Misnamed(old(disk), NameOf(hash, c.stamp)) ::
        k < m && NoneAppears(old(disk), trace[|old(trace)|..k])
      // A conflict is reported only for a directory in place that has to be refused; such a directory is never used.
      ensures o == Fallback("generation-digest-conflict") ==>
        exists c :: CompilesTo(hash, platform, inputs, c) && Blocked(hash, old(disk), c.stamp)
      ensures Done(o) ==> forall c | CompilesTo(hash, platform, inputs, c) :: !Blocked(hash, old(disk), c.stamp)
    {
      hide Sound, HexHash, GenName, Stamped, RivalIsWhole, CompilesTo, CleanStamp, StampBytes,
        Timeline, Held, Holds, Blocked, Calm, Aside, Misnamed, CleanInputs, NoneAppears, PublishedParts;
      ghost var t0, d0 := trace, disk;
      var compiled;
      compiled, o, k := Prepare(inputs, pid);
      m := |trace|;
      if compiled.None? {
        EndsDark(t0, trace, k, d0.selector, "");
        MarksInOrder(t0, trace, k, m, d0.selector, "");
        return;
      }
      var c := compiled.value;
      ghost var t1, d1 := trace, disk;
      CalmHeld(t0, d0, t1, d1);
      CalmNoneAppears(t0, d0, t1, d1);
      o, k, m := Publish(inputs, c, pid);
      HeldTimeline(t0, t1, trace, k, m, d0.selector, NameOf(hash, c.stamp));
      SameMisnamed(d0, d1, NameOf(hash, c.stamp));
      PrefixKept(t0, t1, trace, k, m, d0.selector, NameOf(hash, c.stamp));
      SameBlocked(hash, d0, d1, c.stamp);
      forall c' | CompilesTo(hash, platform, inputs, c') ensures c' == c { OneResult(hash, platform, inputs, c, c'); }
      if Done(o) {
        assert CompilesTo(hash, platform, inputs, c) && Holds(hash, disk, o, c, inputs.rival);
        if o.Published? && inputs.rival.None? { PublishedHolds(hash, platform, inputs, c, disk, o); }
      } else {
        NameNeverTaken(t0, trace, k, d0.selector, NameOf(hash, c.stamp), "");
      }
    }

    /** jw_catalog_cleanup_temps: directories named tmp-* go, everything else stays. */
    method CleanupTemps() returns (removed: nat)
      requires Valid()
      modifies this
      ensures faults >= old(faults)
      ensures Valid() && Calm(old(trace), old(disk), trace, disk)
      ensures forall name | name in old(disk).dirs && !("tmp-" <= name) ::
        name in disk.dirs && disk.dirs[name] == old(disk).dirs[name]
      ensures disk.dirs.Keys <= old(disk).dirs.Keys
      ensures faults == old(faults) ==> forall name | name in disk.dirs :: !("tmp-" <= name)
      ensures removed == |old(disk).dirs.Keys| - |disk.dirs.Keys|
    {
      hide Sound, Aside, Calm, HexHash, Temporary;
      removed := 0;
      ghost var t0, d0 := trace, disk;
      CalmNone(trace, disk);
      var rest := disk.dirs.Keys;
      while rest != {}
        invariant Valid() && Calm(t0, d0, trace, disk) && rest <= disk.dirs.Keys <= d0.dirs.Keys
        invariant faults >= old(faults)
        invariant faults == old(faults) ==> forall name | name in disk.dirs && Temporary(name) :: name in rest
        invariant forall name | name in d0.dirs && !Temporary(name) ::
          name in disk.dirs && disk.dirs[name] == d0.dirs[name]
        invariant removed == |d0.dirs.Keys| - |disk.dirs.Keys|
        decreases rest
      {
        var name :| name in rest;
        rest := rest - {name};
        if Temporary(name) {
          ghost var t1, d1 := trace, disk;
          var ok := RemoveTree(name);
          CalmTwice(t0, d0, t1, d1, trace, disk);
          OnlyDirOthers(d1, disk, name);
          assert disk.dirs.Keys == if ok then d1.dirs.Keys - {name} else d1.dirs.Keys;
          if ok { removed := removed + 1; }
        }
      }
      forall name: string ensures Temporary(name) <==> "tmp-" <= name { TemporaryIff(name); }
    }
  }

  method Walk(t: Tree) returns (walk: seq<string>)
    ensures NoRepeats(walk) && forall p :: p in walk <==> p in t
  {
    walk := [];
    var rest := t.Keys;
    while rest != {}
      invariant NoRepeats(walk) && rest <= t.Keys && forall p :: p in walk <==> p in t.Keys - rest
      decreases rest
    {
      var p :| p in rest;
      assert p !in walk;
      walk, rest := walk + [p], rest - {p};
    }
  }

  /** What the directory of a published generation holds, part by part, in terms of what the refresh was given. */
  ghost predicate PublishedParts(inputs: Inputs, dir: Dir) {
    && dir.systems.Some? && dir.cores.Some? && dir.info.Some?
    && if inputs.contributed
       then inputs.merged.Some?
            && dir.systems.value == inputs.merged.value.systems && dir.cores.value == inputs.merged.value.cores
            && LaidOver(inputs.info, inputs.merged.value.rows, inputs.paks, inputs.files, dir.info.value)
       else inputs.systems == dir.systems && inputs.cores == dir.cores && inputs.info == dir.info.value
  }

  /** The generation that a refresh publishes holds the merged documents and the info files laid over the release's. */
  lemma PublishedHolds(hash: string -> string, platform: string, inputs: Inputs, c: Compiled, d: Disk, o: Outcome)
    requires CompilesTo(hash, platform, inputs, c) && Holds(hash, d, o, c, inputs.rival) && o.Published?
    requires inputs.rival.None?
    ensures o.name in d.dirs && PublishedParts(inputs, d.dirs[o.name])
  {
    hide Stream, LaidOver, Stamped, StampBytes;
    if inputs.contributed {
      OverlayIsLaidOver(inputs.info, inputs.merged.value.rows, inputs.paks, inputs.files);
    }
  }

  lemma SoundLast(hash: string -> string, trace: seq<Disk>)
    requires Sound(hash, trace)
    ensures Wholesome(hash, trace[|trace| - 1])
  {
  }
}
