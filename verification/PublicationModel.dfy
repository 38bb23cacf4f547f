/** The catalog directory as readers see it, and what every state of it must satisfy. */
module PublicationModel {
  import opened Wrappers
  import opened CStrings
  import opened TreeFraming
  import opened JsonEmitter
  import opened CanonicalJson
  import opened JsonReader
  import opened StampReader

  /** One directory below the catalog directory; a part that is not there yet is `None`. */
  datatype Dir = Dir(systems: Option<string>, cores: Option<string>, info: Option<Tree>, stamp: Option<string>)

  const EMPTY_DIR := Dir(None, None, None, None)

  datatype Disk = Disk(dirs: map<string, Dir>, selector: Option<string>,
    selectorTmp: Option<string>, diagnostics: Option<string>)

  // ---------------------------------------------------------------- names and the selector

  predicate HexDigit(c: char) {
    '0' <= c <= '9' || 'a' <= c <= 'f'
  }

  predicate Hex64(s: string) {
    |s| == 64 && forall i | 0 <= i < 64 :: HexDigit(s[i])
  }

  /** "gen-" and 64 lower-case hexadecimal digits. */
  predicate GenName(name: string) {
    |name| == 68 && name[..4] == "gen-" && Hex64(name[4..])
  }

  function ParseSelector(raw: string): Option<string> {
    var s := CString(raw);
    if |s| == 69 && s[68] == '\n' && GenName(s[..68]) then Some(s[..68]) else None
  }

  method MeasureCString(raw: string) returns (len: nat)
    ensures len <= |raw| && CString(raw) == raw[..len]
  {
    len := 0;
    while len < |raw| && raw[len] != NUL
      invariant len <= |raw| && CString(raw) == raw[..len] + CString(raw[len..])
    {
      assert raw[len..][1..] == raw[len + 1..];
      assert raw[..len] + ([raw[len]] + CString(raw[len + 1..])) == raw[..len + 1] + CString(raw[len + 1..]);
      len := len + 1;
    }
    assert raw[..len] + [] == raw[..len];
  }

  /** jw_catalog_parse_selector */
  method ReadSelector(raw: string) returns (r: Option<string>)
    ensures r == ParseSelector(raw)
  {
    var len := MeasureCString(raw);
    if len != 69 || raw[len - 1] != '\n' {
      return None;
    }
    if raw[..4] != "gen-" {
      return None;
    }
    ghost var name := raw[..len][..68];
    assert name[..4] == raw[..4];
    for i := 4 to len - 1
      invariant forall k | 4 <= k < i :: HexDigit(raw[k])
    {
      if !HexDigit(raw[i]) {
        assert name[4..][i - 4] == raw[i];
        return None;
      }
    }
    assert raw[..len - 1] == name;
    return Some(raw[..len - 1]);
  }

  lemma {:induction false} CStringOfClean(s: string)
    requires NulFree(s)
    ensures CString(s) == s
    decreases |s|
  {
    if s != [] {
      CStringOfClean(s[1..]);
      assert s == [s[0]] + s[1..];
    }
  }

  /** What the producer writes is read back, and nothing else that differs in a visible byte is accepted. */
  lemma SelectorRoundTrip(name: string, raw: string)
    ensures GenName(name) ==> ParseSelector(name + "\n") == Some(name)
    ensures ParseSelector(raw) == Some(name) <==> GenName(name) && CString(raw) == name + "\n"
  {
    if GenName(name) {
      assert name == name[..4] + name[4..];
      assert forall i | 0 <= i < 68 :: name[i] == if i < 4 then "gen-"[i] else name[4..][i - 4];
      CStringOfClean(name + "\n");
      assert (name + "\n")[..68] == name;
    }
    if ParseSelector(raw).Some? {
      var s := CString(raw);
      assert s == s[..68] + [s[68]];
    }
  }

  // ---------------------------------------------------------------- whole generations

  /** The directory holds every output, the outputs its stamp fingerprints, and bears the digest of that stamp. */
  ghost predicate Stamped(hash: string -> string, name: string, dir: Dir, t: Stamp) {
    && CleanStamp(t)
    && dir.stamp == Some(StampBytes(t)) && name == "gen-" + hash(StampBytes(t))
    && dir.systems.Some? && hash(dir.systems.value) == t.output.systems
    && dir.cores.Some? && hash(dir.cores.value) == t.output.cores
    && dir.info.Some? && hash(Stream(dir.info.value)) == t.output.info
  }

  ghost predicate Genuine(hash: string -> string, name: string, dir: Dir) {
    exists t :: Stamped(hash, name, dir, t)
  }

  ghost predicate Wholesome(hash: string -> string, d: Disk) {
    forall name | name in d.dirs && GenName(name) :: Genuine(hash, name, d.dirs[name])
  }

  /** Every generation of `d` is still in `e`, unchanged. */
  ghost predicate Persists(d: Disk, e: Disk) {
    forall name | name in d.dirs && GenName(name) :: name in e.dirs && e.dirs[name] == d.dirs[name]
  }

  /** A history of the catalog directory, one state per filesystem call. */
  ghost predicate Sound(hash: string -> string, trace: seq<Disk>) {
    && trace != []
    && (forall i | 0 <= i < |trace| :: Wholesome(hash, trace[i]))
    && (forall i, j | 0 <= i <= j < |trace| :: Persists(trace[i], trace[j]))
  }

  lemma SoundStep(hash: string -> string, trace: seq<Disk>, d: Disk)
    requires Sound(hash, trace) && Wholesome(hash, d) && Persists(trace[|trace| - 1], d)
    ensures Sound(hash, trace + [d])
  {
    hide Wholesome;
    forall i, j | 0 <= i <= j < |trace + [d]| ensures Persists((trace + [d])[i], (trace + [d])[j]) {
      if i < |trace| == j { assert Persists(trace[i], trace[|trace| - 1]); }
    }
  }

  /** A crash keeps some beginning of the history; it is as sound as the whole. */
  lemma CrashIsSound(hash: string -> string, trace: seq<Disk>, n: nat)
    requires Sound(hash, trace) && 0 < n <= |trace|
    ensures Sound(hash, trace[..n])
  {
    hide Wholesome, Persists;
  }

  /** Every generation directory of the history is whole from its first appearance on, and never changes. */
  lemma GenerationsAreForever(hash: string -> string, trace: seq<Disk>, i: nat, j: nat, name: string)
    requires Sound(hash, trace) && i <= j < |trace| && GenName(name) && name in trace[i].dirs
    ensures name in trace[j].dirs && trace[j].dirs[name] == trace[i].dirs[name]
    ensures Genuine(hash, name, trace[j].dirs[name])
  {
    hide Genuine;
    assert Persists(trace[i], trace[j]) && Wholesome(hash, trace[j]);
  }

  // ---------------------------------------------------------------- readers

  datatype Header = Header(schema: nat, platform: string, releaseId: string)

  datatype Resolution = Effective(name: string) | ReleaseDefaults(reason: string)

  /** The parser finds the three checked fields of a stamp this program wrote. About other texts nothing is assumed. */
  ghost predicate ReadsStamps(header: string -> Option<Header>) {
    forall t | CleanStamp(t) :: header(StampBytes(t)) == Some(Header(1, t.platform, t.releaseId))
  }

  /** `jw_cat__read_file` */
  function Readable(file: Option<string>): Option<string> {
    if file.Some? && |file.value| <= MAX_FILE_BYTES then file else None
  }

  /** A reader makes six accesses; `view` holds the disk at each of them. */
  predicate View(view: seq<Disk>) {
    |view| == 6
  }

  /** jw_catalog_effective_dir: each check looks at the disk as it is when the check is made. */
  method EffectiveDir(view: seq<Disk>, releaseId: Option<string>, platform: string, header: string -> Option<Header>)
    returns (r: Resolution)
    requires View(view)
    ensures r == Resolve(view, releaseId, platform, header)
  {
    if releaseId.None? {
      return ReleaseDefaults("release-identity-unavailable");
    }
    var raw := Readable(view[0].selector);
    if raw.None? {
      return ReleaseDefaults("selector-missing");
    }
    var name := ReadSelector(raw.value);
    if name.None? {
      return ReleaseDefaults("selector-malformed");
    }
    if name.value !in view[1].dirs {
      return ReleaseDefaults("generation-missing");
    }
    if !HasPart(view[2], name.value, Systems) || !HasPart(view[3], name.value, Cores)
       || !HasPart(view[4], name.value, Info)
    {
      return ReleaseDefaults("generation-missing");
    }
    var text := StampText(view[5], name.value);
    if text.None? {
      return ReleaseDefaults("stamp-missing");
    }
    var stamp := header(text.value);
    if stamp.None? {
      return ReleaseDefaults("stamp-missing");
    }
    if stamp.value.schema != 1 {
      return ReleaseDefaults("stamp-schema-unsupported");
    }
    if stamp.value.platform != platform {
      return ReleaseDefaults("stamp-platform-mismatch");
    }
    if stamp.value.releaseId != releaseId.value {
      return ReleaseDefaults("stamp-release-mismatch");
    }
    return Effective(name.value);
  }

  datatype Part = Systems | Cores | Info | StampFile

  predicate HasPart(d: Disk, name: string, part: Part) {
    name in d.dirs && match part
      case Systems => d.dirs[name].systems.Some?
      case Cores => d.dirs[name].cores.Some?
      case Info => d.dirs[name].info.Some?
      case StampFile => d.dirs[name].stamp.Some?
  }

  function StampText(d: Disk, name: string): Option<string> {
    if name in d.dirs then Readable(d.dirs[name].stamp) else None
  }

  /** The answer is EFFECTIVE only when all six looks agree. */
  function Resolve(view: seq<Disk>, releaseId: Option<string>, platform: string,
                   header: string -> Option<Header>): Resolution
    requires View(view)
  {
    if releaseId.None? then ReleaseDefaults("release-identity-unavailable")
    else
      var raw := Readable(view[0].selector);
      if raw.None? then ReleaseDefaults("selector-missing")
      else if ParseSelector(raw.value).None? then ReleaseDefaults("selector-malformed")
      else
        var name := ParseSelector(raw.value).value;
        if !(name in view[1].dirs && HasPart(view[2], name, Systems) && HasPart(view[3], name, Cores)
             && HasPart(view[4], name, Info))
        then ReleaseDefaults("generation-missing")
        else
          var text := StampText(view[5], name);
          if text.None? || header(text.value).None? then ReleaseDefaults("stamp-missing")
          else
            var stamp := header(text.value).value;
            if stamp.schema != 1 then ReleaseDefaults("stamp-schema-unsupported")
            else if stamp.platform != platform then ReleaseDefaults("stamp-platform-mismatch")
            else if stamp.releaseId != releaseId.value then ReleaseDefaults("stamp-release-mismatch")
            else Effective(name)
  }

  /** The reader's six accesses fall on these moments of the history. */
  ghost predicate Looks(trace: seq<Disk>, at: seq<nat>, view: seq<Disk>) {
    && |at| == 6 && |view| == 6
    && (forall i | 0 <= i < 6 :: at[i] < |trace| && view[i] == trace[at[i]])
    && (forall i, j | 0 <= i <= j < 6 :: at[i] <= at[j])
  }

  /**
   * However a reader interleaves with the producer: an EFFECTIVE answer names a whole generation, stamped for the
   * installed release and this platform, and it stays that way for as long as the history goes on.
   */
  lemma ReaderIsSafe(hash: string -> string, trace: seq<Disk>, at: seq<nat>, view: seq<Disk>,
                     releaseId: Option<string>, platform: string, header: string -> Option<Header>, later: nat)
    requires Sound(hash, trace) && Looks(trace, at, view) && ReadsStamps(header)
    requires Resolve(view, releaseId, platform, header).Effective? && at[5] <= later < |trace|
    ensures var name := Resolve(view, releaseId, platform, header).name;
      && ParseSelector(trace[at[0]].selector.value) == Some(name) && name in trace[later].dirs
      && exists t ::
        Stamped(hash, name, trace[later].dirs[name], t) && t.platform == platform && releaseId == Some(t.releaseId)
  {
    hide Stamped, ReadsStamps, Sound, ParseSelector, GenName;
    var name := Resolve(view, releaseId, platform, header).name;
    NameIsGen(view[0].selector.value);
    GenerationsAreForever(hash, trace, at[1], at[5], name);
    GenerationsAreForever(hash, trace, at[5], later, name);
    var dir := trace[later].dirs[name];
    var t :| Stamped(hash, name, dir, t);
    HeaderOf(hash, name, dir, t, header);
  }

  /** The three checked fields under their JSON names. */
  function JsonHeader(text: string): Option<Header> {
    var r := ReadValue(text);
    if r.None? then None
    else
      var v := r.value.0;
      var platform, release := TextField(v, "platform"), TextField(v, "release_id");
      Some(Header(if Field(v, "schema") == Some(Num("1")) then 1 else 0,
                  if platform.Some? then platform.value else "", if release.Some? then release.value else ""))
  }

  /** A JSON parser that looks these fields up finds them in every stamp this program writes. */
  lemma StampHeaderReads()
    ensures ReadsStamps(JsonHeader)
  {
    hide StampBytes, CleanStamp, ReadValue, Field, HashesOf, ContributorOf;
    forall t | CleanStamp(t) ensures JsonHeader(StampBytes(t)) == Some(Header(1, t.platform, t.releaseId)) {
      StampReadsBack(t);
    }
  }

  /**
   * And whoever looks once the selector is there is told EFFECTIVE, unless the stamp is too large to be read back,
   * or of another release or platform.
   */
  lemma ReaderFindsPublished(hash: string -> string, trace: seq<Disk>, at: seq<nat>, view: seq<Disk>, name: string,
                             t: Stamp,
                             releaseId: Option<string>, platform: string, header: string -> Option<Header>)
    requires Sound(hash, trace) && Looks(trace, at, view) && ReadsStamps(header) && GenName(name)
    requires view[0].selector == Some(name + "\n") && name in view[0].dirs && Stamped(hash, name, view[0].dirs[name], t)
    requires releaseId.Some?
    ensures Resolve(view, releaseId, platform, header) ==
      if |StampBytes(t)| > MAX_FILE_BYTES then ReleaseDefaults("stamp-missing")
      else if platform != t.platform then ReleaseDefaults("stamp-platform-mismatch")
      else if releaseId.value != t.releaseId then ReleaseDefaults("stamp-release-mismatch")
      else Effective(name)
  {
    hide Stamped, ReadsStamps, Sound, ParseSelector, StampBytes;
    SelectorRoundTrip(name, "");
    forall i | 0 <= i < 6 ensures name in view[i].dirs && view[i].dirs[name] == view[0].dirs[name] {
      GenerationsAreForever(hash, trace, at[0], at[i], name);
    }
    HeaderOf(hash, name, view[0].dirs[name], t, header);
    PartsOf(hash, name, view[0].dirs[name], t);
    assert |name + "\n"| <= MAX_FILE_BYTES;
  }

  lemma PartsOf(hash: string -> string, name: string, dir: Dir, t: Stamp)
    requires Stamped(hash, name, dir, t)
    ensures dir.systems.Some? && dir.cores.Some? && dir.info.Some? && dir.stamp == Some(StampBytes(t))
  {
  }

  lemma NameIsGen(raw: string)
    ensures ParseSelector(raw).Some? ==> GenName(ParseSelector(raw).value)
  {
  }

  lemma HeaderOf(hash: string -> string, name: string, dir: Dir, t: Stamp, header: string -> Option<Header>)
    requires ReadsStamps(header) && Stamped(hash, name, dir, t)
    ensures dir.stamp.Some? && header(dir.stamp.value) == Some(Header(1, t.platform, t.releaseId))
  {
  }

  /** A reader that finds a given selector learns at most the generation this selector names. */
  lemma ReaderFollowsSelector(view: seq<Disk>, releaseId: Option<string>, platform: string,
                              header: string -> Option<Header>)
    requires View(view)
    ensures view[0].selector.None? ==> Resolve(view, releaseId, platform, header).ReleaseDefaults?
    ensures Resolve(view, releaseId, platform, header).Effective? ==>
      forall name | GenName(name) && view[0].selector == Some(name + "\n") ::
        Resolve(view, releaseId, platform, header).name == name
  {
    hide ParseSelector, GenName;
    forall name | GenName(name) && view[0].selector == Some(name + "\n")
      ensures ParseSelector(name + "\n") == Some(name)
    {
      SelectorRoundTrip(name, "");
    }
  }

  // ---------------------------------------------------------------- one refresh as seen in the history

  /**
   * The selector over the states a refresh adds: as found, then absent, then the new generation.
   * A stretch may be empty.
   */
  ghost predicate Timeline(before: seq<Disk>, after: seq<Disk>, k: nat, m: nat, found: Option<string>, name: string) {
    && before <= after && |before| <= k <= m <= |after|
    && (forall i | |before| <= i < k :: after[i].selector == found)
    && (forall i | k <= i < m :: after[i].selector == None)
    && (forall i | m <= i < |after| :: after[i].selector == Some(name + "\n"))
  }

  /** No generation appears in these states that was not there before. */
  ghost predicate NoneAppears(before: Disk, states: seq<Disk>) {
    forall i, name | 0 <= i < |states| && GenName(name) && name in states[i].dirs :: name in before.dirs
  }

  /** During the gap nobody is told EFFECTIVE; after it, nobody is told another name. */
  lemma GapIsDark(hash: string -> string, before: seq<Disk>, after: seq<Disk>, k: nat, m: nat, found: Option<string>,
                  name: string,
                  at: seq<nat>, view: seq<Disk>, releaseId: Option<string>,
                    platform: string, header: string -> Option<Header>)
    requires Timeline(before, after, k, m, found, name) && Looks(after, at, view) && at[0] >= k && GenName(name)
    ensures Resolve(view, releaseId, platform, header).Effective? ==>
      at[0] >= m && Resolve(view, releaseId, platform, header).name == name
  {
    hide GenName, Resolve;
    ReaderFollowsSelector(view, releaseId, platform, header);
  }

  // ---------------------------------------------------------------- the answers on a disk at rest

  /** "gen-", 64 lower-case hexadecimal digits, and nothing else. */
  predicate GenerationName(name: string) {
    |name| == 68 && "gen-" <= name
    && forall i | 4 <= i < 68 :: '0' <= name[i] <= '9' || 'a' <= name[i] <= 'f'
  }

  lemma GenNameIff(name: string)
    ensures GenName(name) <==> GenerationName(name)
  {
    if |name| == 68 {
      forall i ensures 0 <= i < 64 ==> name[4..][i] == name[i + 4] {
      }
      if GenName(name) {
        forall i | 4 <= i < 68 ensures HexDigit(name[i]) { assert HexDigit(name[4..][i - 4]); }
      }
    }
  }

  /** Which reason a reader gives when nothing changes while it looks. */
  lemma ReaderAtRest(d: Disk, releaseId: Option<string>, platform: string, header: string -> Option<Header>,
                     name: string)
    requires releaseId.Some?
    ensures var r := Resolve([d, d, d, d, d, d], releaseId, platform, header);
      && (r == ReleaseDefaults("selector-missing") <==> d.selector.None? || |d.selector.value| > 8_388_608)
      && (r == ReleaseDefaults("selector-malformed") <==>
            && d.selector.Some? && |d.selector.value| <= 8_388_608
            && !exists n :: GenerationName(n) && CString(d.selector.value) == n + "\n")
      && (d.selector == Some(name + "\n") && GenerationName(name) ==>
            && (r == ReleaseDefaults("generation-missing") <==>
                  name !in d.dirs || d.dirs[name].systems.None? || d.dirs[name].cores.None? || d.dirs[name].info.None?)
            && (r.Effective? ==> r.name == name))
  {
    hide ParseSelector, GenName, GenerationName;
    forall n ensures GenName(n) <==> GenerationName(n) { GenNameIff(n); }
    if d.selector.Some? {
      forall n
        ensures ParseSelector(d.selector.value) == Some(n) <==> GenName(n) && CString(d.selector.value) == n + "\n"
      {
        SelectorRoundTrip(n, d.selector.value);
      }
      if GenerationName(name) {
        SelectorRoundTrip(name, "");
        NameLength(name);
      }
    }
  }

  lemma NameLength(name: string)
    requires GenerationName(name)
    ensures |name + "\n"| == 69
  {
  }
}
