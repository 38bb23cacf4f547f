/** The catalog merge: its inputs, and what it decides about each of them. */
module MergeModel {
  import opened Wrappers
  import opened CStrings
  import opened Sorting
  import opened CanonicalJson

  // ---------------------------------------------------------------- inputs and output

  /** A system or a core row. Absent strings read as "". `extra` holds the fields the merge only copies. */
  datatype Entry =
    | System(id: string, romRoot: string, imageRoot: string, patterns: seq<string>, defaultCore: string,
             alternates: Option<seq<string>>, extra: Value)
    | Core(id: string, configFolder: string, infoName: string, extra: Value)

  datatype Extension = Extension(systemId: string, addCores: seq<string>)

  datatype Contributor =
    Contributor(provider: string, systems: seq<Entry>, cores: seq<Entry>, extensions: seq<Extension>)

  datatype Base = Base(platform: string, systems: seq<Entry>, cores: seq<Entry>)

  /** A row of the merged catalog; a release row has no provider. */
  datatype Row = Row(entry: Entry, provider: Option<string>)

  datatype Diagnostic = Diagnostic(provider: string, reason: string, detail: string)

  datatype Catalog = Catalog(platform: string, systems: seq<Row>, cores: seq<Row>)

  datatype Candidate = Candidate(provider: string, entry: Entry)

  // ---------------------------------------------------------------- claims

  datatype Claim = Claim(kind: string, value: string)

  function KindName(e: Entry): string {
    if e.System? then "system" else "core"
  }

  ghost function ClaimSet(e: Entry): set<Claim> {
    match e
    case System(id, romRoot, imageRoot, patterns, _, _, _) =>
      {Claim("system_id", Fold(id)), Claim("rom_root", Fold(romRoot)), Claim("image_root", Fold(imageRoot))}
      + set p | p in patterns :: Claim("pattern", Fold(p))
    case Core(id, folder, info, _) =>
      {Claim("core_id", Fold(id))}
      + (if folder != "" then {Claim("config_folder", Fold(folder))} else {})
      + (if info != "" then {Claim("info_name", Fold(Basename(info)))} else {})
  }

  predicate ClaimLe(a: Claim, b: Claim) {
    if a.kind != b.kind then StrLe(a.kind, b.kind) else StrLe(a.value, b.value)
  }

  lemma ClaimLeIsComparison()
    ensures Comparison(ClaimLe)
  {
    forall x, y ensures ClaimLe(x, y) || ClaimLe(y, x) {
      StrLeTotal(x.kind, y.kind); StrLeTotal(x.value, y.value);
    }
    forall x, y, z | ClaimLe(x, y) && ClaimLe(y, z) ensures ClaimLe(x, z) {
      if x.kind != y.kind && y.kind != z.kind {
        StrLeTransitive(x.kind, y.kind, z.kind);
        if x.kind == z.kind { StrLeAntisymmetric(x.kind, y.kind); }
      } else if x.kind == y.kind == z.kind {
        StrLeTransitive(x.value, y.value, z.value);
      }
    }
  }

  lemma NoClaimTies(s: seq<Claim>)
    ensures NoTies(s, ClaimLe)
  {
    forall x, y | x in s && y in s && ClaimLe(x, y) && ClaimLe(y, x) ensures x == y {
      if x.kind != y.kind { StrLeAntisymmetric(x.kind, y.kind); } else { StrLeAntisymmetric(x.value, y.value); }
    }
  }

  /** An entry's claims in `claim_compare` order. */
  ghost function Owned(e: Entry): (r: seq<Claim>)
    ensures Lists(r, ClaimSet(e), ClaimLe)
  {
    ClaimLeIsComparison();
    SortedSet(ClaimSet(e), ClaimLe)
  }

  ghost function BaseClaims(base: Base): set<Claim> {
    (set e, k | e in base.systems && k in ClaimSet(e) :: k) + (set e, k | e in base.cores && k in ClaimSet(e) :: k)
  }

  // ---------------------------------------------------------------- what is decided about a candidate

  function ByProvider(provider: string, entries: seq<Entry>): seq<Candidate> {
    seq(|entries|, i requires 0 <= i < |entries| => Candidate(provider, entries[i]))
  }

  function Offered(c: Contributor): seq<Candidate> {
    ByProvider(c.provider, c.systems) + ByProvider(c.provider, c.cores)
  }

  /** All candidates in enumeration order. */
  ghost function Candidates(cs: seq<Contributor>): seq<Candidate> {
    FlatMap(Offered, cs)
  }

  ghost function FlatMap<T, U>(f: T -> seq<U>, s: seq<T>): seq<U>
    decreases |s|
  {
    if s == [] then [] else FlatMap(f, s[..|s| - 1]) + f(s[|s| - 1])
  }

  /** Everything a decision may depend on; nothing in it has an order. */
  datatype Context = Context(release: set<Claim>, all: set<Candidate>)

  /** Stage 2: the release already owns one of the claims. */
  ghost predicate BaseHit(x: Context, c: Candidate) {
    ClaimSet(c.entry) * x.release != {}
  }

  /** Stage 3: another provider's entry that survived stage 2 claims `k` as well. */
  ghost predicate Contests(x: Context, c: Candidate, k: Claim) {
    k in ClaimSet(c.entry) && exists d ::
      d in x.all && d.provider != c.provider && !BaseHit(x, d) && k in ClaimSet(d.entry)
  }

  ghost predicate Contested(x: Context, c: Candidate) {
    !BaseHit(x, c) && exists k :: Contests(x, c, k)
  }

  ghost predicate RefusedEarly(x: Context, c: Candidate) {
    BaseHit(x, c) || Contested(x, c)
  }

  /** Folded ids of the cores there are after stage 3. */
  ghost function CoreIds(x: Context, base: Base): set<string> {
    (set e | e in base.cores :: Fold(e.id))
      + (set c | c in x.all && c.entry.Core? && !RefusedEarly(x, c) :: Fold(c.entry.id))
  }

  ghost function RefusedCoreIds(x: Context): set<string> {
    set c | c in x.all && c.entry.Core? && RefusedEarly(x, c) :: Fold(c.entry.id)
  }

  /** Stage 4: a system whose default core is gone. */
  ghost predicate RefusedLate(x: Context, base: Base, c: Candidate) {
    c.entry.System? && !RefusedEarly(x, c) && Fold(c.entry.defaultCore) !in CoreIds(x, base)
  }

  ghost predicate Survives(x: Context, base: Base, c: Candidate) {
    !RefusedEarly(x, c) && !RefusedLate(x, base, c)
  }

  ghost function SystemIds(x: Context, base: Base): set<string> {
    (set e | e in base.systems :: Fold(e.id))
      + (set c | c in x.all && c.entry.System? && Survives(x, base, c) :: Fold(c.entry.id))
  }

  ghost function ContextOf(base: Base, cs: seq<Contributor>): Context {
    Context(BaseClaims(base), set c | c in Candidates(cs))
  }

  // ---------------------------------------------------------------- diagnostics

  function Join(parts: seq<string>): string {
    if parts == [] then ""
    else if |parts| == 1 then parts[0]
    else Join(parts[..|parts| - 1]) + ", " + parts[|parts| - 1]
  }

  ghost function Hits(x: Context, owned: seq<Claim>): seq<string> {
    if owned == [] then []
    else
      var k := owned[|owned| - 1];
      Hits(x, owned[..|owned| - 1]) + (if k in x.release then [k.kind + "=" + k.value] else [])
  }

  ghost function BaseCollision(x: Context, c: Candidate): Diagnostic {
    Diagnostic(c.provider, "base-collision",
      KindName(c.entry) + " " + c.entry.id + " claims "
        + Join(Hits(x, Owned(c.entry))) + " already owned by the release catalog")
  }

  /** The first of the sorted claims that is contested. */
  ghost function FirstContested(x: Context, c: Candidate): (k: Claim)
    requires Contested(x, c)
    ensures Contests(x, c, k) && forall l :: Contests(x, c, l) ==> ClaimLe(k, l)
  {
    LeastContestedExists(x, c);
    var k :| Contests(x, c, k) && forall l :: Contests(x, c, l) ==> ClaimLe(k, l);
    k
  }

  lemma LeastContestedExists(x: Context, c: Candidate)
    requires Contested(x, c)
    ensures exists k :: Contests(x, c, k) && forall l :: Contests(x, c, l) ==> ClaimLe(k, l)
  {
    ClaimLeIsComparison();
    var s := set k | k in ClaimSet(c.entry) && Contests(x, c, k);
    var r := SortedSet(s, ClaimLe);
    var k0 :| Contests(x, c, k0);
    assert k0 in r;
    forall l | Contests(x, c, l) ensures ClaimLe(r[0], l) {
      assert l in s && l in r;
      FirstIsLeast(r, l, ClaimLe);
    }
    assert r[0] in s;
  }

  /** The other providers that claim `k`, refused entries included. */
  ghost function Rivals(x: Context, c: Candidate, k: Claim): (r: seq<string>) {
    StrLeIsComparison();
    SortedSet(set d | d in x.all && d.provider != c.provider && k in ClaimSet(d.entry) :: d.provider, StrLe)
  }

  ghost function ContributorCollision(x: Context, c: Candidate): Diagnostic
    requires Contested(x, c)
  {
    var k := FirstContested(x, c);
    Diagnostic(c.provider, "contributor-collision",
      KindName(c.entry) + " " + c.entry.id + " claims " + k.kind + "=" + k.value + ", also claimed by "
      + Join(Rivals(x, c, k)) + "; both refused")
  }

  ghost function MissingCore(x: Context, c: Candidate): Diagnostic
    requires c.entry.System?
  {
    Diagnostic(c.provider,
      if Fold(c.entry.defaultCore) in RefusedCoreIds(x) then "default-core-unavailable" else "unknown-default-core",
      "system " + c.entry.id + " needs core " + c.entry.defaultCore + ", which is not available after merge; "
      + "the system is refused too rather than producing a tile that cannot launch")
  }

  function DanglingSystem(provider: string, systemId: string): Diagnostic {
    Diagnostic(provider, "dangling-extension-system",
      "system_extensions names " + systemId + ", which no system provides after merge; extension dropped")
  }

  function DanglingCore(provider: string, systemId: string, coreId: string): Diagnostic {
    Diagnostic(provider, "dangling-alternate-core",
      "system_extensions for " + systemId + " names core " + coreId + ", absent after merge; "
      + "that name dropped, extension accepted")
  }

  // The reports of one element, as functions of the element.

  ghost function Stage2(x: Context): Candidate -> seq<Diagnostic> {
    (c: Candidate) => if BaseHit(x, c) then [BaseCollision(x, c)] else []
  }

  ghost function Stage3(x: Context): Candidate -> seq<Diagnostic> {
    (c: Candidate) => if Contested(x, c) then [ContributorCollision(x, c)] else []
  }

  ghost function Stage4(x: Context, base: Base): Candidate -> seq<Diagnostic> {
    (c: Candidate) => if RefusedLate(x, base, c) then [MissingCore(x, c)] else []
  }

  ghost function DanglingNames(provider: string, systemId: string, coreIds: set<string>): string -> seq<Diagnostic> {
    (name: string) => if Fold(name) in coreIds then [] else [DanglingCore(provider, systemId, name)]
  }

  /** One extension with the contributor it comes from. */
  datatype Sourced = Sourced(provider: string, extension: Extension)

  function Extends(c: Contributor): seq<Sourced> {
    seq(|c.extensions|, i requires 0 <= i < |c.extensions| => Sourced(c.provider, c.extensions[i]))
  }

  ghost function Extensions(cs: seq<Contributor>): seq<Sourced> {
    FlatMap(Extends, cs)
  }

  ghost function Stage5(systemIds: set<string>, coreIds: set<string>): Sourced -> seq<Diagnostic> {
    (s: Sourced) => if Fold(s.extension.systemId) !in systemIds then [DanglingSystem(s.provider, s.extension.systemId)]
         else FlatMap(DanglingNames(s.provider, s.extension.systemId, coreIds), s.extension.addCores)
  }

  predicate DiagnosticLe(a: Diagnostic, b: Diagnostic) {
    if a.provider != b.provider then StrLe(a.provider, b.provider)
    else if a.reason != b.reason then StrLe(a.reason, b.reason)
    else StrLe(a.detail, b.detail)
  }

  lemma DiagnosticLeIsComparison()
    ensures Comparison(DiagnosticLe)
  {
    forall x, y ensures DiagnosticLe(x, y) || DiagnosticLe(y, x) {
      StrLeTotal(x.provider, y.provider); StrLeTotal(x.reason, y.reason); StrLeTotal(x.detail, y.detail);
    }
    forall x, y, z | DiagnosticLe(x, y) && DiagnosticLe(y, z) ensures DiagnosticLe(x, z) {
      if StrLe(x.provider, y.provider) && StrLe(y.provider, z.provider) {
        StrLeTransitive(x.provider, y.provider, z.provider);
      }
      if StrLe(x.reason, y.reason) && StrLe(y.reason, z.reason) { StrLeTransitive(x.reason, y.reason, z.reason); }
      if StrLe(x.detail, y.detail) && StrLe(y.detail, z.detail) { StrLeTransitive(x.detail, y.detail, z.detail); }
      if StrLe(x.provider, y.provider) && StrLe(y.provider, x.provider) { StrLeAntisymmetric(x.provider, y.provider); }
      if StrLe(x.reason, y.reason) && StrLe(y.reason, x.reason) { StrLeAntisymmetric(x.reason, y.reason); }
    }
  }

  lemma NoDiagnosticTies(s: seq<Diagnostic>)
    ensures NoTies(s, DiagnosticLe)
  {
    forall x, y | x in s && y in s && DiagnosticLe(x, y) && DiagnosticLe(y, x) ensures x == y {
      if x.provider != y.provider { StrLeAntisymmetric(x.provider, y.provider); }
      else if x.reason != y.reason { StrLeAntisymmetric(x.reason, y.reason); }
      else { StrLeAntisymmetric(x.detail, y.detail); }
    }
  }

  /** Every report, in the order the stages make them. */
  ghost function Reports(base: Base, cs: seq<Contributor>): seq<Diagnostic> {
    var x := ContextOf(base, cs);
    FlatMap(Stage2(x), Candidates(cs)) + FlatMap(Stage3(x), Candidates(cs)) + FlatMap(Stage4(x, base), Candidates(cs))
    + FlatMap(Stage5(SystemIds(x, base), CoreIds(x, base)), Extensions(cs))
  }

  // ---------------------------------------------------------------- the rows

  /** `clear_forbidden`: fields a contributor may not set disappear at every depth. */
  predicate Forbidden(key: string) {
    key in {"requires_direct_drm", "legacy_flat_core", "name_map", "status"}
  }

  function Cleared(v: Value): Value
    decreases v, 1, 0
  {
    match v
    case Arr(items) => Arr(ClearedItems(v, items))
    case Obj(ms) => Obj(ClearedMembers(v, ms))
    case _ => v
  }

  function ClearedItems(v: Value, rest: seq<Value>): (r: seq<Value>)
    requires v.Arr? && forall x | x in rest :: x in v.items
    ensures |r| == |rest|
    decreases v, 0, |rest|
  {
    if rest == [] then []
    else ElementIsSmaller(v, rest[0]); [Cleared(rest[0])] + ClearedItems(v, rest[1..])
  }

  function ClearedMembers(v: Value, rest: seq<Member>): seq<Member>
    requires v.Obj? && forall m | m in rest :: m in v.members
    decreases v, 0, |rest|
  {
    if rest == [] then []
    else
      MemberIsSmaller(v, rest[0]);
      (if Forbidden(rest[0].key) then [] else [Member(rest[0].key, Cleared(rest[0].value))])
        + ClearedMembers(v, rest[1..])
  }

  /** The copy of a surviving entry that goes into the catalog; a core also becomes "packaged" without direct DRM. */
  function Adopted(c: Candidate): Row {
    var extra := Cleared(c.entry.extra);
    var stamped := if c.entry.Core? && extra.Obj?
      then Obj(extra.members + [Member("status", Str("packaged")), Member("requires_direct_drm", Bool(false))])
      else extra;
    Row(c.entry.(extra := stamped), Some(c.provider))
  }

  function ReleaseRows(entries: seq<Entry>): seq<Row> {
    seq(|entries|, i requires 0 <= i < |entries| => Row(entries[i], None))
  }

  ghost function SystemRow(x: Context, base: Base): Candidate -> seq<Row> {
    (c: Candidate) => if c.entry.System? && Survives(x, base, c) then [Adopted(c)] else []
  }

  ghost function CoreRow(x: Context, base: Base): Candidate -> seq<Row> {
    (c: Candidate) => if c.entry.Core? && Survives(x, base, c) then [Adopted(c)] else []
  }

  /** Rows before the extensions: the release first, then the survivors in enumeration order. */
  ghost function SystemRows(x: Context, base: Base, all: seq<Candidate>): seq<Row> {
    ReleaseRows(base.systems) + FlatMap(SystemRow(x, base), all)
  }

  ghost function CoreRows(x: Context, base: Base, all: seq<Candidate>): seq<Row> {
    ReleaseRows(base.cores) + FlatMap(CoreRow(x, base), all)
  }

  /** `strcasecmp` against every name so far. */
  predicate ContainsFolded(names: seq<string>, name: string) {
    exists i :: 0 <= i < |names| && Fold(names[i]) == Fold(name)
  }

  /** Stage 5 on one list of alternates: append each name that exists as a core and is not listed yet. */
  ghost function AddNames(alternates: seq<string>, names: seq<string>, coreIds: set<string>): seq<string>
    decreases |names|
  {
    if names == [] then alternates
    else
      var before := AddNames(alternates, names[..|names| - 1], coreIds);
      var name := names[|names| - 1];
      if Fold(name) !in coreIds || ContainsFolded(before, name) then before else before + [name]
  }

  ghost function FirstWithId(rows: seq<Row>, id: string): Option<nat> {
    if rows == [] then None
    else
      var earlier := FirstWithId(rows[..|rows| - 1], id);
      if earlier.Some? then earlier
      else if Fold(rows[|rows| - 1].entry.id) == Fold(id) then Some(|rows| - 1) else None
  }

  ghost predicate AllSystems(rows: seq<Row>) {
    forall r | r in rows :: r.entry.System?
  }

  function Listed(alternates: Option<seq<string>>): seq<string> {
    if alternates.Some? then alternates.value else []
  }

  lemma FirstWithIdInRange(rows: seq<Row>, id: string)
    ensures FirstWithId(rows, id).Some? ==>
      && FirstWithId(rows, id).value < |rows|
      && Fold(rows[FirstWithId(rows, id).value].entry.id) == Fold(id)
    ensures FirstWithId(rows, id).None? ==> forall i | 0 <= i < |rows| :: Fold(rows[i].entry.id) != Fold(id)
  {
    if rows != [] { FirstWithIdInRange(rows[..|rows| - 1], id); }
  }

  ghost function Extended(rows: seq<Row>, e: Extension, coreIds: set<string>): (r: seq<Row>)
    requires AllSystems(rows)
    ensures |r| == |rows| && AllSystems(r)
  {
    FirstWithIdInRange(rows, e.systemId);
    match FirstWithId(rows, e.systemId)
    case None => rows
    case Some(i) =>
      var alternates := AddNames(Listed(rows[i].entry.alternates), e.addCores, coreIds);
      rows[i := rows[i].(entry := rows[i].entry.(alternates := Some(alternates)))]
  }

  ghost function ExtendAll(rows: seq<Row>, es: seq<Sourced>, coreIds: set<string>): (r: seq<Row>)
    requires AllSystems(rows)
    ensures |r| == |rows| && AllSystems(r)
    decreases |es|
  {
    if es == [] then rows
    else Extended(ExtendAll(rows, es[..|es| - 1], coreIds), es[|es| - 1].extension, coreIds)
  }

  predicate IdLe(a: Row, b: Row) {
    StrLe(a.entry.id, b.entry.id)
  }

  lemma IdLeIsComparison()
    ensures Comparison(IdLe)
  {
    StrLeIsComparison();
  }

  // ---------------------------------------------------------------- what the merge may assume

  ghost predicate DistinctIds(es: seq<Entry>) {
    forall i, j | 0 <= i < j < |es| :: Fold(es[i].id) != Fold(es[j].id)
  }

  /** Validated inputs: rows in their own arrays, no provider twice, no id twice in one document. */
  ghost predicate ValidInput(base: Base, cs: seq<Contributor>) {
    && (forall e | e in base.systems :: e.System?) && (forall e | e in base.cores :: e.Core?)
    && DistinctIds(base.systems) && DistinctIds(base.cores)
    && (forall i, j | 0 <= i < j < |cs| :: cs[i].provider != cs[j].provider)
    && forall c | c in cs ::
      && (forall e | e in c.systems :: e.System?) && (forall e | e in c.cores :: e.Core?)
      && DistinctIds(c.systems) && DistinctIds(c.cores)
  }

  /** What the merge hands back: sorted rows and sorted reports. Any sorting algorithm may have produced them. */
  ghost predicate IsMerge(base: Base, cs: seq<Contributor>, catalog: Catalog, diagnostics: seq<Diagnostic>) {
    var x, all := ContextOf(base, cs), Candidates(cs);
    && catalog.platform == base.platform
    && AllSystems(SystemRows(x, base, all))
    && SortedBy(catalog.systems, IdLe)
    && Permuted(catalog.systems, ExtendAll(SystemRows(x, base, all), Extensions(cs), CoreIds(x, base)))
    && SortedBy(catalog.cores, IdLe) && Permuted(catalog.cores, CoreRows(x, base, all))
    && SortedBy(diagnostics, DiagnosticLe) && Permuted(diagnostics, Reports(base, cs))
  }
}
