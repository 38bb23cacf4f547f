/** The compiled translation table: the compiler that lays it out, the loader that checks it, and the lookup. */
module TranslationTable {
  import opened Wrappers
  import opened CStrings
  import opened Sorting

  const WORD: nat := 0x1_0000_0000
  const MAX_BLOB: nat := 64 * 1024 * 1024
  const HEADER: nat := 24
  const MAGIC: string := ['J', 'W', 'I', '1', '8', 'N', NUL, NUL]

  predicate Bytes(s: string) {
    forall i | 0 <= i < |s| :: s[i] as int < 256
  }

  // ---------------------------------------------------------------- words

  /** Little-endian, four bytes. */
  function Le32(n: nat): (s: string)
    requires n < WORD
    ensures |s| == 4 && Bytes(s)
  {
    [(n % 256) as char, (n / 256 % 256) as char, (n / 256 / 256 % 256) as char, (n / 256 / 256 / 256) as char]
  }

  function Rd32(s: string): (n: nat)
    requires |s| == 4 && Bytes(s)
    ensures n < WORD
  {
    s[0] as int + 256 * (s[1] as int + 256 * (s[2] as int + 256 * (s[3] as int)))
  }

  lemma ReadsBack(n: nat)
    requires n < WORD
    ensures Rd32(Le32(n)) == n
  {
    var x, y := n / 256, n / 256 / 256;
    assert n == n % 256 + 256 * x && x == x % 256 + 256 * y && y == y % 256 + 256 * (y / 256);
  }

  lemma LowByte(b: nat, x: nat)
    requires b < 256
    ensures (b + 256 * x) % 256 == b && (b + 256 * x) / 256 == x
  {
  }

  lemma WritesBack(s: string)
    requires |s| == 4 && Bytes(s)
    ensures Le32(Rd32(s)) == s
  {
    var y := s[2] as int + 256 * (s[3] as int);
    var x := s[1] as int + 256 * y;
    LowByte(s[0] as int, x);
    LowByte(s[1] as int, y);
    LowByte(s[2] as int, s[3] as int);
    assert s == [s[0], s[1], s[2], s[3]];
  }

  // ---------------------------------------------------------------- the table and its layout

  datatype Entry = Entry(hash: nat, key: nat, value: nat)

  datatype Table = Table(entries: seq<Entry>, pool: string)

  predicate Words(e: Entry) {
    e.hash < WORD && e.key < WORD && e.value < WORD
  }

  function EntryBytes(e: Entry): (s: string)
    requires Words(e)
    ensures |s| == 12 && Bytes(s)
  {
    Le32(e.hash) + Le32(e.key) + Le32(e.value)
  }

  function EntriesBytes(es: seq<Entry>): (s: string)
    requires forall e | e in es :: Words(e)
    ensures |s| == 12 * |es| && Bytes(s)
  {
    if es == [] then "" else EntriesBytes(es[..|es| - 1]) + EntryBytes(es[|es| - 1])
  }

  /** What the loader accepts: every offset points into a pool that ends in NUL. */
  predicate Loadable(t: Table) {
    && |t.entries| < WORD && 0 < |t.pool| < WORD && t.pool[|t.pool| - 1] == NUL && Bytes(t.pool)
    && (forall e | e in t.entries :: e.hash < WORD && e.key < |t.pool| && e.value < |t.pool|)
    && HEADER + 12 * |t.entries| + |t.pool| <= MAX_BLOB
  }

  function HeaderBytes(count: nat, poolSize: nat, reserved: nat): (s: string)
    requires count < WORD && poolSize < WORD && reserved < WORD
    ensures |s| == HEADER
  {
    MAGIC + Le32(1) + Le32(count) + Le32(poolSize) + Le32(reserved)
  }

  /** magic, version, counts, a word nobody reads, entries, pool */
  function Blob(t: Table, reserved: nat): (s: string)
    requires Loadable(t) && reserved < WORD
    ensures |s| == HEADER + 12 * |t.entries| + |t.pool|
  {
    HeaderBytes(|t.entries|, |t.pool|, reserved) + EntriesBytes(t.entries) + t.pool
  }

  lemma HeaderFields(count: nat, poolSize: nat, reserved: nat, rest: string)
    requires count < WORD && poolSize < WORD && reserved < WORD
    ensures var s := HeaderBytes(count, poolSize, reserved) + rest;
      && s[..8] == MAGIC && s[8..12] == Le32(1) && s[12..16] == Le32(count) && s[16..20] == Le32(poolSize)
      && s[20..24] == Le32(reserved) && s[24..] == rest
  {
    var a, b, c, d := Le32(1), Le32(count), Le32(poolSize), Le32(reserved);
    var s := HeaderBytes(count, poolSize, reserved) + rest;
    assert s == MAGIC + (a + (b + (c + (d + rest))));
  }

  lemma EntryFields(e: Entry, before: string, rest: string)
    requires Words(e)
    ensures var s, n := before + EntryBytes(e) + rest, |before|;
      s[n..n + 4] == Le32(e.hash) && s[n + 4..n + 8] == Le32(e.key) && s[n + 8..n + 12] == Le32(e.value)
  {
    assert before + EntryBytes(e) + rest == before + (Le32(e.hash) + (Le32(e.key) + (Le32(e.value) + rest)));
  }

  // ---------------------------------------------------------------- the loader

  function EntryOf(blob: string, i: nat): Entry
    requires Bytes(blob) && HEADER + 12 * (i + 1) <= |blob|
  {
    var at := HEADER + 12 * i;
    Entry(Rd32(blob[at..at + 4]), Rd32(blob[at + 4..at + 8]), Rd32(blob[at + 8..at + 12]))
  }

  function CountOf(blob: string): nat
    requires Bytes(blob) && |blob| >= HEADER
  {
    Rd32(blob[12..16])
  }

  function PoolSizeOf(blob: string): nat
    requires Bytes(blob) && |blob| >= HEADER
  {
    Rd32(blob[16..20])
  }

  /** The geometry, checked before any offset is used. */
  predicate Sized(blob: string)
    requires Bytes(blob)
  {
    && HEADER <= |blob| <= MAX_BLOB && blob[..8] == MAGIC && Rd32(blob[8..12]) == 1
    && HEADER + 12 * CountOf(blob) + PoolSizeOf(blob) == |blob| && PoolSizeOf(blob) > 0 && blob[|blob| - 1] == NUL
  }

  predicate InPool(e: Entry, poolSize: nat) {
    e.key < poolSize && e.value < poolSize
  }

  predicate Accepted(blob: string)
    requires Bytes(blob)
  {
    Sized(blob) && forall i | 0 <= i < CountOf(blob) :: InPool(EntryOf(blob, i), PoolSizeOf(blob))
  }

  function Parsed(blob: string): Table
    requires Bytes(blob) && Sized(blob)
  {
    Table(seq(CountOf(blob), i requires 0 <= i < CountOf(blob) => EntryOf(blob, i)),
      blob[HEADER + 12 * CountOf(blob)..])
  }

  lemma EntryRewritten(blob: string, i: nat)
    requires Bytes(blob) && HEADER + 12 * (i + 1) <= |blob|
    ensures Words(EntryOf(blob, i)) && EntryBytes(EntryOf(blob, i)) == blob[HEADER + 12 * i..HEADER + 12 * (i + 1)]
  {
    var at := HEADER + 12 * i;
    WritesBack(blob[at..at + 4]); WritesBack(blob[at + 4..at + 8]); WritesBack(blob[at + 8..at + 12]);
    assert blob[at..at + 12] == blob[at..at + 4] + blob[at + 4..at + 8] + blob[at + 8..at + 12];
  }

  lemma {:induction false} EntriesRewritten(blob: string, es: seq<Entry>)
    requires Bytes(blob) && HEADER + 12 * |es| <= |blob| && forall i | 0 <= i < |es| :: es[i] == EntryOf(blob, i)
    ensures (forall e | e in es :: Words(e)) && EntriesBytes(es) == blob[HEADER..HEADER + 12 * |es|]
    decreases |es|
  {
    hide EntryOf, EntryBytes, Words;
    if es != [] {
      var n := |es| - 1;
      EntriesRewritten(blob, es[..n]);
      EntryRewritten(blob, n);
      assert blob[HEADER..HEADER + 12 * n]
        + blob[HEADER + 12 * n..HEADER + 12 * (n + 1)] == blob[HEADER..HEADER + 12 * |es|];
      assert es == es[..n] + [es[n]];
    }
  }

  lemma HeaderRewritten(blob: string)
    requires Bytes(blob) && Sized(blob)
    ensures HeaderBytes(CountOf(blob), PoolSizeOf(blob), Rd32(blob[20..24])) == blob[..24]
  {
    WritesBack(blob[8..12]); WritesBack(blob[12..16]); WritesBack(blob[16..20]); WritesBack(blob[20..24]);
    ReadsBack(1);
    assert blob[..24] == blob[..8] + blob[8..12] + blob[12..16] + blob[16..20] + blob[20..24];
  }

  /** Whatever is accepted is the layout of a loadable table. */
  lemma AcceptedIsBlob(blob: string)
    requires Bytes(blob) && Accepted(blob)
    ensures Loadable(Parsed(blob)) && blob == Blob(Parsed(blob), Rd32(blob[20..24]))
  {
    hide EntryOf, HeaderBytes, EntryBytes;
    var t := Parsed(blob);
    EntriesRewritten(blob, t.entries);
    HeaderRewritten(blob);
    var split := HEADER + 12 * |t.entries|;
    assert t.pool[|t.pool| - 1] == blob[|blob| - 1];
    assert blob == blob[..24] + blob[24..split] + blob[split..];
  }

  lemma {:induction false} EntryLaidOut(es: seq<Entry>, i: nat, head: string, tail: string)
    requires (forall e | e in es :: Words(e)) && i < |es| && |head| == HEADER
    requires Bytes(head) && Bytes(tail)
    ensures Bytes(head + EntriesBytes(es) + tail) && EntryOf(head + EntriesBytes(es) + tail, i) == es[i]
    decreases |es|
  {
    hide EntryBytes;
    var n := |es| - 1;
    var last := EntryBytes(es[n]);
    Assoc(head, EntriesBytes(es[..n]), last);
    Assoc(head + EntriesBytes(es[..n]), last, tail);
    if i == n {
      EntryFields(es[n], head + EntriesBytes(es[..n]), tail);
      ReadsBack(es[n].hash); ReadsBack(es[n].key); ReadsBack(es[n].value);
    } else {
      EntryLaidOut(es[..n], i, head, last + tail);
    }
  }

  /** Every loadable table is accepted and read back as it was. */
  lemma BlobIsAccepted(t: Table, reserved: nat, blob: string)
    requires Loadable(t) && reserved < WORD && blob == Blob(t, reserved)
    ensures Bytes(blob) && Accepted(blob) && Parsed(blob) == t
  {
    hide EntryOf, Blob, Rd32, Le32;
    BlobIsSized(t, reserved, blob);
    forall i | 0 <= i < |t.entries| ensures EntryOf(blob, i) == t.entries[i] {
      BlobEntry(t, reserved, blob, i);
    }
  }

  lemma BlobIsSized(t: Table, reserved: nat, blob: string)
    requires Loadable(t) && reserved < WORD && blob == Blob(t, reserved)
    ensures Bytes(blob) && Sized(blob) && CountOf(blob) == |t.entries| && PoolSizeOf(blob) == |t.pool|
    ensures blob[HEADER + 12 * |t.entries|..] == t.pool
  {
    hide EntryBytes, EntriesBytes, HeaderBytes, Rd32, Le32;
    var head, body := HeaderBytes(|t.entries|, |t.pool|, reserved), EntriesBytes(t.entries);
    Assoc(head, body, t.pool);
    HeaderFields(|t.entries|, |t.pool|, reserved, body + t.pool);
    ReadsBack(1); ReadsBack(|t.entries|); ReadsBack(|t.pool|);
    HeaderIsBytes(|t.entries|, |t.pool|, reserved);
    BytesJoined(head, body); BytesJoined(head + body, t.pool);
    LastOf(head + body, t.pool);
  }

  lemma BlobEntry(t: Table, reserved: nat, blob: string, i: nat)
    requires Loadable(t) && reserved < WORD && blob == Blob(t, reserved) && i < |t.entries|
    ensures Bytes(blob) && HEADER + 12 * (i + 1) <= |blob| && EntryOf(blob, i) == t.entries[i]
  {
    hide EntryOf, EntryBytes, EntriesBytes, HeaderBytes;
    HeaderIsBytes(|t.entries|, |t.pool|, reserved);
    EntryLaidOut(t.entries, i, HeaderBytes(|t.entries|, |t.pool|, reserved), t.pool);
  }

  lemma BytesJoined(a: string, b: string)
    requires Bytes(a) && Bytes(b)
    ensures Bytes(a + b)
  {
  }

  lemma LastOf(a: string, b: string)
    requires b != []
    ensures (a + b)[|a + b| - 1] == b[|b| - 1] && (a + b)[|a|..] == b
  {
  }

  /** The four bytes at `at`, least significant first. */
  function WordAt(s: string, at: nat): int
    requires at + 4 <= |s|
  {
    s[at] as int + 0x100 * s[at + 1] as int + 0x1_0000 * s[at + 2] as int + 0x100_0000 * s[at + 3] as int
  }

  /** Byte for byte: the name and two NULs, version 1, the two counts, a zero, twelve bytes per entry, the pool. */
  lemma BlobBytes(t: Table, blob: string, i: nat)
    requires Loadable(t) && blob == Blob(t, 0)
    ensures |blob| == 24 + 12 * |t.entries| + |t.pool| && blob[..6] == "JWI18N" && blob[6] == blob[7] == NUL
    ensures WordAt(blob, 8) == 1 && WordAt(blob, 12) == |t.entries| && WordAt(blob, 16) == |t.pool|
    ensures WordAt(blob, 20) == 0
    ensures i < |t.entries| ==>
      && WordAt(blob, 24 + 12 * i) == t.entries[i].hash && WordAt(blob, 28 + 12 * i) == t.entries[i].key
      && WordAt(blob, 32 + 12 * i) == t.entries[i].value
    ensures blob[24 + 12 * |t.entries|..] == t.pool
  {
    hide EntryBytes, EntriesBytes, HeaderBytes, Le32;
    BlobIsSized(t, 0, blob);
    HeaderFields(|t.entries|, |t.pool|, 0, EntriesBytes(t.entries) + t.pool);
    Assoc(HeaderBytes(|t.entries|, |t.pool|, 0), EntriesBytes(t.entries), t.pool);
    ReadsBack(0);
    forall at: nat | at + 4 <= |blob| ensures Rd32(blob[at..at + 4]) == WordAt(blob, at) { WordIs(blob, at); }
    assert blob[..6] == blob[..8][..6] && blob[6] == blob[..8][6] && blob[7] == blob[..8][7];
    assert MAGIC[..6] == "JWI18N";
    if i < |t.entries| { BlobEntry(t, 0, blob, i); }
  }

  lemma WordIs(s: string, at: nat)
    requires Bytes(s) && at + 4 <= |s|
    ensures Rd32(s[at..at + 4]) == WordAt(s, at)
  {
  }

  lemma HeaderIsBytes(count: nat, poolSize: nat, reserved: nat)
    requires count < WORD && poolSize < WORD && reserved < WORD
    ensures Bytes(HeaderBytes(count, poolSize, reserved))
  {
  }

  /** `jw__i18n_load_compiled` on the bytes of the file. */
  method Load(blob: string) returns (r: Option<Table>)
    requires Bytes(blob)
    ensures r == if Accepted(blob) then Some(Parsed(blob)) else None
  {
    hide EntryOf;
    if |blob| < HEADER || |blob| > MAX_BLOB || blob[..8] != MAGIC || Rd32(blob[8..12]) != 1 {
      return None;
    }
    var count := Rd32(blob[12..16]);
    var poolSize := Rd32(blob[16..20]);
    if HEADER + count * 12 + poolSize != |blob| || poolSize == 0 || blob[|blob| - 1] != NUL {
      return None;
    }
    var entries := [];
    for i := 0 to count
      invariant |entries| == i
      invariant forall j | 0 <= j < i :: entries[j] == EntryOf(blob, j) && InPool(entries[j], poolSize)
    {
      var e := EntryOf(blob, i);
      if e.key >= poolSize || e.value >= poolSize {
        return None;
      }
      entries := entries + [e];
    }
    assert Parsed(blob).entries == entries;
    return Some(Table(entries, blob[HEADER + 12 * count..]));
  }

  // ---------------------------------------------------------------- lookup

  function TextAt(pool: string, offset: nat): string
    requires offset <= |pool|
  {
    CString(pool[offset..])
  }

  ghost predicate Holds(t: Table, e: Entry, hash: string -> nat, m: map<string, string>) {
    && e.key <= |t.pool| && e.value <= |t.pool|
    && TextAt(t.pool, e.key) in m && m[TextAt(t.pool, e.key)] == TextAt(t.pool, e.value)
    && hash(TextAt(t.pool, e.key)) == e.hash
  }

  /** The table holds exactly the mapping, in order of the hashes. */
  ghost predicate Indexes(t: Table, hash: string -> nat, m: map<string, string>) {
    && (forall i, j | 0 <= i < j < |t.entries| :: t.entries[i].hash <= t.entries[j].hash)
    && (forall i | 0 <= i < |t.entries| :: Holds(t, t.entries[i], hash, m))
    && (forall k | k in m :: exists i ::
      0 <= i < |t.entries| && t.entries[i].key <= |t.pool| && TextAt(t.pool, t.entries[i].key) == k)
  }

  /** The binary search to the first entry of a hash. */
  method FirstOfHash(entries: seq<Entry>, h: nat) returns (lo: nat)
    requires forall i, j | 0 <= i < j < |entries| :: entries[i].hash <= entries[j].hash
    ensures lo <= |entries| && (forall i | 0 <= i < lo :: entries[i].hash < h)
    ensures forall i | lo <= i < |entries| :: entries[i].hash >= h
  {
    lo := 0;
    var hi := |entries|;
    while lo < hi
      invariant lo <= hi <= |entries|
      invariant (forall i | 0 <= i < lo :: entries[i].hash < h)
      invariant forall i | hi <= i < |entries| :: entries[i].hash >= h
    {
      var mid := lo + (hi - lo) / 2;
      if entries[mid].hash < h { lo := mid + 1; } else { hi := mid; }
    }
  }

  /** Hash search, then `strcmp` along equal hashes: a collision never returns another key's text. */
  method Lookup(t: Table, hash: string -> nat, english: string, ghost m: map<string, string>)
    returns (r: Option<string>)
    requires Indexes(t, hash, m)
    ensures r == if english in m then Some(m[english]) else None
  {
    hide TextAt;
    var h := hash(english);
    var i := FirstOfHash(t.entries, h);
    while i < |t.entries| && t.entries[i].hash == h
      invariant i <= |t.entries|
      invariant forall j | 0 <= j < i :: t.entries[j].key <= |t.pool| && TextAt(t.pool, t.entries[j].key) != english
      invariant forall j | i <= j < |t.entries| :: t.entries[j].hash >= h
    {
      assert Holds(t, t.entries[i], hash, m);
      if TextAt(t.pool, t.entries[i].key) == english {
        return Some(TextAt(t.pool, t.entries[i].value));
      }
      i := i + 1;
    }
    Missed(t, hash, english, m, i);
    return None;
  }

  lemma Missed(t: Table, hash: string -> nat, english: string, m: map<string, string>, i: nat)
    requires Indexes(t, hash, m) && i <= |t.entries|
    requires forall j | 0 <= j < i :: t.entries[j].key <= |t.pool| && TextAt(t.pool, t.entries[j].key) != english
    requires i < |t.entries| ==> t.entries[i].hash > hash(english)
    ensures english !in m
  {
    hide TextAt;
    forall j | 0 <= j < |t.entries|
      ensures t.entries[j].key <= |t.pool| ==> TextAt(t.pool, t.entries[j].key) != english
    {
      assert Holds(t, t.entries[j], hash, m);
      if j > i { assert t.entries[i].hash <= t.entries[j].hash; }
    }
  }

  /** jw_i18n: a miss, and a translation whose format specifiers do not fit, fall back to the English text. */
  method Translate(t: Table, hash: string -> nat, english: string, compatible: (string, string) -> bool,
                   stripped: string -> string,
                   ghost m: map<string, string>)
    returns (r: string)
    requires Indexes(t, hash, m)
    ensures r == if english in m && ('%' in english ==> compatible(english, m[english]))
      then m[english] else stripped(english)
  {
    if t.entries == [] {
      return stripped(english);
    }
    var found := Lookup(t, hash, english, m);
    if found.None? || ('%' in english && !compatible(english, found.value)) {
      return stripped(english);
    }
    return found.value;
  }

  // ---------------------------------------------------------------- the compiler

  /** What the pairs say, the last of equal ones counting. */
  function Mapping(pairs: seq<(string, string)>): map<string, string> {
    if pairs == [] then map[] else Mapping(pairs[..|pairs| - 1])[pairs[|pairs| - 1].0 := pairs[|pairs| - 1].1]
  }

  /** No key has two translations, and every translation takes the arguments of its key. */
  ghost predicate Consistent(pairs: seq<(string, string)>, sig: string -> seq<string>) {
    && (forall i | 0 <= i < |pairs| :: sig(pairs[i].0) == sig(pairs[i].1))
    && forall i, j | 0 <= i < j < |pairs| && pairs[i].0 == pairs[j].0 :: pairs[i].1 == pairs[j].1
  }

  lemma {:induction false} MappingHas(pairs: seq<(string, string)>, k: string)
    ensures k in Mapping(pairs) <==> exists i :: 0 <= i < |pairs| && pairs[i].0 == k
    ensures k in Mapping(pairs) ==> exists i :: 0 <= i < |pairs| && pairs[i] == (k, Mapping(pairs)[k])
    decreases |pairs|
  {
    if pairs != [] {
      MappingHas(pairs[..|pairs| - 1], k);
      if i :| 0 <= i < |pairs| && pairs[i].0 == k { assert i == |pairs| - 1 || pairs[..|pairs| - 1][i].0 == k; }
      if k in Mapping(pairs) && k != pairs[|pairs| - 1].0 {
        var i :| 0 <= i < |pairs| - 1 && pairs[..|pairs| - 1][i] == (k, Mapping(pairs[..|pairs| - 1])[k]);
        assert pairs[i] == (k, Mapping(pairs)[k]);
      }
    }
  }

  /** One more pair: either it conflicts, or the pairs stay consistent. */
  lemma ConsistentNext(pairs: seq<(string, string)>, i: nat, sig: string -> seq<string>)
    requires i < |pairs| && Consistent(pairs[..i], sig)
    ensures var (key, val) := pairs[i];
      Consistent(pairs[..i + 1], sig) <==>
        sig(key) == sig(val) && (key in Mapping(pairs[..i]) ==> Mapping(pairs[..i])[key] == val)
  {
    var (key, val) := pairs[i];
    MappingHas(pairs[..i], key);
    assert pairs[..i + 1][..i] == pairs[..i] && pairs[..i + 1][i] == pairs[i];
    forall j | 0 <= j < i ensures pairs[..i + 1][j] == pairs[..i][j] {
    }
  }

  lemma ConsistentPrefix(pairs: seq<(string, string)>, i: nat, sig: string -> seq<string>)
    requires i <= |pairs| && Consistent(pairs, sig)
    ensures Consistent(pairs[..i], sig)
  {
  }

  /** The string stands in the pool at this offset, with its terminator. */
  predicate Standing(pool: string, offset: nat, s: string) {
    offset + |s| < |pool| && pool[offset..offset + |s|] == s && pool[offset + |s|] == NUL
  }

  predicate Interned(pool: string, offsets: map<string, nat>) {
    && Bytes(pool) && (pool != [] ==> pool[|pool| - 1] == NUL) && (offsets.Keys != {} ==> pool != [])
    && forall s | s in offsets :: Standing(pool, offsets[s], s)
  }

  lemma StandingText(pool: string, offset: nat, s: string)
    requires Standing(pool, offset, s) && NulFree(s)
    ensures offset < |pool| && TextAt(pool, offset) == s
  {
    var rest := pool[offset..];
    assert rest[..|s|] == s && rest[|s|] == NUL;
    CStringEnds(rest, |s|);
  }

  lemma StandingStays(pool: string, more: string, offset: nat, s: string)
    requires Standing(pool, offset, s)
    ensures Standing(pool + more, offset, s)
  {
    assert (pool + more)[offset..offset + |s|] == pool[offset..offset + |s|];
  }

  /** `intern`: each string once. */
  method Intern(pool: string, offsets: map<string, nat>, s: string)
    returns (pool': string, offsets': map<string, nat>, off: nat)
    requires Interned(pool, offsets) && Bytes(s)
    ensures Interned(pool', offsets') && pool <= pool' && Standing(pool', off, s)
    ensures offsets' == offsets[s := off]
    ensures if s in offsets then off == offsets[s] && pool' == pool else off == |pool| && pool' == pool + s + [NUL]
  {
    if s in offsets {
      return pool, offsets, offsets[s];
    }
    off := |pool|;
    pool' := pool + (s + [NUL]);
    offsets' := offsets[s := off];
    assert pool'[off..off + |s|] == s;
    forall u | u in offsets ensures Standing(pool', offsets[u], u) { StandingStays(pool, s + [NUL], offsets[u], u); }
  }

  predicate Describes(pool: string, e: Entry, hash: string -> nat, key: string, value: string) {
    e.hash == hash(key) && Standing(pool, e.key, key) && Standing(pool, e.value, value)
  }

  lemma DescribesStays(pool: string, pool': string, e: Entry, hash: string -> nat, key: string, value: string)
    requires Describes(pool, e, hash, key, value) && pool <= pool'
    ensures Describes(pool', e, hash, key, value)
  {
    StandingStays(pool, pool'[|pool|..], e.key, key);
    StandingStays(pool, pool'[|pool|..], e.value, value);
    assert pool' == pool + pool'[|pool|..];
  }

  predicate EntryLe(a: Entry, b: Entry) {
    a.hash < b.hash || (a.hash == b.hash && a.key <= b.key)
  }

  lemma EntryLeIsComparison()
    ensures Comparison(EntryLe)
  {
  }

  ghost predicate Usable(pairs: seq<(string, string)>) {
    forall p | p in pairs :: NulFree(p.0) && NulFree(p.1) && Bytes(p.0) && Bytes(p.1)
  }

  /** The dictionary of the pairs, with its keys in insertion order; `None` when a pair conflicts. */
  method Collect(pairs: seq<(string, string)>, sig: string -> seq<string>)
    returns (seen: map<string, string>, order: seq<string>, ok: bool)
    ensures ok <==> Consistent(pairs, sig)
    ensures ok ==> seen == Mapping(pairs) && NoRepeats(order) && forall k :: k in order <==> k in seen
  {
    hide Consistent;
    seen, order := map[], [];
    NothingConsistent(sig);
    for i := 0 to |pairs|
      invariant Consistent(pairs[..i], sig) && seen == Mapping(pairs[..i])
      invariant NoRepeats(order) && forall k :: k in order <==> k in seen
    {
      var (key, val) := pairs[i];
      ConsistentNext(pairs, i, sig);
      if (key in seen && seen[key] != val) || sig(key) != sig(val) {
        if Consistent(pairs, sig) { ConsistentPrefix(pairs, i + 1, sig); }
        return seen, order, false;
      }
      assert pairs[..i + 1][..i] == pairs[..i];
      if key !in seen { order := order + [key]; }
      seen := seen[key := val];
    }
    assert pairs[..|pairs|] == pairs;
    ok := true;
  }

  lemma NothingConsistent(sig: string -> seq<string>)
    ensures Consistent([], sig)
  {
  }

  /** Pool and entries, in the order of the dictionary. */
  method LayOut(seen: map<string, string>, order: seq<string>, hash: string -> nat)
    returns (entries: seq<Entry>, pool: string)
    requires forall k | k in order :: k in seen && Bytes(k) && Bytes(seen[k])
    ensures |entries| == |order|
    ensures forall i | 0 <= i < |order| ::
      order[i] in seen && Describes(pool, entries[i], hash, order[i], seen[order[i]])
    ensures Bytes(pool) && pool != [] && pool[|pool| - 1] == NUL
  {
    hide Describes, Standing;
    entries, pool := [], "";
    var offsets: map<string, nat> := map[];
    for i := 0 to |order|
      invariant Interned(pool, offsets) && |entries| == i
      invariant forall j | 0 <= j < i :: order[j] in seen && Describes(pool, entries[j], hash, order[j], seen[order[j]])
    {
      var key := order[i];
      ghost var pool0 := pool;
      var k, v;
      pool, offsets, k := Intern(pool, offsets, key);
      ghost var pool1 := pool;
      pool, offsets, v := Intern(pool, offsets, seen[key]);
      var e := Entry(hash(key), k, v);
      Described(pool1, pool, e, hash, key, seen[key]);
      forall j | 0 <= j < i ensures Describes(pool, entries[j], hash, order[j], seen[order[j]]) {
        DescribesStays(pool0, pool, entries[j], hash, order[j], seen[order[j]]);
      }
      entries := entries + [e];
    }
    if pool == [] {
      if order != [] { NeedsPool(entries[0], hash, order[0], seen[order[0]]); }
      pool := [NUL];
    }
  }

  /** Nothing stands in an empty pool. */
  lemma NeedsPool(e: Entry, hash: string -> nat, key: string, value: string)
    ensures !Describes([], e, hash, key, value)
  {
  }

  lemma Described(pool: string, pool': string, e: Entry, hash: string -> nat, key: string, value: string)
    requires e.hash == hash(key) && Standing(pool, e.key, key) && pool <= pool' && Standing(pool', e.value, value)
    ensures Describes(pool', e, hash, key, value)
  {
    StandingStays(pool, pool'[|pool|..], e.key, key);
    assert pool' == pool + pool'[|pool|..];
  }

  ghost predicate Fits(t: Table) {
    |t.entries| < WORD && |t.pool| < WORD
  }

  /**
   * `build`. `t` is the table it lays out: it holds exactly the mapping, and the blob is its layout. The build fails
   * only on inconsistent pairs, or when a count or offset does not fit its word.
   */
  method Build(pairs: seq<(string, string)>, sig: string -> seq<string>, hash: string -> nat)
    returns (r: Option<string>, ghost t: Table)
    requires Usable(pairs) && forall s :: hash(s) < WORD
    ensures !Consistent(pairs, sig) ==> r == None
    ensures Consistent(pairs, sig) ==> Indexes(t, hash, Mapping(pairs)) && |t.entries| == |Mapping(pairs)|
    ensures Consistent(pairs, sig) ==> (r.Some? <==> Fits(t))
    ensures r.Some? ==> |r.value| == HEADER + 12 * |t.entries| + |t.pool|
    ensures Consistent(pairs, sig) && r.Some? && HEADER + 12 * |t.entries| + |t.pool| <= MAX_BLOB ==>
      Loadable(t) && r.value == Blob(t, 0)
  {
    hide Describes, Indexes, Consistent, Mapping, EntryBytes,
      EntriesBytes, HeaderBytes, Usable, SortedBy, Le32, Loadable,
      Blob, Words, Bytes, Permuted;
    var seen, order, ok := Collect(pairs, sig);
    t := Table([], "");
    if !ok {
      return None, t;
    }
    KeysUsable(pairs);
    var entries, pool := LayOut(seen, order, hash);
    EntryLeIsComparison();
    var sorted := QSort(entries, EntryLe);
    t := Table(sorted, pool);
    TableIndexes(seen, order, hash, entries, pool, sorted);
    if |sorted| >= WORD || |pool| >= WORD {
      return None, t;
    }
    PermutedMembers(sorted, entries);
    EntriesFit(seen, order, hash, entries, pool);
    FitsLoadable(t);
    var bytes := WriteTable(sorted, pool);
    r := Some(bytes);
  }

  /** What the loader will ask of a table, but for its size: words in range, offsets inside a terminated pool. */
  ghost predicate Sound(t: Table) {
    && |t.entries| < WORD && |t.pool| < WORD && t.pool != [] && t.pool[|t.pool| - 1] == NUL && Bytes(t.pool)
    && forall e | e in t.entries :: Words(e) && e.key < |t.pool| && e.value < |t.pool|
  }

  lemma FitsLoadable(t: Table)
    requires Sound(t)
    ensures HEADER + 12 * |t.entries| + |t.pool| <= MAX_BLOB ==> Loadable(t)
  {
  }

  /** Header, entries and pool, one after the other. */
  method WriteTable(es: seq<Entry>, pool: string) returns (blob: string)
    requires |es| < WORD && |pool| < WORD && forall e | e in es :: Words(e)
    ensures |blob| == HEADER + 12 * |es| + |pool|
    ensures Loadable(Table(es, pool)) ==> blob == Blob(Table(es, pool), 0)
  {
    hide EntryBytes, EntriesBytes, HeaderBytes, Le32, Words;
    var bytes := WriteEntries(es);
    HeaderWritten(|es|, |pool|);
    blob := MAGIC + Le32(1) + Le32(|es|) + Le32(|pool|) + Le32(0) + bytes + pool;
  }

  lemma HeaderWritten(count: nat, poolSize: nat)
    requires count < WORD && poolSize < WORD
    ensures HeaderBytes(count, poolSize, 0) == MAGIC + Le32(1) + Le32(count) + Le32(poolSize) + Le32(0)
  {
  }

  method WriteEntries(es: seq<Entry>) returns (bytes: string)
    requires forall e | e in es :: Words(e)
    ensures bytes == EntriesBytes(es)
  {
    hide EntryBytes, Words;
    bytes := "";
    for i := 0 to |es|
      invariant bytes == EntriesBytes(es[..i])
    {
      assert es[..i + 1][..i] == es[..i];
      bytes := bytes + EntryBytes(es[i]);
    }
    assert es[..|es|] == es;
  }

  lemma KeysUsable(pairs: seq<(string, string)>)
    requires Usable(pairs)
    ensures forall k | k in Mapping(pairs) ::
      NulFree(k) && Bytes(k) && NulFree(Mapping(pairs)[k]) && Bytes(Mapping(pairs)[k])
  {
    forall k | k in Mapping(pairs)
      ensures NulFree(k) && Bytes(k) && NulFree(Mapping(pairs)[k]) && Bytes(Mapping(pairs)[k])
    {
      MappingHas(pairs, k);
      var i :| 0 <= i < |pairs| && pairs[i] == (k, Mapping(pairs)[k]);
      assert pairs[i] in pairs;
    }
  }

  lemma EntriesFit(seen: map<string, string>, order: seq<string>, hash: string -> nat, entries: seq<Entry>,
                   pool: string)
    requires |pool| < WORD && (forall s :: hash(s) < WORD) && |entries| == |order|
    requires forall i | 0 <= i < |order| ::
      order[i] in seen && (Describes(pool, entries[i], hash, order[i], seen[order[i]]))
    ensures forall e | e in entries :: Words(e) && e.key < |pool| && e.value < |pool|
  {
  }

  /** Sorting moves the entries and nothing else; each still stands for its key and its translation. */
  lemma TableIndexes(seen: map<string, string>, order: seq<string>, hash: string -> nat, entries: seq<Entry>,
                     pool: string, sorted: seq<Entry>)
    requires NoRepeats(order) && (forall k :: k in order <==> k in seen)
    requires forall k | k in seen :: NulFree(k) && NulFree(seen[k])
    requires |entries| == |order|
    requires forall i | 0 <= i < |order| ::
      order[i] in seen && Describes(pool, entries[i], hash, order[i], seen[order[i]])
    requires SortedBy(sorted, EntryLe) && Permuted(sorted, entries)
    ensures Indexes(Table(sorted, pool), hash, seen) && |sorted| == |seen|
  {
    hide TextAt, Holds, Describes, NoRepeats, Permuted;
    PermutedMembers(sorted, entries);
    var t := Table(sorted, pool);
    forall i | 0 <= i < |order|
      ensures Holds(t, entries[i], hash, seen) && entries[i].key <= |pool| && TextAt(pool, entries[i].key) == order[i]
    {
      EntryHolds(t, entries[i], hash, seen, order[i]);
    }
    forall j | 0 <= j < |sorted| ensures Holds(t, sorted[j], hash, seen) {
      assert sorted[j] in entries;
    }
    forall k | k in seen
      ensures exists j :: 0 <= j < |sorted| && sorted[j].key <= |pool| && TextAt(pool, sorted[j].key) == k
    {
      KeyHasEntry(order, entries, pool, sorted, k);
    }
    SizeOfListed(order);
    assert (set k | k in order) == seen.Keys;
  }

  lemma KeyHasEntry(order: seq<string>, entries: seq<Entry>, pool: string, sorted: seq<Entry>, k: string)
    requires k in order && |entries| == |order| && forall e :: e in sorted <==> e in entries
    requires forall i | 0 <= i < |order| :: entries[i].key <= |pool| && TextAt(pool, entries[i].key) == order[i]
    ensures exists j :: 0 <= j < |sorted| && sorted[j].key <= |pool| && TextAt(pool, sorted[j].key) == k
  {
    hide TextAt;
    var i :| 0 <= i < |order| && order[i] == k;
    assert entries[i] in sorted;
    var j :| 0 <= j < |sorted| && sorted[j] == entries[i];
  }

  lemma EntryHolds(t: Table, e: Entry, hash: string -> nat, seen: map<string, string>, key: string)
    requires key in seen && NulFree(key) && NulFree(seen[key]) && Describes(t.pool, e, hash, key, seen[key])
    ensures Holds(t, e, hash, seen) && e.key <= |t.pool| && TextAt(t.pool, e.key) == key
  {
    hide TextAt;
    StandingText(t.pool, e.key, key);
    StandingText(t.pool, e.value, seen[key]);
  }

  /** Pairs are consistent exactly when specifiers agree in each and no text has two translations. */
  lemma ConsistentIff(pairs: seq<(string, string)>, sig: string -> seq<string>)
    ensures Consistent(pairs, sig) <==>
      && (forall p | p in pairs :: sig(p.0) == sig(p.1))
      && forall p, q | p in pairs && q in pairs && p.0 == q.0 :: p.1 == q.1
  {
    if Consistent(pairs, sig) {
      forall p, q | p in pairs && q in pairs && p.0 == q.0 ensures p.1 == q.1 {
        var i :| 0 <= i < |pairs| && pairs[i] == p;
        var j :| 0 <= j < |pairs| && pairs[j] == q;
        if i < j { assert pairs[i].1 == pairs[j].1; }
        if j < i { assert pairs[j].1 == pairs[i].1; }
      }
    } else {
      forall i ensures 0 <= i < |pairs| ==> pairs[i] in pairs {
      }
    }
  }

  /** The mapping of consistent pairs has each pair and nothing else. */
  lemma MappingIs(pairs: seq<(string, string)>, sig: string -> seq<string>, key: string)
    requires Consistent(pairs, sig)
    ensures forall v :: key in Mapping(pairs) && Mapping(pairs)[key] == v <==> (key, v) in pairs
  {
    hide Mapping, Consistent;
    MappingHas(pairs, key);
    ConsistentIff(pairs, sig);
    if key in Mapping(pairs) {
      var i :| 0 <= i < |pairs| && pairs[i] == (key, Mapping(pairs)[key]);
    }
    forall v | (key, v) in pairs ensures key in Mapping(pairs) {
      var i :| 0 <= i < |pairs| && pairs[i] == (key, v);
    }
  }

  /** Compile, load, look up: exactly the input mapping comes back, for every text that can be asked for. */
  method RoundTrip(pairs: seq<(string, string)>, sig: string -> seq<string>, hash: string -> nat, english: string)
    returns (r: Option<string>, loaded: bool, ghost t: Table)
    requires Usable(pairs) && (forall s :: hash(s) < WORD) && Consistent(pairs, sig)
    ensures loaded <==> Fits(t) && HEADER + 12 * |t.entries| + |t.pool| <= MAX_BLOB
    ensures Indexes(t, hash, Mapping(pairs)) && |t.entries| == |Mapping(pairs)|
    ensures loaded ==> r == if english in Mapping(pairs) then Some(Mapping(pairs)[english]) else None
    ensures loaded ==> forall v :: r == Some(v) <==> (english, v) in pairs
  {
    hide Indexes, Mapping, Consistent;
    MappingIs(pairs, sig, english);
    var blob;
    blob, t := Build(pairs, sig, hash);
    if blob.None? || |blob.value| > MAX_BLOB {
      return None, false, t;
    }
    BlobIsAccepted(t, 0, blob.value);
    var table := Load(blob.value);
    r := Lookup(table.value, hash, english, Mapping(pairs));
    loaded := true;
  }
}
