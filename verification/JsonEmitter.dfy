/** The emitters: a growing byte buffer, the generic recursive writer, and the hand-ordered stamp writer. */
module JsonEmitter {
  import opened CStrings
  import opened Sorting
  import opened CanonicalJson

  /** A growing buffer that always keeps room for the terminating NUL. */
  class Buffer {
    ghost var contents: string
    var data: array<char>
    var length: nat

    ghost predicate Valid()
      reads this, data
    {
      && (if data.Length == 0 then length == 0 else length < data.Length)
      && data[..length] == contents
    }

    constructor ()
      ensures Valid() && contents == "" && fresh(data)
    {
      data := new char[0];
      length := 0;
      contents := "";
    }

    /** Room for `more` bytes and a NUL behind what is there. */
    method Reserve(more: nat)
      requires Valid()
      modifies this`data
      ensures Valid() && (data == old(data) || fresh(data)) && length + more < data.Length
    {
      if length + more + 1 > data.Length {
        var capacity := if data.Length != 0 then data.Length else 512;
        while capacity < length + more + 1
          invariant capacity > 0
          decreases length + more + 1 - capacity
        {
          capacity := capacity * 2;
        }
        var grown := new char[capacity];
        forall k | 0 <= k < length { grown[k] := data[k]; }
        assert grown[..length] == data[..length];
        data := grown;
      }
    }

    /** `append`: grow geometrically when needed, then copy the bytes behind the old ones. */
    method Append(text: string)
      requires Valid()
      modifies this, data
      ensures Valid() && (data == old(data) || fresh(data))
      ensures contents == old(contents) + text
    {
      Reserve(|text|);
      forall k | 0 <= k < |text| { data[length + k] := text[k]; }
      assert data[..length] == old(contents);
      assert data[length..length + |text|] == text;
      length := length + |text|;
      contents := contents + text;
      data[length] := '\0';
      assert data[..length] == old(contents) + text;
    }
  }

  /** `string_buf`: one byte at a time. */
  method EmitString(buf: Buffer, s: string)
    requires buf.Valid()
    modifies buf, buf.data
    ensures buf.Valid() && (buf.data == old(buf.data) || fresh(buf.data))
    ensures buf.contents == old(buf.contents) + Quoted(s)
  {
    buf.Append("\"");
    ghost var start := buf.contents;
    assert s[..0] == "" && start + Escape("") == start;
    for i := 0 to |s|
      invariant buf.Valid() && (buf.data == old(buf.data) || fresh(buf.data))
      invariant buf.contents == start + Escape(s[..i])
    {
      EscapeNext(s, i);
      Assoc(start, Escape(s[..i]), EscapeChar(s[i]));
      buf.Append(EscapeChar(s[i]));
    }
    assert s[..|s|] == s;
    Assoc(old(buf.contents), "\"", Escape(s));
    Assoc(old(buf.contents), "\"" + Escape(s), "\"");
    buf.Append("\"");
  }

  lemma EscapeNext(s: string, i: nat)
    requires i < |s|
    ensures Escape(s[..i + 1]) == Escape(s[..i]) + EscapeChar(s[i])
  {
    EscapeSnoc(s[..i], s[i]);
    assert s[..i] + [s[i]] == s[..i + 1];
  }

  lemma {:induction false} EscapeSnoc(s: string, c: char)
    ensures Escape(s + [c]) == Escape(s) + EscapeChar(c)
    decreases |s|
  {
    if s == [] {
      assert Escape([c]) == EscapeChar(c) + Escape([]);
    } else {
      assert (s + [c])[1..] == s[1..] + [c];
      EscapeSnoc(s[1..], c);
    }
  }

  lemma {:induction false} ItemsTextSnoc(v: Value, a: seq<Value>, x: Value, first: bool)
    requires v.Arr? && (forall z | z in a :: z in v.items) && x in v.items
    ensures ItemsText(v, a + [x], first)
      == ItemsText(v, a, first) + (if first && a == [] then "" else ",") + Canonical(x)
    decreases |a|
  {
    if a == [] {
      assert ([x])[1..] == [];
      assert a + [x] == [x];
    } else {
      assert (a + [x])[1..] == a[1..] + [x];
      ItemsTextSnoc(v, a[1..], x, false);
      var t := ItemsText(v, a[1..], false);
      assert ItemsText(v, a, first) == (if first then "" else ",") + Canonical(a[0]) + t;
      var head := (if first then "" else ",") + Canonical(a[0]);
      Assoc(head, t + ",", Canonical(x)); Assoc(head, t, ",");
    }
  }

  lemma {:induction false} MembersTextSnoc(v: Value, a: seq<Member>, m: Member, first: bool)
    requires v.Obj? && (forall z | z in a :: z in v.members) && m in v.members
    ensures MembersText(v, a + [m], first)
      == MembersText(v, a, first) + (if first && a == [] then "" else ",") + MemberText(v, m)
    decreases |a|
  {
    if a == [] {
      assert ([m])[1..] == [];
      assert a + [m] == [m];
    } else {
      assert (a + [m])[1..] == a[1..] + [m];
      MembersTextSnoc(v, a[1..], m, false);
      var t := MembersText(v, a[1..], false);
      assert MembersText(v, a, first) == (if first then "" else ",") + MemberText(v, a[0]) + t;
      var head := (if first then "" else ",") + MemberText(v, a[0]);
      Assoc(head, t + ",", MemberText(v, m)); Assoc(head, t, ",");
    }
  }

  /** Any sort of the members gives the one canonical arrangement, since no key occurs twice. */
  lemma AnySortIsTheSort(v: Value, sorted: seq<Member>)
    requires v.Obj? && WellFormed(v) && SortedBy(sorted, KeyLe) && Permuted(sorted, v.members)
    ensures sorted == Arrange(v.members)
  {
    KeyLeIsComparison();
    forall m, n | m in v.members && n in v.members && KeyLe(m, n) && KeyLe(n, m) ensures m == n {
      StrLeAntisymmetric(m.key, n.key);
      var i :| 0 <= i < |v.members| && v.members[i] == m;
      var j :| 0 <= j < |v.members| && v.members[j] == n;
      ByKey(v.members, i, j);
    }
    SortOfSorted(sorted, v.members, KeyLe);
  }

  /** The array's text up to its i-th element. */
  lemma NextItem(v: Value, i: nat)
    requires v.Arr? && i < |v.items|
    ensures forall x | x in v.items[..i] :: x in v.items
    ensures forall x | x in v.items[..i + 1] :: x in v.items
    ensures ItemsText(v, v.items[..i + 1], true)
      == ItemsText(v, v.items[..i], true) + (if i == 0 then "" else ",") + Canonical(v.items[i])
  {
    ItemsTextSnoc(v, v.items[..i], v.items[i], true);
    assert v.items[..i] + [v.items[i]] == v.items[..i + 1];
  }

  lemma NextMember(v: Value, ms: seq<Member>, i: nat)
    requires v.Obj? && (forall m | m in ms :: m in v.members) && i < |ms|
    ensures forall m | m in ms[..i] :: m in v.members
    ensures forall m | m in ms[..i + 1] :: m in v.members
    ensures MembersText(v, ms[..i + 1], true)
      == MembersText(v, ms[..i], true) + (if i == 0 then "" else ",") + MemberText(v, ms[i])
  {
    MembersTextSnoc(v, ms[..i], ms[i], true);
    assert ms[..i] + [ms[i]] == ms[..i + 1];
  }

  /** `emit` */
  method Emit(buf: Buffer, v: Value)
    requires buf.Valid() && WellFormed(v)
    modifies buf, buf.data
    ensures buf.Valid() && (buf.data == old(buf.data) || fresh(buf.data))
    ensures buf.contents == old(buf.contents) + Canonical(v)
    decreases v, 1
  {
    match v
    case Null => buf.Append("null");
    case Bool(b) => buf.Append(if b then "true" else "false");
    case Num(printed) => buf.Append(printed);
    case Str(s) => EmitString(buf, s);
    case Arr(items) => EmitArray(buf, v);
    case Obj(ms) => EmitObject(buf, v);
  }

  lemma PartsWellFormed(v: Value)
    requires v.Arr? && WellFormed(v)
    ensures forall x | x in v.items :: WellFormed(x)
  {
  }

  method EmitArray(buf: Buffer, v: Value)
    requires buf.Valid() && v.Arr? && WellFormed(v)
    modifies buf, buf.data
    ensures buf.Valid() && (buf.data == old(buf.data) || fresh(buf.data))
    ensures buf.contents == old(buf.contents) + Canonical(v)
    decreases v, 0
  {
    hide Canonical, ItemsText, Listed, WellFormed;
    ghost var before := buf.contents;
    ArrayListed(v, before);
    PartsWellFormed(v);
    buf.Append("[");
    var first := true;
    for i := 0 to |v.items|
      invariant buf.Valid() && (buf.data == old(buf.data) || fresh(buf.data))
      invariant first == (i == 0)
      invariant forall x | x in v.items[..i] :: x in v.items
      invariant buf.contents == Listed(v, i, before)
    {
      ItemListed(v, i, before);
      if !first { buf.Append(","); }
      ElementIsSmaller(v, v.items[i]);
      Emit(buf, v.items[i]);
      first := false;
    }
    buf.Append("]");
  }

  method EmitMember(buf: Buffer, v: Value, m: Member)
    requires buf.Valid() && v.Obj? && m in v.members && WellFormed(v)
    modifies buf, buf.data
    ensures buf.Valid() && (buf.data == old(buf.data) || fresh(buf.data))
    ensures buf.contents == old(buf.contents) + MemberText(v, m)
    decreases v, 0, 0
  {
    MemberIsWellFormed(v, m);
    EmitString(buf, m.key);
    buf.Append(":");
    Emit(buf, m.value);
    Assoc(old(buf.contents), Quoted(m.key), ":");
    Assoc(old(buf.contents), Quoted(m.key) + ":", Canonical(m.value));
  }

  lemma NoMembers(v: Value, items: seq<Member>, start: string)
    requires v.Obj?
    ensures start + MembersText(v, items[..0], true) == start
  {
  }

  lemma OneMoreMember(v: Value, items: seq<Member>, i: nat, start: string)
    requires v.Obj? && i < |items| && forall m | m in items :: m in v.members
    ensures (forall m | m in items[..i] :: m in v.members) && forall m | m in items[..i + 1] :: m in v.members
    ensures var done, sep := MembersText(v, items[..i], true), if i == 0 then "" else ",";
      ((start + done) + sep) + MemberText(v, items[i]) == start + MembersText(v, items[..i + 1], true)
  {
    hide MembersText, MemberText;
    NextMember(v, items, i);
    var done, sep := MembersText(v, items[..i], true), if i == 0 then "" else ",";
    Assoc(start, done, sep);
    Assoc(start, done + sep, MemberText(v, items[i]));
  }

  method EmitMembers(buf: Buffer, v: Value, items: seq<Member>)
    requires buf.Valid() && v.Obj? && (forall m | m in items :: m in v.members) && WellFormed(v)
    modifies buf, buf.data
    ensures buf.Valid() && (buf.data == old(buf.data) || fresh(buf.data))
    ensures buf.contents == old(buf.contents) + MembersText(v, items, true)
    decreases v, 0, 1
  {
    hide MembersText, MemberText, WellFormed;
    ghost var start := buf.contents;
    NoMembers(v, items, start);
    for i := 0 to |items|
      invariant buf.Valid() && (buf.data == old(buf.data) || fresh(buf.data))
      invariant forall m | m in items[..i] :: m in v.members
      invariant buf.contents == start + MembersText(v, items[..i], true)
    {
      OneMoreMember(v, items, i, start);
      if i != 0 { buf.Append(","); }
      EmitMember(buf, v, items[i]);
    }
    assert items[..|items|] == items;
  }

  method EmitObject(buf: Buffer, v: Value)
    requires buf.Valid() && v.Obj? && WellFormed(v)
    modifies buf, buf.data
    ensures buf.Valid() && (buf.data == old(buf.data) || fresh(buf.data))
    ensures buf.contents == old(buf.contents) + Canonical(v)
    decreases v, 0, 2
  {
    KeyLeIsComparison();
    var items := QSort(v.members, KeyLe);
    AnySortIsTheSort(v, items);
    SortedMembers(v.members);
    buf.Append("{");
    EmitMembers(buf, v, items);
    buf.Append("}");
    Assoc(old(buf.contents), "{", MembersText(v, items, true));
    Assoc(old(buf.contents), "{" + MembersText(v, items, true), "}");
  }

  /** The one trailing newline, and the finished bytes. */
  method Terminated(buf: Buffer, ghost v: Value) returns (text: string)
    requires buf.Valid() && buf.contents == "" + Canonical(v)
    modifies buf, buf.data
    ensures text == Document(v)
  {
    assert "" + Canonical(v) == Canonical(v);
    buf.Append("\n");
    text := buf.data[..buf.length];
  }

  /** jw_catalog_json_canonical */
  method CanonicalBytes(v: Value) returns (text: string)
    requires WellFormed(v)
    ensures text == Document(v)
  {
    var buf := new Buffer();
    Emit(buf, v);
    text := Terminated(buf, v);
  }

  // ---------------------------------------------------------------- the generation stamp

  datatype Hashes = Hashes(systems: string, cores: string, info: string)
  datatype FileStamp = FileStamp(rel: string, sha256: string)
  datatype ContributorStamp = ContributorStamp(provider: string, sourceId: string, pakVersion: string,
                                               providesSha256: string, files: seq<FileStamp>)
  datatype Stamp = Stamp(platform: string, releaseId: string, base: Hashes, output: Hashes,
                         contributors: seq<ContributorStamp>)

  // The stamp as a JSON tree, each object in the order its C struct declares the fields.

  function HashesTree(h: Hashes): Value {
    Obj([Member("systems_sha256", Str(h.systems)),
      Member("cores_sha256", Str(h.cores)), Member("info_sha256", Str(h.info))])
  }

  function FileTree(f: FileStamp): Value {
    Obj([Member("rel", Str(f.rel)), Member("sha256", Str(f.sha256))])
  }

  function FilesTree(fs: seq<FileStamp>): Value {
    Arr(seq(|fs|, i requires 0 <= i < |fs| => FileTree(fs[i])))
  }

  function ContributorTree(c: ContributorStamp): Value {
    Obj([Member("provider", Str(c.provider)),
      Member("source_id", Str(c.sourceId)), Member("pak_version", Str(c.pakVersion)),
         Member("provides_sha256", Str(c.providesSha256)), Member("files", FilesTree(c.files))])
  }

  function ContributorsTree(cs: seq<ContributorStamp>): Value {
    Arr(seq(|cs|, i requires 0 <= i < |cs| => ContributorTree(cs[i])))
  }

  function StampTree(s: Stamp): Value {
    Obj([Member("schema", Num("1")), Member("platform", Str(s.platform)), Member("release_id", Str(s.releaseId)),
         Member("base", HashesTree(s.base)), Member("output", HashesTree(s.output)),
         Member("contributors", ContributorsTree(s.contributors))])
  }

  ghost predicate CleanHashes(h: Hashes) {
    NulFree(h.systems) && NulFree(h.cores) && NulFree(h.info)
  }

  /** All strings of the stamp are C strings. */
  ghost predicate CleanStamp(s: Stamp) {
    && NulFree(s.platform) && NulFree(s.releaseId) && CleanHashes(s.base) && CleanHashes(s.output)
    && forall i | 0 <= i < |s.contributors| :: CleanContributor(s.contributors[i])
  }

  ghost predicate CleanContributor(c: ContributorStamp) {
    && NulFree(c.provider) && NulFree(c.sourceId) && NulFree(c.pakVersion) && NulFree(c.providesSha256)
    && forall i | 0 <= i < |c.files| :: NulFree(c.files[i].rel) && NulFree(c.files[i].sha256)
  }

  // ---------------------------------------------------------------- writing an object field by field

  lemma SmallerFirstByte(a: string, b: string)
    requires a != [] && b != [] && a[0] < b[0]
    ensures StrLe(a, b)
  {
  }

  /** A chain of adjacent comparisons sorts the whole sequence. */
  lemma {:induction false} ChainSorted(ms: seq<Member>)
    requires forall i | 0 <= i < |ms| - 1 :: KeyLe(ms[i], ms[i + 1])
    ensures SortedBy(ms, KeyLe)
    decreases |ms|
  {
    if |ms| > 1 {
      ChainSorted(ms[1..]);
      forall j | 0 < j < |ms| ensures KeyLe(ms[0], ms[j]) {
        assert ms[1..][j - 1] == ms[j];
        if j > 1 { assert KeyLe(ms[1..][0], ms[1..][j - 1]); StrLeTransitive(ms[0].key, ms[1].key, ms[j].key); }
      }
    }
  }

  /** `s` lists the members of `v` in canonical order. */
  ghost predicate Arranged(v: Value, s: seq<Member>) {
    v.Obj? && Arrange(v.members) == s
  }

  lemma ArrangedMembers(v: Value, s: seq<Member>)
    requires Arranged(v, s)
    ensures forall m :: m in s <==> m in v.members
  {
    SortedMembers(v.members);
  }

  lemma FirstField(v: Value, s: seq<Member>, before: string, literal: string)
    requires Arranged(v, s) && s != [] && (forall m | m in s :: m in v.members)
    requires literal == "{" + (Quoted(s[0].key) + ":")
    ensures forall m | m in s[..1] :: m in v.members
    ensures (before + literal) + Canonical(s[0].value) == (before + "{") + MembersText(v, s[..1], true)
  {
    NextMember(v, s, 0);
    var q, t := Quoted(s[0].key) + ":", Canonical(s[0].value);
    assert MembersText(v, s[..1], true) == q + t;
    Assoc(before, "{", q);
    Assoc(before + "{", q, t);
  }

  lemma NextField(v: Value, s: seq<Member>, k: nat, start: string, literal: string)
    requires Arranged(v, s) && 0 < k < |s| && (forall m | m in s :: m in v.members)
    requires literal == "," + (Quoted(s[k].key) + ":")
    ensures forall m | m in s[..k] :: m in v.members
    ensures forall m | m in s[..k + 1] :: m in v.members
    ensures ((start + MembersText(v, s[..k], true)) + literal) + Canonical(s[k].value)
      == start + MembersText(v, s[..k + 1], true)
  {
    hide MembersText, Canonical, Quoted;
    NextMember(v, s, k);
    var done, q, t := MembersText(v, s[..k], true), Quoted(s[k].key) + ":", Canonical(s[k].value);
    Assoc(done, ",", q);
    Assoc(done + ",", q, t);
    Assoc(start, done, literal);
    Assoc(start, done + literal, t);
  }

  lemma LastField(v: Value, s: seq<Member>, before: string)
    requires Arranged(v, s) && (forall m | m in s :: m in v.members)
    ensures forall m | m in s[..|s|] :: m in v.members
    ensures ((before + "{") + MembersText(v, s[..|s|], true)) + "}" == before + Canonical(v)
  {
    assert s[..|s|] == s;
    var t := MembersText(v, s, true);
    Assoc(before, "{", t);
    Assoc(before, "{" + t, "}");
  }

  lemma {:induction false} PlainKey(k: string)
    requires forall i | 0 <= i < |k| :: k[i] as int >= 0x20 && k[i] != '"' && k[i] != '\\'
    ensures Escape(k) == k && NulFree(k)
    decreases |k|
  {
    if k != [] { PlainKey(k[1..]); assert k == [k[0]] + k[1..]; }
  }

  /** The buffer's contents once the first `k` fields of an arranged object are out. */
  ghost function Written(v: Value, s: seq<Member>, k: nat, before: string): string
    requires Arranged(v, s) && k <= |s|
  {
    ArrangedMembers(v, s);
    if k == 0 then before else (before + "{") + MembersText(v, s[..k], true)
  }

  lemma FieldWritten(v: Value, s: seq<Member>, k: nat, before: string, literal: string)
    requires Arranged(v, s) && k < |s| && literal == (if k == 0 then "{" else ",") + (Quoted(s[k].key) + ":")
    ensures (Written(v, s, k, before) + literal) + Canonical(s[k].value) == Written(v, s, k + 1, before)
  {
    ArrangedMembers(v, s);
    if k == 0 { FirstField(v, s, before, literal); } else { NextField(v, s, k, before + "{", literal); }
  }

  lemma ObjectWritten(v: Value, s: seq<Member>, before: string)
    requires Arranged(v, s) && s != []
    ensures Written(v, s, |s|, before) + "}" == before + Canonical(v)
  {
    ArrangedMembers(v, s);
    LastField(v, s, before);
  }

  /** No byte of the key needs escaping. */
  predicate Plain(k: string) {
    forall i | 0 <= i < |k| :: k[i] as int >= 0x20 && k[i] != '"' && k[i] != '\\'
  }

  /** The literal that spells a separator, a plain key in quotes and a colon. */
  method EmitKey(buf: Buffer, separator: string, key: string)
    requires buf.Valid() && Plain(key)
    modifies buf, buf.data
    ensures buf.Valid() && (buf.data == old(buf.data) || fresh(buf.data))
    ensures buf.contents == old(buf.contents) + (separator + (Quoted(key) + ":"))
  {
    PlainKey(key);
    assert separator + "\"" + key + "\":" == separator + (Quoted(key) + ":");
    buf.Append(separator + "\"" + key + "\":");
  }

  /** One string field: its literal key, then the quoted value. */
  method EmitTextField(buf: Buffer, ghost v: Value, ghost s: seq<Member>, ghost k: nat, ghost before: string,
                       separator: string, key: string, text: string)
    requires buf.Valid() && Arranged(v, s) && k < |s| && s[k] == Member(key, Str(text))
    requires Plain(key) && separator == if k == 0 then "{" else ","
    requires buf.contents == Written(v, s, k, before)
    modifies buf, buf.data
    ensures buf.Valid() && (buf.data == old(buf.data) || fresh(buf.data))
    ensures buf.contents == Written(v, s, k + 1, before)
  {
    EmitKey(buf, separator, key);
    EmitString(buf, text);
    FieldWritten(v, s, k, before, separator + (Quoted(key) + ":"));
  }

  /** First byte and length already tell the keys apart. */
  ghost predicate Distinguished(ms: seq<Member>) {
    && (forall i | 0 <= i < |ms| :: ms[i].key != [])
    && forall i, j | 0 <= i < j < |ms| :: ms[i].key[0] != ms[j].key[0] || |ms[i].key| != |ms[j].key|
  }

  lemma ObjectWellFormed(ms: seq<Member>)
    requires Distinguished(ms) && forall i | 0 <= i < |ms| :: NulFree(ms[i].key) && WellFormed(ms[i].value)
    ensures WellFormed(Obj(ms))
  {
  }

  lemma ArrangedBy(v: Value, s: seq<Member>)
    requires v.Obj? && WellFormed(v) && Permuted(s, v.members)
    requires forall i | 0 <= i < |s| - 1 :: KeyLe(s[i], s[i + 1])
    ensures Arranged(v, s)
  {
    ChainSorted(s);
    AnySortIsTheSort(v, s);
  }

  lemma TextWellFormed(s: string)
    requires NulFree(s)
    ensures WellFormed(Str(s))
  {
  }

  // ---------------------------------------------------------------- hashes

  ghost function HashesArranged(h: Hashes): seq<Member> {
    [Member("cores_sha256", Str(h.cores)), Member("info_sha256", Str(h.info)), Member("systems_sha256", Str(h.systems))]
  }

  lemma HashesWellFormed(h: Hashes)
    requires CleanHashes(h)
    ensures WellFormed(HashesTree(h))
  {
    TextWellFormed(h.systems); TextWellFormed(h.cores); TextWellFormed(h.info);
    var ms := HashesTree(h).members;
    assert NulFree(ms[0].key) && NulFree(ms[1].key) && NulFree(ms[2].key);
    assert ms[0].key[0] == 's' && ms[1].key[0] == 'c' && ms[2].key[0] == 'i';
    ObjectWellFormed(ms);
  }

  lemma HashesOrder(h: Hashes)
    requires CleanHashes(h)
    ensures Arranged(HashesTree(h), HashesArranged(h))
  {
    HashesWellFormed(h);
    var v, s := HashesTree(h), HashesArranged(h);
    SmallerFirstByte(s[0].key, s[1].key);
    SmallerFirstByte(s[1].key, s[2].key);
    assert v.members == [s[2], s[0], s[1]];
    ArrangedBy(v, s);
  }

  method EmitHashesAs(buf: Buffer, ghost v: Value, ghost s: seq<Member>, key0: string, key1: string, key2: string,
                      h: Hashes)
    requires buf.Valid() && Arranged(v, s) && Plain(key0) && Plain(key1) && Plain(key2) && |s| == 3
    requires s[0] == Member(key0, Str(h.cores)) && s[1] == Member(key1, Str(h.info))
    requires s[2] == Member(key2, Str(h.systems))
    modifies buf, buf.data
    ensures buf.Valid() && (buf.data == old(buf.data) || fresh(buf.data))
    ensures buf.contents == old(buf.contents) + Canonical(v)
  {
    ghost var before := buf.contents;
    EmitTextField(buf, v, s, 0, before, "{", key0, h.cores);
    EmitTextField(buf, v, s, 1, before, ",", key1, h.info);
    EmitTextField(buf, v, s, 2, before, ",", key2, h.systems);
    buf.Append("}");
    ObjectWritten(v, s, before);
  }

  lemma HashesKeysPlain()
    ensures Plain("cores_sha256") && Plain("info_sha256") && Plain("systems_sha256")
  {
  }

  /** jw_cat__emit_hashes: keys written in the order cores, info, systems. */
  method EmitHashes(buf: Buffer, h: Hashes)
    requires buf.Valid() && CleanHashes(h)
    modifies buf, buf.data
    ensures buf.Valid() && (buf.data == old(buf.data) || fresh(buf.data))
    ensures buf.contents == old(buf.contents) + Canonical(HashesTree(h))
  {
    hide Canonical, Arranged, Plain;
    HashesOrder(h);
    HashesKeysPlain();
    EmitHashesAs(buf, HashesTree(h), HashesArranged(h), "cores_sha256", "info_sha256", "systems_sha256", h);
  }

  // ---------------------------------------------------------------- files

  lemma FileWellFormed(f: FileStamp)
    requires NulFree(f.rel) && NulFree(f.sha256)
    ensures WellFormed(FileTree(f)) && Arranged(FileTree(f), FileTree(f).members)
  {
    TextWellFormed(f.rel); TextWellFormed(f.sha256);
    var ms := FileTree(f).members;
    assert NulFree(ms[0].key) && NulFree(ms[1].key);
    assert ms[0].key[0] == 'r' && ms[1].key[0] == 's';
    ObjectWellFormed(ms);
    SmallerFirstByte(ms[0].key, ms[1].key);
    ArrangedBy(FileTree(f), ms);
  }

  method EmitFileAs(buf: Buffer, ghost v: Value, ghost s: seq<Member>, key0: string, key1: string, f: FileStamp)
    requires buf.Valid() && Arranged(v, s) && Plain(key0) && Plain(key1) && |s| == 2
    requires s[0] == Member(key0, Str(f.rel)) && s[1] == Member(key1, Str(f.sha256))
    modifies buf, buf.data
    ensures buf.Valid() && (buf.data == old(buf.data) || fresh(buf.data))
    ensures buf.contents == old(buf.contents) + Canonical(v)
  {
    ghost var before := buf.contents;
    EmitTextField(buf, v, s, 0, before, "{", key0, f.rel);
    EmitTextField(buf, v, s, 1, before, ",", key1, f.sha256);
    buf.Append("}");
    ObjectWritten(v, s, before);
  }

  method EmitFile(buf: Buffer, f: FileStamp)
    requires buf.Valid() && NulFree(f.rel) && NulFree(f.sha256)
    modifies buf, buf.data
    ensures buf.Valid() && (buf.data == old(buf.data) || fresh(buf.data))
    ensures buf.contents == old(buf.contents) + Canonical(FileTree(f))
  {
    FileWellFormed(f);
    EmitFileAs(buf, FileTree(f), FileTree(f).members, "rel", "sha256", f);
  }

  /** The buffer once the first `i` elements of an array are out. */
  ghost function Listed(v: Value, i: nat, before: string): string
    requires v.Arr? && i <= |v.items|
  {
    (before + "[") + ItemsText(v, v.items[..i], true)
  }

  lemma ItemListed(v: Value, i: nat, before: string)
    requires v.Arr? && i < |v.items|
    ensures (Listed(v, i, before) + if i == 0 then "" else ",") + Canonical(v.items[i]) == Listed(v, i + 1, before)
  {
    NextItem(v, i);
    var done, sep := ItemsText(v, v.items[..i], true), if i == 0 then "" else ",";
    Assoc(before + "[", done, sep);
    Assoc(before + "[", done + sep, Canonical(v.items[i]));
  }

  lemma ArrayListed(v: Value, before: string)
    requires v.Arr?
    ensures Listed(v, 0, before) == before + "["
    ensures Listed(v, |v.items|, before) + "]" == before + Canonical(v)
  {
    assert v.items[..|v.items|] == v.items && v.items[..0] == [];
    Assoc(before, "[", ItemsText(v, v.items, true));
    Assoc(before, "[" + ItemsText(v, v.items, true), "]");
  }

  method EmitFiles(buf: Buffer, fs: seq<FileStamp>)
    requires buf.Valid() && forall i | 0 <= i < |fs| :: NulFree(fs[i].rel) && NulFree(fs[i].sha256)
    modifies buf, buf.data
    ensures buf.Valid() && (buf.data == old(buf.data) || fresh(buf.data))
    ensures buf.contents == old(buf.contents) + Canonical(FilesTree(fs))
  {
    hide Canonical, Listed, FileTree;
    ghost var v, before := FilesTree(fs), buf.contents;
    ArrayListed(v, before);
    buf.Append("[");
    for f := 0 to |fs|
      invariant buf.Valid() && (buf.data == old(buf.data) || fresh(buf.data))
      invariant buf.contents == Listed(v, f, before)
    {
      ItemListed(v, f, before);
      if f != 0 { buf.Append(","); }
      EmitFile(buf, fs[f]);
    }
    buf.Append("]");
  }

  // ---------------------------------------------------------------- contributors

  ghost function ContributorArranged(c: ContributorStamp): seq<Member> {
    [Member("files", FilesTree(c.files)), Member("pak_version", Str(c.pakVersion)), Member("provider", Str(c.provider)),
     Member("provides_sha256", Str(c.providesSha256)), Member("source_id", Str(c.sourceId))]
  }

  lemma FilesWellFormed(fs: seq<FileStamp>)
    requires forall i | 0 <= i < |fs| :: NulFree(fs[i].rel) && NulFree(fs[i].sha256)
    ensures WellFormed(FilesTree(fs))
  {
    forall i | 0 <= i < |fs| ensures WellFormed(FilesTree(fs).items[i]) { FileWellFormed(fs[i]); }
  }

  lemma ContributorWellFormed(c: ContributorStamp)
    requires CleanContributor(c)
    ensures WellFormed(ContributorTree(c))
  {
    hide WellFormed, FilesTree, NulFree, Distinguished;
    TextWellFormed(c.provider); TextWellFormed(c.sourceId);
    TextWellFormed(c.pakVersion); TextWellFormed(c.providesSha256);
    FilesWellFormed(c.files);
    ContributorKeysClean();
    ContributorKeysDiffer(c);
    ObjectWellFormed(ContributorTree(c).members);
  }

  lemma ContributorKeysClean()
    ensures NulFree("provider") && NulFree("source_id") && NulFree("pak_version") && NulFree("provides_sha256")
    ensures NulFree("files")
  {
  }

  lemma ContributorKeysDiffer(c: ContributorStamp)
    ensures Distinguished(ContributorTree(c).members)
  {
    var ms := ContributorTree(c).members;
    assert |ms[0].key| == 8 && |ms[1].key| == 9 && |ms[2].key| == 11 && |ms[3].key| == 15 && |ms[4].key| == 5;
  }

  lemma PakBeforeProvider()
    ensures StrLe("pak_version", "provider")
  {
    CommonPrefix("p", "ak_version", "rovider");
    assert "p" + "ak_version" == "pak_version" && "p" + "rovider" == "provider";
  }

  lemma ProviderBeforeProvides()
    ensures StrLe("provider", "provides_sha256")
  {
    CommonPrefix("provide", "r", "s_sha256");
    assert "provide" + "r" == "provider" && "provide" + "s_sha256" == "provides_sha256";
  }

  lemma FivePermuted<T>(a: T, b: T, c: T, d: T, e: T)
    ensures Permuted([a] + [b] + [c] + [d] + [e], [c] + [e] + [b] + [d] + [a])
  {
  }

  lemma FiveArranged(v: Value, s: seq<Member>)
    requires v.Obj? && WellFormed(v) && |s| == |v.members| == 5
    requires var m := v.members; s[0] == m[4] && s[1] == m[2] && s[2] == m[0] && s[3] == m[3] && s[4] == m[1]
    requires KeyLe(s[0], s[1]) && KeyLe(s[1], s[2]) && KeyLe(s[2], s[3]) && KeyLe(s[3], s[4])
    ensures Arranged(v, s)
  {
    var m := v.members;
    assert s == [s[0]] + [s[1]] + [s[2]] + [s[3]] + [s[4]];
    assert m == [s[2]] + [s[4]] + [s[1]] + [s[3]] + [s[0]];
    FivePermuted(s[0], s[1], s[2], s[3], s[4]);
    assert Permuted(s, m);
    ArrangedBy(v, s);
  }

  lemma SixPermuted<T>(a: T, b: T, c: T, d: T, e: T, f: T)
    ensures Permuted([a] + [b] + [c] + [d] + [e] + [f], [f] + [d] + [e] + [a] + [c] + [b])
  {
  }

  lemma SixArranged(v: Value, s: seq<Member>)
    requires v.Obj? && WellFormed(v) && |s| == |v.members| == 6
    requires var m := v.members;
      s[0] == m[3] && s[1] == m[5] && s[2] == m[4] && s[3] == m[1] && s[4] == m[2] && s[5] == m[0]
    requires KeyLe(s[0], s[1]) && KeyLe(s[1], s[2]) && KeyLe(s[2], s[3]) && KeyLe(s[3], s[4]) && KeyLe(s[4], s[5])
    ensures Arranged(v, s)
  {
    var m := v.members;
    assert s == [s[0]] + [s[1]] + [s[2]] + [s[3]] + [s[4]] + [s[5]];
    assert m == [s[5]] + [s[3]] + [s[4]] + [s[0]] + [s[2]] + [s[1]];
    SixPermuted(s[0], s[1], s[2], s[3], s[4], s[5]);
    ArrangedBy(v, s);
  }

  lemma ContributorOrder(c: ContributorStamp)
    requires CleanContributor(c)
    ensures Arranged(ContributorTree(c), ContributorArranged(c))
  {
    ContributorWellFormed(c);
    PakBeforeProvider();
    ProviderBeforeProvides();
    SmallerFirstByte("files", "pak_version");
    SmallerFirstByte("provides_sha256", "source_id");
    FiveArranged(ContributorTree(c), ContributorArranged(c));
  }

  method EmitContributorAs(buf: Buffer, ghost v: Value, ghost s: seq<Member>, key0: string, key1: string, key2: string,
                           key3: string, key4: string, c: ContributorStamp)
    requires buf.Valid() && Arranged(v, s) && |s| == 5 && CleanContributor(c)
    requires Plain(key0) && Plain(key1) && Plain(key2) && Plain(key3) && Plain(key4)
    requires s[0] == Member(key0, FilesTree(c.files)) && s[1] == Member(key1, Str(c.pakVersion))
    requires s[2] == Member(key2, Str(c.provider)) && s[3] == Member(key3, Str(c.providesSha256))
    requires s[4] == Member(key4, Str(c.sourceId))
    modifies buf, buf.data
    ensures buf.Valid() && (buf.data == old(buf.data) || fresh(buf.data))
    ensures buf.contents == old(buf.contents) + Canonical(v)
  {
    ghost var before := buf.contents;
    EmitKey(buf, "{", key0);
    EmitFiles(buf, c.files);
    FieldWritten(v, s, 0, before, "{" + (Quoted(key0) + ":"));
    EmitTextField(buf, v, s, 1, before, ",", key1, c.pakVersion);
    EmitTextField(buf, v, s, 2, before, ",", key2, c.provider);
    EmitTextField(buf, v, s, 3, before, ",", key3, c.providesSha256);
    EmitTextField(buf, v, s, 4, before, ",", key4, c.sourceId);
    buf.Append("}");
    ObjectWritten(v, s, before);
  }

  lemma ContributorKeysPlain()
    ensures Plain("files") && Plain("pak_version") && Plain("provider") && Plain("provides_sha256")
    ensures Plain("source_id")
  {
  }

  method EmitContributor(buf: Buffer, c: ContributorStamp)
    requires buf.Valid() && CleanContributor(c)
    modifies buf, buf.data
    ensures buf.Valid() && (buf.data == old(buf.data) || fresh(buf.data))
    ensures buf.contents == old(buf.contents) + Canonical(ContributorTree(c))
  {
    ContributorOrder(c);
    ContributorKeysPlain();
    EmitContributorAs(buf, ContributorTree(c), ContributorArranged(c),
                      "files", "pak_version", "provider", "provides_sha256", "source_id", c);
  }

  method EmitContributors(buf: Buffer, cs: seq<ContributorStamp>)
    requires buf.Valid() && forall i | 0 <= i < |cs| :: CleanContributor(cs[i])
    modifies buf, buf.data
    ensures buf.Valid() && (buf.data == old(buf.data) || fresh(buf.data))
    ensures buf.contents == old(buf.contents) + Canonical(ContributorsTree(cs))
  {
    hide Canonical, Listed, ContributorTree, CleanContributor;
    ghost var v, before := ContributorsTree(cs), buf.contents;
    ArrayListed(v, before);
    buf.Append("[");
    for i := 0 to |cs|
      invariant buf.Valid() && (buf.data == old(buf.data) || fresh(buf.data))
      invariant buf.contents == Listed(v, i, before)
    {
      ItemListed(v, i, before);
      if i != 0 { buf.Append(","); }
      EmitContributor(buf, cs[i]);
    }
    buf.Append("]");
  }

  // ---------------------------------------------------------------- the whole stamp

  ghost function StampArranged(t: Stamp): seq<Member> {
    [Member("base", HashesTree(t.base)), Member("contributors", ContributorsTree(t.contributors)),
     Member("output", HashesTree(t.output)), Member("platform", Str(t.platform)),
     Member("release_id", Str(t.releaseId)), Member("schema", Num("1"))]
  }

  lemma StampWellFormed(t: Stamp)
    requires CleanStamp(t)
    ensures WellFormed(StampTree(t))
  {
    hide WellFormed, HashesTree, ContributorsTree, NulFree, Distinguished;
    TextWellFormed(t.platform); TextWellFormed(t.releaseId); SchemaWellFormed();
    HashesWellFormed(t.base); HashesWellFormed(t.output);
    ContributorsWellFormed(t.contributors);
    StampKeysClean();
    StampKeysDiffer(t);
    ObjectWellFormed(StampTree(t).members);
  }

  lemma SchemaWellFormed()
    ensures WellFormed(Num("1"))
  {
  }

  lemma ContributorsWellFormed(cs: seq<ContributorStamp>)
    requires forall i | 0 <= i < |cs| :: CleanContributor(cs[i])
    ensures WellFormed(ContributorsTree(cs))
  {
    hide ContributorTree, CleanContributor;
    forall i | 0 <= i < |cs| ensures WellFormed(ContributorsTree(cs).items[i]) { ContributorWellFormed(cs[i]); }
  }

  lemma StampKeysClean()
    ensures NulFree("schema") && NulFree("platform") && NulFree("release_id") && NulFree("base") && NulFree("output")
    ensures NulFree("contributors")
  {
  }

  lemma StampKeysDiffer(t: Stamp)
    ensures Distinguished(StampTree(t).members)
  {
    var ms := StampTree(t).members;
    assert |ms[0].key| == 6 && |ms[1].key| == 8 && |ms[2].key| == 10
      && |ms[3].key| == 4 && |ms[4].key| == 6 && |ms[5].key| == 12;
    assert ms[0].key[0] == 's' && ms[4].key[0] == 'o';
  }

  lemma StampOrder(t: Stamp)
    requires CleanStamp(t)
    ensures Arranged(StampTree(t), StampArranged(t))
  {
    StampWellFormed(t);
    SmallerFirstByte("base", "contributors");
    SmallerFirstByte("contributors", "output"); SmallerFirstByte("output", "platform");
    SmallerFirstByte("platform", "release_id"); SmallerFirstByte("release_id", "schema");
    SixArranged(StampTree(t), StampArranged(t));
  }

  /** `s` is the arranged stamp under these keys. */
  ghost predicate StampLayout(v: Value, s: seq<Member>, keys: seq<string>, t: Stamp) {
    && Arranged(v, s) && |s| == |keys| == 6 && (forall k | k in keys :: Plain(k))
    && s[0] == Member(keys[0], HashesTree(t.base)) && s[1] == Member(keys[1], ContributorsTree(t.contributors))
    && s[2] == Member(keys[2], HashesTree(t.output)) && s[3] == Member(keys[3], Str(t.platform))
    && s[4] == Member(keys[4], Str(t.releaseId)) && s[5] == Member(keys[5], Num("1"))
  }

  method EmitHashesField(buf: Buffer, ghost v: Value, ghost s: seq<Member>, ghost k: nat, ghost before: string,
                         separator: string, key: string, h: Hashes)
    requires buf.Valid() && Arranged(v, s) && k < |s| && s[k] == Member(key, HashesTree(h)) && CleanHashes(h)
    requires Plain(key) && separator == if k == 0 then "{" else ","
    requires buf.contents == Written(v, s, k, before)
    modifies buf, buf.data
    ensures buf.Valid() && (buf.data == old(buf.data) || fresh(buf.data))
    ensures buf.contents == Written(v, s, k + 1, before)
  {
    EmitKey(buf, separator, key);
    EmitHashes(buf, h);
    FieldWritten(v, s, k, before, separator + (Quoted(key) + ":"));
  }

  method EmitContributorsField(buf: Buffer, ghost v: Value, ghost s: seq<Member>, ghost k: nat, ghost before: string,
                               separator: string, key: string, cs: seq<ContributorStamp>)
    requires buf.Valid() && Arranged(v, s) && k < |s| && s[k] == Member(key, ContributorsTree(cs))
    requires forall i | 0 <= i < |cs| :: CleanContributor(cs[i])
    requires Plain(key) && separator == if k == 0 then "{" else ","
    requires buf.contents == Written(v, s, k, before)
    modifies buf, buf.data
    ensures buf.Valid() && (buf.data == old(buf.data) || fresh(buf.data))
    ensures buf.contents == Written(v, s, k + 1, before)
  {
    EmitKey(buf, separator, key);
    EmitContributors(buf, cs);
    FieldWritten(v, s, k, before, separator + (Quoted(key) + ":"));
  }

  method EmitNumberField(buf: Buffer, ghost v: Value, ghost s: seq<Member>, ghost k: nat, ghost before: string,
                         separator: string, key: string, printed: string)
    requires buf.Valid() && Arranged(v, s) && k < |s| && s[k] == Member(key, Num(printed))
    requires Plain(key) && separator == if k == 0 then "{" else ","
    requires buf.contents == Written(v, s, k, before)
    modifies buf, buf.data
    ensures buf.Valid() && (buf.data == old(buf.data) || fresh(buf.data))
    ensures buf.contents == Written(v, s, k + 1, before)
  {
    EmitKey(buf, separator, key);
    buf.Append(printed);
    FieldWritten(v, s, k, before, separator + (Quoted(key) + ":"));
  }

  method EmitStampTrees(buf: Buffer, ghost v: Value, ghost s: seq<Member>, keys: seq<string>, t: Stamp)
    requires buf.Valid() && StampLayout(v, s, keys, t) && CleanStamp(t)
    modifies buf, buf.data
    ensures buf.Valid() && (buf.data == old(buf.data) || fresh(buf.data))
    ensures buf.contents == Written(v, s, 3, old(buf.contents))
  {
    ghost var before := buf.contents;
    EmitHashesField(buf, v, s, 0, before, "{", keys[0], t.base);
    EmitContributorsField(buf, v, s, 1, before, ",", keys[1], t.contributors);
    EmitHashesField(buf, v, s, 2, before, ",", keys[2], t.output);
  }

  method EmitStampAs(buf: Buffer, ghost v: Value, ghost s: seq<Member>, keys: seq<string>, t: Stamp)
    requires buf.Valid() && StampLayout(v, s, keys, t) && CleanStamp(t)
    modifies buf, buf.data
    ensures buf.Valid() && (buf.data == old(buf.data) || fresh(buf.data))
    ensures buf.contents == old(buf.contents) + Canonical(v)
  {
    ghost var before := buf.contents;
    EmitStampTrees(buf, v, s, keys, t);
    EmitTextField(buf, v, s, 3, before, ",", keys[3], t.platform);
    EmitTextField(buf, v, s, 4, before, ",", keys[4], t.releaseId);
    EmitNumberField(buf, v, s, 5, before, ",", keys[5], "1");
    buf.Append("}");
    ObjectWritten(v, s, before);
  }

  /** The stamp's keys, in the order they are written. */
  const STAMP_KEYS: seq<string> := ["base", "contributors", "output", "platform", "release_id", "schema"]

  lemma StampKeysPlain()
    ensures forall k | k in STAMP_KEYS :: Plain(k)
  {
    assert Plain("base") && Plain("contributors") && Plain("output");
    assert Plain("platform") && Plain("release_id") && Plain("schema");
  }

  lemma StampLaidOut(t: Stamp)
    requires CleanStamp(t)
    ensures StampLayout(StampTree(t), StampArranged(t), STAMP_KEYS, t)
  {
    hide Arranged, WellFormed, Plain, CleanStamp, HashesTree, ContributorsTree;
    StampOrder(t);
    StampKeysPlain();
  }

  /** The bytes whose digest names a generation. */
  ghost function StampBytes(t: Stamp): string {
    Document(StampTree(t))
  }

  method EmitStamp(buf: Buffer, t: Stamp)
    requires buf.Valid() && CleanStamp(t)
    modifies buf, buf.data
    ensures buf.Valid() && (buf.data == old(buf.data) || fresh(buf.data))
    ensures buf.contents == old(buf.contents) + Canonical(StampTree(t))
  {
    StampLaidOut(t);
    EmitStampAs(buf, StampTree(t), StampArranged(t), STAMP_KEYS, t);
  }

  /** jw_cat__stamp_canonical: the hand-ordered writer produces exactly the generic canonical bytes of the same tree. */
  method StampCanonical(t: Stamp) returns (text: string)
    requires CleanStamp(t)
    ensures text == StampBytes(t)
  {
    var buf := new Buffer();
    EmitStamp(buf, t);
    text := Terminated(buf, StampTree(t));
  }

  // ---------------------------------------------------------------- the stamp bytes identify the stamp

  /** Same object, same key at the same place: same value there. */
  lemma SameAt(v: Value, w: Value, i: nat)
    requires v.Obj? && w.Obj? && WellFormed(w) && Same(v, w)
    requires i < |v.members| && i < |w.members| && v.members[i].key == w.members[i].key
    ensures Same(v.members[i].value, w.members[i].value)
  {
    assert v.members[i] in v.members && w.members[i] in w.members;
    MembersCorrespond(v, w, v.members[i], w.members[i]);
  }

  lemma HashesIdentified(h: Hashes, k: Hashes)
    requires CleanHashes(h) && CleanHashes(k) && Same(HashesTree(h), HashesTree(k))
    ensures h == k
  {
    HashesWellFormed(k);
    SameAt(HashesTree(h), HashesTree(k), 0);
    SameAt(HashesTree(h), HashesTree(k), 1); SameAt(HashesTree(h), HashesTree(k), 2);
  }

  lemma FileIdentified(f: FileStamp, g: FileStamp)
    requires NulFree(g.rel) && NulFree(g.sha256) && Same(FileTree(f), FileTree(g))
    ensures f == g
  {
    FileWellFormed(g);
    SameAt(FileTree(f), FileTree(g), 0); SameAt(FileTree(f), FileTree(g), 1);
  }

  lemma FilesIdentified(fs: seq<FileStamp>, gs: seq<FileStamp>)
    requires forall i | 0 <= i < |gs| :: NulFree(gs[i].rel) && NulFree(gs[i].sha256)
    requires Same(FilesTree(fs), FilesTree(gs))
    ensures fs == gs
  {
    assert |FilesTree(fs).items| == |FilesTree(gs).items|;
    forall i | 0 <= i < |fs| ensures fs[i] == gs[i] {
      assert Same(FilesTree(fs).items[i], FilesTree(gs).items[i]);
      FileIdentified(fs[i], gs[i]);
    }
  }

  lemma ContributorIdentified(c: ContributorStamp, d: ContributorStamp)
    requires CleanContributor(d) && Same(ContributorTree(c), ContributorTree(d))
    ensures c == d
  {
    ContributorWellFormed(d);
    var v, w := ContributorTree(c), ContributorTree(d);
    SameAt(v, w, 0); SameAt(v, w, 1); SameAt(v, w, 2); SameAt(v, w, 3); SameAt(v, w, 4);
    FilesIdentified(c.files, d.files);
  }

  lemma ContributorsIdentified(cs: seq<ContributorStamp>, ds: seq<ContributorStamp>)
    requires (forall i | 0 <= i < |ds| :: CleanContributor(ds[i])) && Same(ContributorsTree(cs), ContributorsTree(ds))
    ensures cs == ds
  {
    assert |ContributorsTree(cs).items| == |ContributorsTree(ds).items|;
    forall i | 0 <= i < |cs| ensures cs[i] == ds[i] {
      assert Same(ContributorsTree(cs).items[i], ContributorsTree(ds).items[i]);
      ContributorIdentified(cs[i], ds[i]);
    }
  }

  lemma StampIdentified(t: Stamp, u: Stamp)
    requires CleanStamp(t) && CleanStamp(u) && Same(StampTree(t), StampTree(u))
    ensures t.base == u.base && t.output == u.output && t.contributors == u.contributors
  {
    StampWellFormed(u);
    var v, w := StampTree(t), StampTree(u);
    SameAt(v, w, 3); SameAt(v, w, 4); SameAt(v, w, 5);
    HashesIdentified(t.base, u.base); HashesIdentified(t.output, u.output);
    ContributorsIdentified(t.contributors, u.contributors);
  }

  lemma StampNamesIdentified(t: Stamp, u: Stamp)
    requires CleanStamp(u) && Same(StampTree(t), StampTree(u))
    ensures t.platform == u.platform && t.releaseId == u.releaseId
  {
    StampWellFormed(u);
    SameAt(StampTree(t), StampTree(u), 1); SameAt(StampTree(t), StampTree(u), 2);
  }

  /** Two stamps with the same bytes are the same stamp: same release, same inputs, same outputs, same files. */
  lemma StampBytesIdentifyStamp(t: Stamp, u: Stamp)
    requires CleanStamp(t) && CleanStamp(u)
    ensures StampBytes(t) == StampBytes(u) <==> t == u
  {
    if StampBytes(t) == StampBytes(u) {
      StampWellFormed(t); StampWellFormed(u);
      DocumentIdentifiesValue(StampTree(t), StampTree(u));
      StampIdentified(t, u);
      StampNamesIdentified(t, u);
    }
  }
}
