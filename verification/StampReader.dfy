/** Reading a stamp back, field by field under its JSON names. */
module StampReader {
  import opened Wrappers
  import opened CanonicalJson
  import opened JsonEmitter
  import opened JsonReader

  /** The first member of that name. */
  function Field(v: Value, key: string): Option<Value>
    decreases if v.Obj? then |v.members| else 0
  {
    if !v.Obj? || v.members == [] then None
    else if v.members[0].key == key then Some(v.members[0].value)
    else Field(Obj(v.members[1..]), key)
  }

  function TextField(v: Value, key: string): Option<string> {
    var f := Field(v, key);
    if f.Some? && f.value.Str? then Some(f.value.s) else None
  }

  function HashesOf(v: Option<Value>): Option<Hashes> {
    if v.None? then None
    else
      var systems, cores, info :=
        TextField(v.value, "systems_sha256"), TextField(v.value, "cores_sha256"), TextField(v.value, "info_sha256");
      if systems.None? || cores.None? || info.None? then None else Some(Hashes(systems.value, cores.value, info.value))
  }

  function FileOf(v: Value): Option<FileStamp> {
    var rel, sha := TextField(v, "rel"), TextField(v, "sha256");
    if rel.None? || sha.None? then None else Some(FileStamp(rel.value, sha.value))
  }

  function ListOf<T>(read: Value -> Option<T>, items: seq<Value>): Option<seq<T>> {
    if items == [] then Some([])
    else
      var first, rest := read(items[0]), ListOf(read, items[1..]);
      if first.None? || rest.None? then None else Some([first.value] + rest.value)
  }

  function ArrayOf<T>(read: Value -> Option<T>, v: Option<Value>): Option<seq<T>> {
    if v.None? || !v.value.Arr? then None else ListOf(read, v.value.items)
  }

  function ContributorOf(v: Value): Option<ContributorStamp> {
    var provider, source := TextField(v, "provider"), TextField(v, "source_id");
    var version, digest := TextField(v, "pak_version"), TextField(v, "provides_sha256");
    var files := ArrayOf(FileOf, Field(v, "files"));
    if provider.None? || source.None? || version.None? || digest.None? || files.None? then None
    else Some(ContributorStamp(provider.value, source.value, version.value, digest.value, files.value))
  }

  /** The stamp a JSON value describes, if it is one of schema 1. */
  function StampOf(v: Value): Option<Stamp> {
    var platform, release := TextField(v, "platform"), TextField(v, "release_id");
    var base, output := HashesOf(Field(v, "base")), HashesOf(Field(v, "output"));
    var contributors := ArrayOf(ContributorOf, Field(v, "contributors"));
    if Field(v, "schema") != Some(Num("1")) || platform.None? || release.None? then None
    else if base.None? || output.None? || contributors.None? then None
    else Some(Stamp(platform.value, release.value, base.value, output.value, contributors.value))
  }

  // ---------------------------------------------------------------- reading back

  lemma {:induction false} FieldIs(v: Value, key: string, j: nat)
    requires v.Obj? && DistinctKeys(v.members) && j < |v.members| && v.members[j].key == key
    ensures Field(v, key) == Some(v.members[j].value)
    decreases |v.members|
  {
    if j > 0 {
      var rest := Obj(v.members[1..]);
      forall a, b | 0 <= a < b < |rest.members| ensures rest.members[a].key != rest.members[b].key {
        assert rest.members[a] == v.members[a + 1] && rest.members[b] == v.members[b + 1];
      }
      assert v.members[0].key != v.members[j].key;
      FieldIs(rest, key, j - 1);
    }
  }

  /** A reordered object has the same fields. */
  lemma FieldSame(v: Value, w: Value, i: nat)
    requires v.Obj? && Same(v, w) && WellFormed(w) && i < |v.members|
    ensures var f := Field(w, v.members[i].key); f.Some? && Same(v.members[i].value, f.value) && WellFormed(f.value)
  {
    hide DistinctKeys;
    var m := v.members[i];
    assert Matched(m.key, m.value, w.members);
    var j: nat :| j < |w.members| && w.members[j].key == m.key && Same(m.value, w.members[j].value);
    FieldIs(w, m.key, j);
  }

  lemma TextSame(v: Value, w: Value, i: nat, key: string, text: string)
    requires v.Obj? && Same(v, w) && WellFormed(w) && i < |v.members| && v.members[i] == Member(key, Str(text))
    ensures TextField(w, key) == Some(text)
  {
    hide WellFormed;
    FieldSame(v, w, i);
  }

  lemma HashesRead(h: Hashes, w: Value)
    requires Same(HashesTree(h), w) && WellFormed(w)
    ensures HashesOf(Some(w)) == Some(h)
  {
    hide WellFormed, Same, Field;
    var v := HashesTree(h);
    TextSame(v, w, 0, "systems_sha256", h.systems);
    TextSame(v, w, 1, "cores_sha256", h.cores);
    TextSame(v, w, 2, "info_sha256", h.info);
  }

  lemma FileRead(f: FileStamp, w: Value)
    requires Same(FileTree(f), w) && WellFormed(w)
    ensures FileOf(w) == Some(f)
  {
    hide WellFormed, Same, Field;
    var v := FileTree(f);
    TextSame(v, w, 0, "rel", f.rel);
    TextSame(v, w, 1, "sha256", f.sha256);
  }

  lemma {:induction false} ListRead<T>(read: Value -> Option<T>, items: seq<Value>, xs: seq<T>)
    requires |items| == |xs| && forall i | 0 <= i < |xs| :: read(items[i]) == Some(xs[i])
    ensures ListOf(read, items) == Some(xs)
    decreases |xs|
  {
    if xs != [] {
      ListRead(read, items[1..], xs[1..]);
      assert xs == [xs[0]] + xs[1..];
    }
  }

  lemma FilesRead(fs: seq<FileStamp>, w: Value)
    requires Same(FilesTree(fs), w) && WellFormed(w)
    ensures ArrayOf(FileOf, Some(w)) == Some(fs)
  {
    hide FileOf, FileTree;
    forall i | 0 <= i < |fs| ensures FileOf(w.items[i]) == Some(fs[i]) {
      assert FilesTree(fs).items[i] == FileTree(fs[i]);
      FileRead(fs[i], w.items[i]);
    }
    ListRead(FileOf, w.items, fs);
  }

  lemma ContributorRead(c: ContributorStamp, w: Value)
    requires Same(ContributorTree(c), w) && WellFormed(w)
    ensures ContributorOf(w) == Some(c)
  {
    hide WellFormed, Same, Field, FilesTree;
    var v := ContributorTree(c);
    TextSame(v, w, 0, "provider", c.provider);
    TextSame(v, w, 1, "source_id", c.sourceId);
    TextSame(v, w, 2, "pak_version", c.pakVersion);
    TextSame(v, w, 3, "provides_sha256", c.providesSha256);
    FieldSame(v, w, 4);
    FilesRead(c.files, Field(w, "files").value);
  }

  lemma ContributorsRead(cs: seq<ContributorStamp>, w: Value)
    requires Same(ContributorsTree(cs), w) && WellFormed(w)
    ensures ArrayOf(ContributorOf, Some(w)) == Some(cs)
  {
    hide ContributorOf, ContributorTree;
    forall i | 0 <= i < |cs| ensures ContributorOf(w.items[i]) == Some(cs[i]) {
      assert ContributorsTree(cs).items[i] == ContributorTree(cs[i]);
      ContributorRead(cs[i], w.items[i]);
    }
    ListRead(ContributorOf, w.items, cs);
  }

  lemma StampRead(t: Stamp, w: Value)
    requires Same(StampTree(t), w) && WellFormed(w)
    ensures StampOf(w) == Some(t)
  {
    hide WellFormed, Same, Field, HashesTree, ContributorsTree;
    var v := StampTree(t);
    FieldSame(v, w, 0);
    SameNumber("1", Field(w, "schema").value);
    TextSame(v, w, 1, "platform", t.platform);
    TextSame(v, w, 2, "release_id", t.releaseId);
    FieldSame(v, w, 3);
    HashesRead(t.base, Field(w, "base").value);
    FieldSame(v, w, 4);
    HashesRead(t.output, Field(w, "output").value);
    FieldSame(v, w, 5);
    ContributorsRead(t.contributors, Field(w, "contributors").value);
  }

  lemma SameNumber(p: string, w: Value)
    requires Same(Num(p), w)
    ensures w == Num(p)
  {
  }

  /** The stamp file, parsed. */
  function ParsedStamp(text: string): Option<Stamp> {
    var r := ReadValue(text);
    if r.None? then None else StampOf(r.value.0)
  }

  /** The bytes of a stamp read back as that stamp. */
  lemma StampReadsBack(t: Stamp)
    requires CleanStamp(t)
    ensures ParsedStamp(StampBytes(t)) == Some(t)
  {
    hide WellFormed, Same, StampTree, StampOf, Ordered, CleanStamp;
    StampWellFormed(t);
    DocumentReads(StampTree(t));
    StampRead(t, ReadValue(StampBytes(t)).value.0);
  }
}
