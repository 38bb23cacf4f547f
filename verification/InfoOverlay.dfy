/** The one info directory of a generation: the release files, and over them those of surviving contributed cores. */
module InfoOverlay {
  import opened Wrappers
  import opened TreeFraming
  import opened CStrings

  /** A row of the merged cores document, as far as its info file is concerned; absent strings read as "". */
  datatype CoreInfo = CoreInfo(provider: string, kind: string, infoName: string)

  /** Where a contributor keeps its files. */
  datatype Pak = Pak(provider: string, dir: string)

  /** The contributed side: the merged rows, the contributors, and the files that can be read, by path. */
  datatype Contribution = Contribution(rows: seq<CoreInfo>, paks: seq<Pak>, files: map<string, string>)

  /** `jw_cat__contributor_for_provider`: the directory of the first contributor of that name, or "". */
  function PakDir(paks: seq<Pak>, provider: string): string {
    if paks == [] then ""
    else if paks[0].provider == provider then paks[0].dir
    else PakDir(paks[1..], provider)
  }

  predicate BringsInfo(row: CoreInfo) {
    row.provider != "" && row.infoName != "" && row.kind == "retroarch"
  }

  function Target(row: CoreInfo): string {
    Basename(row.infoName)
  }

  /** What the file holds that a row names, if the row names a file that is there. */
  function Source(row: CoreInfo, paks: seq<Pak>, files: map<string, string>): Option<string> {
    var dir := PakDir(paks, row.provider);
    var path := dir + "/" + row.infoName;
    if dir != "" && Target(row) != "" && path in files then Some(files[path]) else None
  }

  /** One row laid over the tree. */
  function OverRow(t: Tree, row: CoreInfo, paks: seq<Pak>, files: map<string, string>): Option<Tree> {
    if !BringsInfo(row) then Some(t)
    else
      var data := Source(row, paks, files);
      if data.None? then None else Some(t[Target(row) := data.value])
  }

  /** The rows are laid over the release tree in their order; one missing file fails the whole. */
  function Overlay(release: Tree, rows: seq<CoreInfo>, paks: seq<Pak>, files: map<string, string>): Option<Tree>
    decreases |rows|
  {
    if rows == [] then Some(release)
    else
      var before := Overlay(release, rows[..|rows| - 1], paks, files);
      if before.None? then None else OverRow(before.value, rows[|rows| - 1], paks, files)
  }

  /** A file that is missing for the first rows is missing for all. */
  lemma {:induction false} OverlayStops(release: Tree, rows: seq<CoreInfo>, paks: seq<Pak>, files: map<string, string>,
                                        n: nat)
    requires n <= |rows| && Overlay(release, rows[..n], paks, files).None?
    ensures Overlay(release, rows, paks, files).None?
    decreases |rows|
  {
    if n == |rows| {
      assert rows[..n] == rows;
    } else {
      assert rows[..|rows| - 1][..n] == rows[..n];
      OverlayStops(release, rows[..|rows| - 1], paks, files, n);
    }
  }

  lemma OverlayNone(release: Tree, rows: seq<CoreInfo>, paks: seq<Pak>, files: map<string, string>)
    ensures Overlay(release, rows[..0], paks, files) == Some(release)
  {
  }

  lemma OverlayNext(release: Tree, rows: seq<CoreInfo>, paks: seq<Pak>, files: map<string, string>, i: nat)
    requires i < |rows| && Overlay(release, rows[..i], paks, files).Some?
    ensures Overlay(release, rows[..i + 1], paks, files)
      == OverRow(Overlay(release, rows[..i], paks, files).value, rows[i], paks, files)
    ensures Overlay(release, rows[..i + 1], paks, files).None? ==> Overlay(release, rows, paks, files).None?
  {
    hide OverRow;
    assert rows[..i + 1][..i] == rows[..i];
    if Overlay(release, rows[..i + 1], paks, files).None? { OverlayStops(release, rows, paks, files, i + 1); }
  }

  predicate Brought(rows: seq<CoreInfo>, name: string) {
    exists row :: row in rows && BringsInfo(row) && Target(row) == name
  }

  /** No later row brings a file of that name. */
  predicate LastOfName(rows: seq<CoreInfo>, i: nat, name: string) {
    && i < |rows| && BringsInfo(rows[i]) && Target(rows[i]) == name
    && forall j | i < j < |rows| && BringsInfo(rows[j]) :: Target(rows[j]) != name
  }

  /** It works exactly when every row's file is there; then each name holds its last row's file, or the release's. */
  lemma {:induction false} OverlayHolds(release: Tree, rows: seq<CoreInfo>, paks: seq<Pak>, files: map<string, string>)
    ensures var t := Overlay(release, rows, paks, files);
      && (t.Some? <==> forall row | row in rows && BringsInfo(row) :: Source(row, paks, files).Some?)
      && (t.Some? ==>
            && (forall name :: name in t.value <==> name in release || Brought(rows, name))
            && (forall i: nat, name | LastOfName(rows, i, name) :: Some(t.value[name]) == Source(rows[i], paks, files))
            && (forall name | name in release && !Brought(rows, name) :: t.value[name] == release[name]))
    decreases |rows|
  {
    hide Source, BringsInfo, Target;
    if rows != [] {
      var init, row := rows[..|rows| - 1], rows[|rows| - 1];
      OverlayHolds(release, init, paks, files);
      assert rows == init + [row];
      forall name ensures Brought(rows, name) <==> (BringsInfo(row) && Target(row) == name) || Brought(init, name) {
        assert row in rows;
      }
      forall i: nat, name ensures LastOfName(rows, i, name) <==>
        if i == |init| then BringsInfo(row) && Target(row) == name
        else LastOfName(init, i, name) && !(BringsInfo(row) && Target(row) == name)
      {
        LastNext(init, row, i, name);
      }
    }
  }

  lemma LastNext(init: seq<CoreInfo>, row: CoreInfo, i: nat, name: string)
    ensures LastOfName(init + [row], i, name) <==>
      if i == |init| then BringsInfo(row) && Target(row) == name
      else LastOfName(init, i, name) && !(BringsInfo(row) && Target(row) == name)
  {
    hide BringsInfo, Target;
    var rows := init + [row];
    if i < |init| && LastOfName(init, i, name) && !(BringsInfo(row) && Target(row) == name) {
      forall j | i < j < |rows| && BringsInfo(rows[j]) ensures Target(rows[j]) != name {
        if j < |init| { assert rows[j] == init[j]; }
      }
    }
    if i < |init| && LastOfName(rows, i, name) {
      assert rows[|init|] == row;
      forall j | i < j < |init| && BringsInfo(init[j]) ensures Target(init[j]) != name { assert rows[j] == init[j]; }
    }
  }

  // ---------------------------------------------------------------- in the fields of the rows

  /** The row names the file `base`, in its contributor's directory `dir`. */
  ghost predicate Named(row: CoreInfo, dir: string, base: string) {
    && row.provider != "" && row.kind == "retroarch" && row.infoName != ""
    && row.infoName == dir + base && DirectoryPart(dir) && '/' !in base
  }

  /** And no later row names one of that name. */
  ghost predicate LastNamed(rows: seq<CoreInfo>, i: nat, dir: string, base: string) {
    i < |rows| && Named(rows[i], dir, base) && forall k, dir' | i < k < |rows| :: !Named(rows[k], dir', base)
  }

  /** What stands at that path below the directory of the provider's first pak. */
  ghost predicate FileOf(paks: seq<Pak>, files: map<string, string>, provider: string, path: string, data: string) {
    exists j ::
      && 0 <= j < |paks| && paks[j].provider == provider && (forall k | 0 <= k < j :: paks[k].provider != provider)
      && paks[j].dir != "" && paks[j].dir + "/" + path in files && data == files[paks[j].dir + "/" + path]
  }

  ghost predicate NamedByAny(rows: seq<CoreInfo>, base: string) {
    exists row, dir :: row in rows && Named(row, dir, base)
  }

  /** Each named file is its contributor's, under the path the row gives; every other name holds the release file. */
  ghost predicate LaidOver(release: Tree, rows: seq<CoreInfo>, paks: seq<Pak>, files: map<string, string>, t: Tree) {
    && (forall i, dir, base | 0 <= i && LastNamed(rows, i, dir, base) ::
          base in t && FileOf(paks, files, rows[i].provider, dir + base, t[base]))
    && (forall name :: name in t <==> name in release || NamedByAny(rows, name))
    && (forall name | name in release && !NamedByAny(rows, name) :: name in t && t[name] == release[name])
  }

  lemma NamedIff(row: CoreInfo, base: string)
    ensures (exists dir :: Named(row, dir, base)) <==> BringsInfo(row) && Target(row) == base
  {
    if dir :| Named(row, dir, base) { BasenameOf(dir, base); }
    if BringsInfo(row) && Target(row) == base {
      var dir := BasenameSplits(row.infoName);
      assert Named(row, dir, base);
    }
  }

  lemma NamedByAnyIff(rows: seq<CoreInfo>, base: string)
    ensures NamedByAny(rows, base) <==> Brought(rows, base)
  {
    hide Named, BringsInfo, Target;
    if row, dir :| row in rows && Named(row, dir, base) { NamedIff(row, base); }
    if row :| row in rows && BringsInfo(row) && Target(row) == base { NamedIff(row, base); }
  }

  lemma LastNamedIsLast(rows: seq<CoreInfo>, i: nat, dir: string, base: string)
    requires LastNamed(rows, i, dir, base)
    ensures i < |rows| && LastOfName(rows, i, base) && Named(rows[i], dir, base)
  {
    hide Named, BringsInfo, Target;
    NamedIff(rows[i], base);
    forall k | i < k < |rows| && BringsInfo(rows[k]) ensures Target(rows[k]) != base { NamedIff(rows[k], base); }
  }

  lemma {:induction false} PakDirIs(paks: seq<Pak>, provider: string)
    requires PakDir(paks, provider) != ""
    ensures exists j ::
      && 0 <= j < |paks| && paks[j].provider == provider && (forall k | 0 <= k < j :: paks[k].provider != provider)
      && paks[j].dir == PakDir(paks, provider)
    decreases |paks|
  {
    if paks[0].provider != provider {
      PakDirIs(paks[1..], provider);
      var rest := paks[1..];
      var j :|
        && 0 <= j < |rest| && rest[j].provider == provider && (forall k | 0 <= k < j :: rest[k].provider != provider)
        && rest[j].dir == PakDir(rest, provider);
      forall k | 0 <= k < j + 1 ensures paks[k].provider != provider {
        if k > 0 { assert rest[k - 1].provider != provider; }
      }
      assert paks[j + 1].provider == provider;
    }
  }

  lemma SourceIs(row: CoreInfo, paks: seq<Pak>, files: map<string, string>)
    requires Source(row, paks, files).Some?
    ensures FileOf(paks, files, row.provider, row.infoName, Source(row, paks, files).value)
  {
    PakDirIs(paks, row.provider);
  }

  lemma OverlayIsLaidOver(release: Tree, rows: seq<CoreInfo>, paks: seq<Pak>, files: map<string, string>)
    requires Overlay(release, rows, paks, files).Some?
    ensures LaidOver(release, rows, paks, files, Overlay(release, rows, paks, files).value)
  {
    hide Named, BringsInfo, Target, Source, LastNamed, LastOfName, Overlay, FileOf, Brought, NamedByAny;
    OverlayHolds(release, rows, paks, files);
    var t := Overlay(release, rows, paks, files).value;
    forall name ensures NamedByAny(rows, name) <==> Brought(rows, name) { NamedByAnyIff(rows, name); }
    forall i, dir, base | 0 <= i && LastNamed(rows, i, dir, base)
      ensures i < |rows| && base in t && FileOf(paks, files, rows[i].provider, dir + base, t[base])
    {
      LastNamedIsLast(rows, i, dir, base);
      NamedRow(rows, i, dir, base);
      SourceIs(rows[i], paks, files);
    }
  }

  lemma NamedRow(rows: seq<CoreInfo>, i: nat, dir: string, base: string)
    requires LastOfName(rows, i, base) && Named(rows[i], dir, base)
    ensures rows[i].infoName == dir + base && Brought(rows, base) && BringsInfo(rows[i]) && rows[i] in rows
  {
    hide BringsInfo, Target;
  }

  lemma {:induction false} FirstPakIsIt(paks: seq<Pak>, provider: string, j: nat)
    requires j < |paks| && paks[j].provider == provider && forall k | 0 <= k < j :: paks[k].provider != provider
    ensures PakDir(paks, provider) == paks[j].dir
    decreases |paks|
  {
    if j > 0 {
      forall k | 0 <= k < j - 1 ensures paks[1..][k].provider != provider { assert paks[k + 1].provider != provider; }
      FirstPakIsIt(paks[1..], provider, j - 1);
    }
  }

  lemma SourceIff(row: CoreInfo, paks: seq<Pak>, files: map<string, string>)
    ensures Source(row, paks, files).Some? <==>
      Target(row) != "" && exists data :: FileOf(paks, files, row.provider, row.infoName, data)
  {
    hide Target;
    if Source(row, paks, files).Some? {
      SourceIs(row, paks, files);
    }
    if data :| FileOf(paks, files, row.provider, row.infoName, data) {
      var j: nat :| j < |paks| && paks[j].provider == row.provider
        && (forall k | 0 <= k < j :: paks[k].provider != row.provider)
        && paks[j].dir != "" && paks[j].dir + "/" + row.infoName in files;
      FirstPakIsIt(paks, row.provider, j);
    }
  }

  ghost predicate Served(row: CoreInfo, paks: seq<Pak>, files: map<string, string>) {
    forall dir, base | Named(row, dir, base) ::
      base != "" && exists data :: FileOf(paks, files, row.provider, dir + base, data)
  }

  lemma ServedIff(row: CoreInfo, paks: seq<Pak>, files: map<string, string>)
    ensures Served(row, paks, files) <==> (BringsInfo(row) ==> Source(row, paks, files).Some?)
  {
    hide FileOf, Source, Target;
    SourceIff(row, paks, files);
    forall dir, base | Named(row, dir, base)
      ensures BringsInfo(row) && Target(row) == base && row.infoName == dir + base
    {
      NamedIff(row, base);
    }
    if BringsInfo(row) {
      NamedIff(row, Target(row));
      var dir :| Named(row, dir, Target(row));
    }
  }

  /** The overlay succeeds exactly when every contributed RetroArch core's info file has a name and is there. */
  lemma OverlaySucceedsIff(release: Tree, rows: seq<CoreInfo>, paks: seq<Pak>, files: map<string, string>)
    ensures Overlay(release, rows, paks, files).Some? <==> forall row | row in rows :: Served(row, paks, files)
  {
    hide BringsInfo, Source, Served, Overlay;
    OverlayHolds(release, rows, paks, files);
    forall row ensures Served(row, paks, files) <==> (BringsInfo(row) ==> Source(row, paks, files).Some?) {
      ServedIff(row, paks, files);
    }
  }
}
