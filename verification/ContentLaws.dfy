/**
 * Which files are descriptors, where their references point, and what that makes of the graph: in the paths themselves.
 */
module ContentLaws {
  import opened Wrappers
  import opened CStrings
  import opened ContentModel

  // ---------------------------------------------------------------- paths

  /** The directory of a file is everything before its last slash; that of a file in the root is the root. */
  lemma DirectoryOf(dir: string, name: string)
    requires '/' !in name
    ensures Directory(dir + "/" + name) == if dir == "" then "/" else dir
  {
    AfterLastOf(dir, '/', name);
    assert dir + "/" + name == dir + ['/'] + name;
    assert (dir + "/" + name)[..|dir|] == dir;
  }

  /** The extension is what follows the last dot of the name, whatever dots the directory has. */
  lemma ExtensionOf(dir: string, stem: string, ext: string)
    requires DirectoryPart(dir) && '/' !in stem && '/' !in ext && '.' !in ext
    ensures Extension(dir + (stem + "." + ext)) == ext
  {
    var name := stem + "." + ext;
    assert name == stem + ['.'] + ext;
    AfterLastOf(stem, '.', ext);
    NameOf(dir, name);
  }

  lemma NameOf(dir: string, name: string)
    requires DirectoryPart(dir) && '/' !in name
    ensures var base := AfterLast(dir + name, '/'); (if base.Some? then base.value else dir + name) == name
  {
    BasenameOf(dir, name);
  }

  lemma NoExtension(dir: string, name: string)
    requires DirectoryPart(dir) && '/' !in name && '.' !in name
    ensures Extension(dir + name) == ""
  {
    NameOf(dir, name);
    AfterLastIsLast(name, '.');
  }

  // ---------------------------------------------------------------- descriptors

  /** Playlists are kind 1, CUE sheets 2, GDI 3, TOC 4, command files 5. */
  predicate KindIs(ext: string, kind: nat) {
    match kind
    case 1 => EqualUpToCase(ext, "m3u") || EqualUpToCase(ext, "m3u8")
    case 2 => EqualUpToCase(ext, "cue")
    case 3 => EqualUpToCase(ext, "gdi")
    case 4 => EqualUpToCase(ext, "toc")
    case 5 => EqualUpToCase(ext, "cmd")
    case _ => false
  }

  lemma LowerIsFolded(t: string)
    requires forall i | 0 <= i < |t| :: !('A' <= t[i] <= 'Z')
    ensures Fold(t) == t
  {
  }

  lemma KindOfExtension(path: string)
    ensures Kind(path) <= 5 && forall k | 1 <= k <= 5 :: Kind(path) == k <==> KindIs(Extension(path), k)
  {
    hide Fold, EqualUpToCase, Extension;
    var e := Extension(path);
    FoldIff(e, "m3u"); FoldIff(e, "m3u8"); FoldIff(e, "cue"); FoldIff(e, "gdi"); FoldIff(e, "toc"); FoldIff(e, "cmd");
    LowerIsFolded("m3u"); LowerIsFolded("m3u8"); LowerIsFolded("cue");
    LowerIsFolded("gdi"); LowerIsFolded("toc"); LowerIsFolded("cmd");
    Distinct();
  }

  lemma Distinct()
    ensures |"m3u"| == |"cue"| == |"gdi"| == |"toc"| == |"cmd"| == 3 && |"m3u8"| == 4
    ensures "m3u" != "cue" && "m3u" != "gdi" && "m3u" != "toc" && "m3u" != "cmd" && "cue" != "gdi"
    ensures "cue" != "toc" && "cue" != "cmd" && "gdi" != "toc" && "gdi" != "cmd" && "toc" != "cmd"
  {
    assert "m3u"[0] == 'm' && "cue"[1] == 'u' && "gdi"[0] == 'g'
      && "toc"[0] == 't' && "cmd"[0] == 'c' && "cmd"[1] == 'm';
    assert "cue"[0] == 'c';
  }

  /** What kind of descriptor a file is depends on its extension alone, without case. */
  lemma KindOf(dir: string, stem: string, ext: string, kind: nat)
    requires DirectoryPart(dir) && '/' !in stem && '/' !in ext && '.' !in ext && 1 <= kind <= 5
    ensures Kind(dir + (stem + "." + ext)) == kind <==> KindIs(ext, kind)
    ensures Kind(dir + (stem + "." + ext)) == 0 <==> !exists k :: 1 <= k <= 5 && KindIs(ext, k)
  {
    hide Kind, KindIs;
    var path := dir + (stem + "." + ext);
    ExtensionOf(dir, stem, ext);
    KindOfExtension(path);
    assert Kind(path) != 0 ==> KindIs(ext, Kind(path));
  }

  lemma BodyOf(text: string)
    ensures Body([0xEF as char, 0xBB as char, 0xBF as char] + text) == text
    ensures !([0xEF as char, 0xBB as char, 0xBF as char] <= text) ==> Body(text) == text
  {
    var mark := [0xEF as char, 0xBB as char, 0xBF as char];
    assert (mark + text)[3..] == text;
    if |text| >= 3 && text[0] == mark[0] && text[1] == mark[1] && text[2] == mark[2] {
      assert text[..3] == mark;
    }
  }

  // ---------------------------------------------------------------- references

  /**
   * A present descriptor `name` in directory `dir` refers, by each reference its parser meets, to what the reference
   * resolves to from that directory. The parser is the one for its extension and reads the text behind a byte order
   * mark.
   */
  ghost predicate RefersTo(env: Env, f: File, dir: string, stem: string, ext: string, kind: nat, text: string,
                           path: string) {
    && f.path == dir + "/" + (stem + "." + ext) && '/' !in stem && '/' !in ext && '.' !in ext
    && 1 <= kind <= 5 && KindIs(ext, kind) && !f.missing
    && (env.read(f.path) == Some([0xEF as char, 0xBB as char, 0xBF as char] + text)
        || (env.read(f.path) == Some(text) && !([0xEF as char, 0xBB as char, 0xBF as char] <= text)))
    && exists s ::
       && s in env.parse(kind, text).references && env.resolve(if dir == "" then "/" else dir, s).Some?
       && env.resolve(if dir == "" then "/" else dir, s).value.path == path
  }

  lemma RefersIsNames(env: Env, f: File, dir: string, stem: string, ext: string, kind: nat, text: string, path: string)
    requires RefersTo(env, f, dir, stem, ext, kind, text, path)
    ensures Names(env, f, path)
  {
    hide KindIs, Kind, Body, Directory;
    var name := stem + "." + ext;
    assert '/' !in name;
    DirectoryOf(dir, name);
    KindOf(dir + "/", stem, ext, kind);
    BodyOf(text);
    assert Parse(env, f) == env.parse(kind, text);
    var s :|
      && s in env.parse(kind, text).references && env.resolve(if dir == "" then "/" else dir, s).Some?
      && env.resolve(if dir == "" then "/" else dir, s).value.path == path;
    assert Target(env, f, s).Some?;
  }

  /** Conversely a file that refers to anything is such a descriptor, when its path has a slash. */
  lemma NamesIsRefers(env: Env, f: File, dir: string, name: string, path: string)
    requires Names(env, f, path) && f.path == dir + "/" + name && '/' !in name
    ensures exists stem, ext, kind, text :: RefersTo(env, f, dir, stem, ext, kind, text, path)
  {
    hide KindIs, Kind, Body, Directory, Extension;
    DirectoryOf(dir, name);
    assert f.path == (dir + "/") + name;
    var kind := Kind(f.path);
    KindOfExtension(f.path);
    var data := env.read(f.path).value;
    var text := BodyText(data);
    var s :| s in Parse(env, f).references && Target(env, f, s).Some? && Target(env, f, s).value.path == path;
    if '.' !in name {
      NoExtension(dir + "/", name);
      NoKind(kind);
      assert false;
    } else {
      AfterLastIsLast(name, '.');
      var ext := AfterLast(name, '.').value;
      var stem := name[..|name| - |ext| - 1];
      assert name == stem + "." + ext;
      assert forall i | 0 <= i < |stem| :: stem[i] == name[i];
      assert forall i | 0 <= i < |ext| :: ext[i] == name[|stem| + 1 + i];
      ExtensionOf(dir + "/", stem, ext);
      assert RefersTo(env, f, dir, stem, ext, kind, text, path);
    }
  }

  lemma NoKind(kind: nat)
    ensures !KindIs("", kind)
  {
  }

  lemma BodyText(data: string) returns (text: string)
    ensures text == Body(data)
    ensures data == [0xEF as char, 0xBB as char, 0xBF as char] + text
      || (data == text && !([0xEF as char, 0xBB as char, 0xBF as char] <= text))
  {
    text := Body(data);
    if |data| >= 3 { assert data == data[..3] + data[3..]; }
  }

  /** The edges of a finished inspection are exactly these references. */
  lemma EdgesRefer(env: Env, g: Graph, i: nat, j: nat, dir: string, name: string)
    requires Sound(env, g, []) && i < |g.files| && j < |g.files| && g.files[i].path == dir + "/" + name && '/' !in name
    ensures Linked(g, i, j) <==>
      exists stem, ext, kind, text :: RefersTo(env, g.files[i], dir, stem, ext, kind, text, g.files[j].path)
  {
    hide Sound, RefersTo, Names;
    EdgesAreReferences(env, g, i, j);
    if Names(env, g.files[i], g.files[j].path) {
      NamesIsRefers(env, g.files[i], dir, name, g.files[j].path);
    }
    forall stem, ext, kind, text | RefersTo(env, g.files[i], dir, stem, ext, kind, text, g.files[j].path)
      ensures Names(env, g.files[i], g.files[j].path)
    {
      RefersIsNames(env, g.files[i], dir, stem, ext, kind, text, g.files[j].path);
    }
  }
}
