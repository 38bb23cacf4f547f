/** The byte stream a directory tree is hashed as (`jw_catalog_tree_sha256`), and that it can be read back. */
module TreeFraming {
  import opened Wrappers
  import opened CStrings
  import opened Sorting
  import opened CanonicalJson

  const MAX_TREE_FILES := 4096
  const MAX_FILE_BYTES := 8 * 1024 * 1024

  /** A directory: its regular files by relative path. Bytes are characters; a path holds no NUL. */
  type Tree = map<string, string>

  ghost predicate CleanTree(t: Tree) {
    forall p | p in t :: NulFree(p) && |t[p]| < Power256(8)
  }

  function Power256(n: nat): (p: nat)
    ensures p >= 1
  {
    if n == 0 then 1 else 256 * Power256(n - 1)
  }

  /** The `k` low bytes of `n`, most significant first. */
  function BigEndian(n: nat, k: nat): (s: string)
    ensures |s| == k
  {
    if k == 0 then "" else BigEndian(n / 256, k - 1) + [(n % 256) as char]
  }

  /** One file: path, NUL, eight length bytes, content. */
  function Frame(path: string, data: string): string {
    path + ("\0" + (BigEndian(|data|, 8) + data))
  }

  ghost function Frames(paths: seq<string>, t: Tree): string
    requires forall p | p in paths :: p in t
  {
    if paths == [] then "" else Frame(paths[0], t[paths[0]]) + Frames(paths[1..], t)
  }

  /** The files of a tree, each once, in byte order. */
  ghost function Listing(t: Tree): (paths: seq<string>)
    ensures Lists(paths, t.Keys, StrLe)
  {
    StrLeIsComparison();
    SortedSet(t.Keys, StrLe)
  }

  /** Sorting any walk of the directory gives the listing. */
  lemma AnyWalkSorts(walk: seq<string>, sorted: seq<string>, t: Tree)
    requires NoRepeats(walk) && (forall p :: p in walk <==> p in t)
    requires SortedBy(sorted, StrLe) && Permuted(sorted, walk)
    ensures sorted == Listing(t)
  {
    StrLeIsComparison();
    SortedListing(walk, sorted, t.Keys, StrLe);
    NoStringTies(sorted);
    SortedSetUnique(sorted, t.Keys, StrLe);
  }

  /** What is hashed: the frames in byte order of the paths. */
  ghost function Stream(t: Tree): string {
    Frames(Listing(t), t)
  }

  // ---------------------------------------------------------------- reading it back

  lemma {:induction false} BigEndianDecodes(m: nat, n: nat, k: nat)
    requires m < Power256(k) && n < Power256(k) && BigEndian(m, k) == BigEndian(n, k)
    ensures m == n
    decreases k
  {
    if k > 0 {
      var x, y := BigEndian(m / 256, k - 1), BigEndian(n / 256, k - 1);
      SplitLast(x, (m % 256) as char, y, (n % 256) as char);
      BigEndianDecodes(m / 256, n / 256, k - 1);
    }
  }

  lemma SplitLast(x: string, c: char, y: string, d: char)
    requires |x| == |y| && x + [c] == y + [d]
    ensures x == y && c == d
  {
    SameLength(x, [c], y, [d]);
  }

  /** A NUL-free path ends at the first NUL. */
  lemma {:induction false} PathDecodes(p: string, q: string, x: string, y: string)
    requires NulFree(p) && NulFree(q) && p + ("\0" + x) == q + ("\0" + y)
    ensures p == q && x == y
    decreases |p|
  {
    PathStart(p, x); PathStart(q, y);
    if p == [] {
      SameLength("\0", x, "\0", y);
    } else {
      assert (p + ("\0" + x))[1..] == p[1..] + ("\0" + x) && (q + ("\0" + y))[1..] == q[1..] + ("\0" + y);
      PathDecodes(p[1..], q[1..], x, y);
      assert p == [p[0]] + p[1..] && q == [q[0]] + q[1..];
    }
  }

  lemma PathStart(p: string, x: string)
    requires NulFree(p)
    ensures p == [] ==> p + ("\0" + x) == "\0" + x
    ensures p == [] <==> (p + ("\0" + x))[0] as int == 0
    ensures p != [] ==> (p + ("\0" + x))[0] == p[0]
  {
  }

  lemma FrameDecodes(p: string, data: string, q: string, data': string, x: string, y: string)
    requires NulFree(p) && NulFree(q) && |data| < Power256(8) && |data'| < Power256(8)
    requires Frame(p, data) + x == Frame(q, data') + y
    ensures p == q && data == data' && x == y
  {
    var n, m := BigEndian(|data|, 8), BigEndian(|data'|, 8);
    Assoc(p, "\0" + (n + data), x); Assoc("\0", n + data, x); Assoc(n, data, x);
    Assoc(q, "\0" + (m + data'), y); Assoc("\0", m + data', y); Assoc(m, data', y);
    PathDecodes(p, q, n + (data + x), m + (data' + y));
    SameLength(n, data + x, m, data' + y);
    BigEndianDecodes(|data|, |data'|, 8);
    SameLength(data, x, data', y);
  }

  lemma {:induction false} FramesDecode(ps: seq<string>, t: Tree, qs: seq<string>, u: Tree)
    requires CleanTree(t) && CleanTree(u)
    requires (forall p | p in ps :: p in t) && (forall q | q in qs :: q in u)
    requires Frames(ps, t) == Frames(qs, u)
    ensures ps == qs && forall p | p in ps :: t[p] == u[p]
    decreases |ps|
  {
    if ps != [] && qs != [] {
      FrameDecodes(ps[0], t[ps[0]], qs[0], u[qs[0]], Frames(ps[1..], t), Frames(qs[1..], u));
      FramesDecode(ps[1..], t, qs[1..], u);
      assert ps == [ps[0]] + ps[1..] && qs == [qs[0]] + qs[1..];
    }
  }

  /** The hashed stream determines the tree: no content can move across a file boundary unnoticed. */
  lemma StreamIdentifiesTree(t: Tree, u: Tree)
    requires CleanTree(t) && CleanTree(u)
    ensures Stream(t) == Stream(u) <==> t == u
  {
    if Stream(t) == Stream(u) {
      FramesDecode(Listing(t), t, Listing(u), u);
      assert t.Keys == u.Keys;
    }
  }

  // ---------------------------------------------------------------- a reader of the stream

  /** The number that these bytes spell, most significant first. */
  function BytesValue(s: string): nat {
    if s == "" then 0 else BytesValue(s[..|s| - 1]) * 256 + s[|s| - 1] as int
  }

  function UpToNul(s: string): Option<(string, string)> {
    if s == "" then None
    else if s[0] == NUL then Some(("", s[1..]))
    else
      var rest := UpToNul(s[1..]);
      if rest.None? then None else Some(([s[0]] + rest.value.0, rest.value.1))
  }

  lemma {:induction false} UpToNulShortens(s: string)
    ensures UpToNul(s).Some? ==> |UpToNul(s).value.1| < |s|
    decreases |s|
  {
    if s != "" { UpToNulShortens(s[1..]); }
  }

  /** Files one after the other: a path up to a NUL, eight bytes of length, and as many bytes of content. */
  function ReadStream(s: string): Option<seq<(string, string)>>
    decreases |s|
  {
    if s == "" then Some([])
    else
      var path := UpToNul(s);
      UpToNulShortens(s);
      if path.None? || |path.value.1| < 8 || BytesValue(path.value.1[..8]) > |path.value.1| - 8 then None
      else
        var n, data := BytesValue(path.value.1[..8]), path.value.1[8..];
        var rest := ReadStream(data[n..]);
        if rest.None? then None else Some([(path.value.0, data[..n])] + rest.value)
  }

  lemma {:induction false} LengthReads(n: nat, k: nat)
    requires n < Power256(k)
    ensures BytesValue(BigEndian(n, k)) == n
    decreases k
  {
    if k > 0 {
      LengthReads(n / 256, k - 1);
      var s := BigEndian(n, k);
      assert s[..k - 1] == BigEndian(n / 256, k - 1) && s[k - 1] == (n % 256) as char;
    }
  }

  lemma {:induction false} PathReads(p: string, x: string)
    requires NulFree(p)
    ensures UpToNul(p + ("\0" + x)) == Some((p, x))
    decreases |p|
  {
    var s := p + ("\0" + x);
    if p == "" {
      assert s == "\0" + x && s[1..] == x;
    } else {
      assert s[0] == p[0] && s[1..] == p[1..] + ("\0" + x);
      forall i | 0 <= i < |p| - 1 ensures p[1..][i] != NUL { assert p[i + 1] != NUL; }
      PathReads(p[1..], x);
      assert p == [p[0]] + p[1..];
    }
  }

  lemma FrameReads(p: string, data: string, x: string)
    requires NulFree(p) && |data| < Power256(8)
    ensures ReadStream(Frame(p, data) + x) ==
      var rest := ReadStream(x); if rest.None? then None else Some([(p, data)] + rest.value)
  {
    hide BigEndian, BytesValue, UpToNul;
    var n := BigEndian(|data|, 8);
    var s := Frame(p, data) + x;
    assert s == p + ("\0" + (n + (data + x))) by {
      Assoc(p, "\0" + (n + data), x); Assoc("\0", n + data, x); Assoc(n, data, x);
    }
    PathReads(p, n + (data + x));
    LengthReads(|data|, 8);
    var tail := n + (data + x);
    assert s != "" && tail[..8] == n && tail[8..] == data + x;
    assert (data + x)[|data|..] == x && (data + x)[..|data|] == data;
  }

  function Contents(paths: seq<string>, t: Tree): seq<(string, string)>
    requires forall p | p in paths :: p in t
  {
    seq(|paths|, i requires 0 <= i < |paths| => (paths[i], t[paths[i]]))
  }

  lemma {:induction false} FramesRead(paths: seq<string>, t: Tree)
    requires CleanTree(t) && forall p | p in paths :: p in t
    ensures ReadStream(Frames(paths, t)) == Some(Contents(paths, t))
    decreases |paths|
  {
    hide ReadStream, Frame;
    if paths == [] {
      EmptyReads();
    } else {
      FramesRead(paths[1..], t);
      FrameReads(paths[0], t[paths[0]], Frames(paths[1..], t));
      assert Contents(paths, t) == [(paths[0], t[paths[0]])] + Contents(paths[1..], t);
    }
  }

  lemma EmptyReads()
    ensures ReadStream("") == Some([])
  {
  }

  /** The hashed stream, read back: every file of the directory once, in byte order of the paths. */
  lemma StreamReads(t: Tree)
    requires CleanTree(t)
    ensures Lists(Listing(t), t.Keys, StrLe) && ReadStream(Stream(t)) == Some(Contents(Listing(t), t))
  {
    FramesRead(Listing(t), t);
  }

  // ---------------------------------------------------------------- the hashing loop

  datatype Outcome = Hashed(stream: string) | Refused

  /** What makes the hash fail: too many files, or one too large to read. */
  ghost predicate Hashable(t: Tree) {
    |t| <= MAX_TREE_FILES && forall p | p in t :: |t[p]| <= MAX_FILE_BYTES
  }

  lemma {:induction false} FramesSnoc(ps: seq<string>, p: string, t: Tree)
    requires (forall q | q in ps :: q in t) && p in t
    ensures Frames(ps + [p], t) == Frames(ps, t) + Frame(p, t[p])
    decreases |ps|
  {
    if ps == [] {
      assert [p][1..] == [] && ps + [p] == [p];
    } else {
      assert (ps + [p])[1..] == ps[1..] + [p];
      FramesSnoc(ps[1..], p, t);
    }
  }

  lemma NextFrame(paths: seq<string>, i: nat, t: Tree)
    requires i < |paths| && forall p | p in paths :: p in t
    ensures Frames(paths[..i + 1], t) == Frames(paths[..i], t) + Frame(paths[i], t[paths[i]])
  {
    FramesSnoc(paths[..i], paths[i], t);
    assert paths[..i] + [paths[i]] == paths[..i + 1];
  }

  lemma NoFrames(paths: seq<string>, t: Tree)
    ensures Frames(paths[..0], t) == ""
  {
  }

  /** `jw_cat__store_be64` */
  method StoreBe64(value: nat) returns (out: string)
    ensures out == BigEndian(value, 8)
  {
    out := "";
    var v := value;
    for i := 0 to 8
      invariant BigEndian(v, 8 - i) + out == BigEndian(value, 8)
    {
      ghost var high := BigEndian(v / 256, 7 - i);
      assert high + [(v % 256) as char] + out == high + ([(v % 256) as char] + out);
      out := [(v % 256) as char] + out;
      v := v / 256;
    }
  }

  /** jw_catalog_tree_sha256 up to the digest, for any order in which the directory was walked. */
  method TreeStream(t: Tree, walk: seq<string>) returns (out: Outcome)
    requires NoRepeats(walk) && forall p :: p in walk <==> p in t
    ensures out == if Hashable(t) then Hashed(Stream(t)) else Refused
  {
    hide Frames, BigEndian, NoRepeats, SortedBy, Permuted, Listing;
    WalkSize(walk, t);
    if |walk| > MAX_TREE_FILES {
      return Refused;
    }
    StrLeIsComparison();
    var paths := QSort(walk, StrLe);
    AnyWalkSorts(walk, paths, t);
    assert forall p :: p in paths <==> p in t;
    NoFrames(paths, t);
    var stream := "";
    for i := 0 to |paths|
      invariant forall k | 0 <= k < i :: |t[paths[k]]| <= MAX_FILE_BYTES
      invariant stream == Frames(paths[..i], t)
    {
      var data := t[paths[i]];
      if |data| > MAX_FILE_BYTES {
        return Refused;
      }
      var length := StoreBe64(|data|);
      NextFrame(paths, i, t);
      stream := stream + (paths[i] + ("\0" + (length + data)));
    }
    assert paths[..|paths|] == paths;
    return Hashed(stream);
  }

  lemma WalkSize(walk: seq<string>, t: Tree)
    requires NoRepeats(walk) && forall p :: p in walk <==> p in t
    ensures |walk| == |t|
  {
    SizeOfListed(walk);
    assert (set k | k in walk) == t.Keys;
  }

  /** A tree is hashed unless it has more than 4096 files or one of more than 8 MiB. */
  lemma HashableIff(t: Tree)
    ensures Hashable(t) <==> |t| <= 4096 && forall p | p in t :: |t[p]| <= 8_388_608
  {
  }
}
