/** Box art by stem: the hash chains over a folder and the rank that decides between several files. */
module ArtLookup {
  import opened Wrappers
  import opened CStrings
  import opened Sorting
  import opened HashIndex

  /** One directory entry, in the order the directory returns them. */
  datatype Listing = Listing(name: string, regular: bool)

  /** `next` is one-based: the entry before in the same bucket, 0 ends the chain. */
  datatype Entry = Entry(name: string, stemLen: nat, stemHash: nat, format: nat, spelling: nat, next: nat)

  // ---------------------------------------------------------------- names and ranks

  function Format(ext: string): Option<nat> {
    if Fold(ext) == "png" then Some(0)
    else if Fold(ext) == "jpg" then Some(1)
    else if Fold(ext) == "jpeg" then Some(2)
    else None
  }

  predicate LowerLetter(c: char) {
    'a' <= c <= 'z'
  }

  predicate UpperLetter(c: char) {
    'A' <= c <= 'Z'
  }

  /** 0 all lower, 1 all upper, 2 mixed */
  function Spelling(ext: string): nat {
    if forall i | 0 <= i < |ext| :: !UpperLetter(ext[i]) then 0
    else if forall i | 0 <= i < |ext| :: !LowerLetter(ext[i]) then 1 else 2
  }

  /** Position of the last dot, unless there is none or it comes first. */
  function DotAt(name: string): Option<nat> {
    var ext := AfterLast(name, '.');
    if ext.None? || |name| - |ext.value| - 1 <= 0 then None else Some(|name| - |ext.value| - 1)
  }

  lemma DotInRange(name: string)
    ensures DotAt(name).Some? ==>
      0 < DotAt(name).value < |name| && name[DotAt(name).value + 1..] == AfterLast(name, '.').value
  {
    AfterLastIsLast(name, '.');
  }

  /** Where the stem of an art file ends; `None` for any other file. */
  function StemLen(name: string): (n: Option<nat>)
    ensures n.Some? ==> n.value < |name|
  {
    DotInRange(name);
    var dot := DotAt(name);
    if dot.Some? && Format(name[dot.value + 1..]).Some? then dot else None
  }

  /** Rank of an art file: format, spelling class, extension bytes, name. */
  predicate Better(a: string, b: string)
    requires StemLen(a).Some? && StemLen(b).Some?
  {
    var x, y := a[StemLen(a).value..], b[StemLen(b).value..];
    if Format(x[1..]) != Format(y[1..]) then Format(x[1..]).value < Format(y[1..]).value
    else if Spelling(x[1..]) != Spelling(y[1..]) then Spelling(x[1..]) < Spelling(y[1..])
    else if x != y then StrLess(x, y)
    else StrLess(a, b)
  }

  /** A strict total order: of two different files exactly one ranks before the other. */
  lemma BetterIsTotal(a: string, b: string)
    requires StemLen(a).Some? && StemLen(b).Some?
    ensures !(Better(a, b) && Better(b, a)) && (a != b <==> Better(a, b) || Better(b, a))
  {
    hide Format, Spelling, StrLe;
    var x, y := a[StemLen(a).value..], b[StemLen(b).value..];
    FormatKnown(a); FormatKnown(b);
    StrLeTotal(x, y); StrLeTotal(a, b);
    if StrLe(x, y) && StrLe(y, x) { StrLeAntisymmetric(x, y); }
    if StrLe(a, b) && StrLe(b, a) { StrLeAntisymmetric(a, b); }
  }

  lemma FormatKnown(a: string)
    requires StemLen(a).Some?
    ensures Format(a[StemLen(a).value..][1..]).Some?
  {
    DotInRange(a);
    assert a[StemLen(a).value..][1..] == a[StemLen(a).value + 1..];
  }

  lemma BetterIsTransitive(a: string, b: string, c: string)
    requires StemLen(a).Some? && StemLen(b).Some? && StemLen(c).Some? && Better(a, b) && Better(b, c)
    ensures Better(a, c)
  {
    hide Format, Spelling, StrLe;
    var x, y, z := a[StemLen(a).value..], b[StemLen(b).value..], c[StemLen(c).value..];
    FormatKnown(a); FormatKnown(b); FormatKnown(c);
    if StrLe(x, y) && StrLe(y, z) { StrLeTransitive(x, y, z); }
    if StrLe(a, b) && StrLe(b, c) { StrLeTransitive(a, b, c); }
    if StrLe(x, y) && StrLe(y, x) { StrLeAntisymmetric(x, y); }
    if StrLe(a, b) && StrLe(b, a) { StrLeAntisymmetric(a, b); }
  }

  // ---------------------------------------------------------------- what a lookup must return

  function Spelt(s: string, folds: bool): string {
    if folds then Fold(s) else s
  }

  /** An art file whose stem is the wanted one, without case where the folder folds case. */
  predicate Matches(l: Listing, stem: string, folds: bool) {
    l.regular && StemLen(l.name).Some? && Spelt(l.name[..StemLen(l.name).value], folds) == Spelt(stem, folds)
  }

  ghost predicate IsBest(listing: seq<Listing>, stem: string, folds: bool, r: Option<string>) {
    match r
    case None => forall l | l in listing :: !Matches(l, stem, folds)
    case Some(best) =>
      && (exists l :: l in listing && Matches(l, stem, folds) && l.name == best)
      && forall l | l in listing && Matches(l, stem, folds) && l.name != best ::
        StemLen(best).Some? && Better(best, l.name)
  }

  /** The order of the directory plays no part. */
  lemma BestIsUnique(listing: seq<Listing>, listing': seq<Listing>, stem: string, folds: bool, r: Option<string>,
                     r': Option<string>)
    requires Permuted(listing, listing') && IsBest(listing, stem, folds, r) && IsBest(listing', stem, folds, r')
    ensures r == r'
  {
    hide Matches, Better;
    PermutedMembers(listing, listing');
    if r.Some? && r'.Some? && r != r' {
      var l :| l in listing && Matches(l, stem, folds) && l.name == r.value;
      var l' :| l' in listing' && Matches(l', stem, folds) && l'.name == r'.value;
      BetterIsTotal(r.value, r'.value);
    }
  }

  // ---------------------------------------------------------------- the chains

  /** Zero-based indices on the chain that starts at the one-based `i`. */
  ghost function Chain(entries: seq<Entry>, i: nat): set<nat>
    decreases i
  {
    if i == 0 || i > |entries| || entries[i - 1].next >= i then {} else {i - 1} + Chain(entries, entries[i - 1].next)
  }

  function Bucket(hash: nat, count: nat): (b: nat)
    requires count > 0
    ensures b < count
  {
    hash % count
  }

  /** The first `n` entries are chained: each bucket's chain runs downwards through exactly its entries. */
  ghost predicate Chained(entries: seq<Entry>, heads: seq<nat>, n: nat) {
    && n <= |entries| && |heads| > 0
    && (forall j | 0 <= j < n :: entries[j].next <= j)
    && (forall b | 0 <= b < |heads| :: heads[b] <= n)
    && forall b, j | 0 <= b < |heads| && 0 <= j < |entries| ::
         j in Chain(entries, heads[b]) <==> j < n && Bucket(entries[j].stemHash, |heads|) == b
  }

  lemma {:induction false} ChainAgrees(entries: seq<Entry>, other: seq<Entry>, i: nat)
    requires i <= |entries| && |entries| == |other| && forall j | 0 <= j < i :: entries[j] == other[j]
    ensures Chain(entries, i) == Chain(other, i)
    decreases i
  {
    if i > 0 && entries[i - 1].next < i { ChainAgrees(entries, other, entries[i - 1].next); }
  }

  lemma {:induction false} ChainBelow(entries: seq<Entry>, i: nat)
    ensures forall j | j in Chain(entries, i) :: j < i && j < |entries|
    decreases i
  {
    if 0 < i <= |entries| && entries[i - 1].next < i { ChainBelow(entries, entries[i - 1].next); }
  }

  /** Linking entry `n` in front of its bucket. */
  lemma LinkKeeps(entries: seq<Entry>, heads: seq<nat>, n: nat, linked: seq<Entry>, b: nat)
    requires Chained(entries, heads, n) && n < |entries| && b < |heads| && b == Bucket(entries[n].stemHash, |heads|)
    requires linked == entries[n := entries[n].(next := heads[b])]
    ensures Chained(linked, heads[b := n + 1], n + 1)
  {
    hide Bucket, Chain;
    var heads' := heads[b := n + 1];
    forall c, j | 0 <= c < |heads'| && 0 <= j < |linked|
      ensures j in Chain(linked, heads'[c]) <==> j < n + 1 && Bucket(linked[j].stemHash, |heads'|) == c
    {
      LinkedChain(entries, heads, n, linked, b, c);
      assert linked[j].stemHash == entries[j].stemHash;
      assert j in Chain(entries, heads[c]) <==> j < n && Bucket(entries[j].stemHash, |heads|) == c;
      assert c == b ==> (j in Chain(linked, heads'[c]) <==> j == n || j in Chain(entries, heads[b]));
    }
  }

  /** The chain of bucket `c` after the link: with the new entry in front in its own bucket, as it was in any other. */
  lemma LinkedChain(entries: seq<Entry>, heads: seq<nat>, n: nat, linked: seq<Entry>, b: nat, c: nat)
    requires n < |entries| && b < |heads| && c < |heads| && heads[c] <= n && heads[b] <= n
    requires linked == entries[n := entries[n].(next := heads[b])]
    ensures Chain(linked, heads[b := n + 1][c]) == if c == b
      then {n} + Chain(entries, heads[b]) else Chain(entries, heads[c])
    ensures n !in Chain(entries, heads[c])
  {
    ChainAgrees(entries, linked, heads[c]);
    ChainBelow(entries, heads[c]);
  }

  lemma NothingChained(entries: seq<Entry>, heads: seq<nat>)
    requires |heads| > 0 && forall b | 0 <= b < |heads| :: heads[b] == 0
    ensures Chained(entries, heads, 0)
  {
    forall b | 0 <= b < |heads| ensures Chain(entries, heads[b]) == {} {
    }
  }

  // ---------------------------------------------------------------- the program

  method SpellingOf(ext: string) returns (s: nat)
    ensures s == Spelling(ext)
  {
    var lower, upper := true, true;
    for i := 0 to |ext|
      invariant lower <==> forall k | 0 <= k < i :: !UpperLetter(ext[k])
      invariant upper <==> forall k | 0 <= k < i :: !LowerLetter(ext[k])
    {
      if LowerLetter(ext[i]) { upper := false; }
      if UpperLetter(ext[i]) { lower := false; }
    }
    s := if lower then 0 else if upper then 1 else 2;
  }

  /** The entry of an art file, before it is hashed and chained. */
  predicate Describes(e: Entry, name: string) {
    && e.name == name && StemLen(name) == Some(e.stemLen)
    && Format(name[e.stemLen + 1..]) == Some(e.format) && Spelling(name[e.stemLen + 1..]) == e.spelling
  }

  /** The art files among the first `n` directory entries. */
  function ArtOf(listing: seq<Listing>): seq<string> {
    if listing == [] then []
    else
      var l := listing[|listing| - 1];
      ArtOf(listing[..|listing| - 1]) + if l.regular && StemLen(l.name).Some? then [l.name] else []
  }

  lemma {:induction false} ArtOfMembers(listing: seq<Listing>, name: string)
    ensures name in ArtOf(listing) <==> exists l :: l in listing && l.regular && StemLen(l.name).Some? && l.name == name
    decreases |listing|
  {
    hide StemLen;
    if listing != [] {
      ArtOfMembers(listing[..|listing| - 1], name);
      assert listing == listing[..|listing| - 1] + [listing[|listing| - 1]];
    }
  }

  /** `jw__art_better` on two entries. */
  method EntryBetter(a: Entry, b: Entry) returns (better: bool)
    requires Describes(a, a.name) && Describes(b, b.name)
    ensures better == Better(a.name, b.name)
  {
    assert a.name[a.stemLen..][1..] == a.name[a.stemLen + 1..] && b.name[b.stemLen..][1..] == b.name[b.stemLen + 1..];
    if a.format != b.format {
      return a.format < b.format;
    }
    if a.spelling != b.spelling {
      return a.spelling < b.spelling;
    }
    var x, y := a.name[a.stemLen..], b.name[b.stemLen..];
    if x != y {
      return StrLess(x, y);
    }
    return StrLess(a.name, b.name);
  }

  class Folder {
    const hash: string -> nat
    var folds: bool
    var entries: seq<Entry>
    var heads: array<nat>

    ghost predicate Hashed(n: nat)
      reads this
    {
      forall i | 0 <= i < n && i < |entries| :: entries[i].stemLen <= |entries[i].name|
        && entries[i].stemHash == hash(Spelt(entries[i].name[..entries[i].stemLen], folds))
    }

    /** The entries are the art files of the listing, hashed and chained. */
    ghost predicate Holds(listing: seq<Listing>)
      reads this, heads
    {
      && |entries| == |ArtOf(listing)| && (forall i | 0 <= i < |entries| :: Describes(entries[i], ArtOf(listing)[i]))
      && (entries != [] ==> Chained(entries, heads[..], |entries|) && Hashed(|entries|))
    }

    /** jw__art_dir_load; `folds` is what the probe of the folder's first art file found. */
    constructor (hash: string -> nat, listing: seq<Listing>, folds: bool)
      ensures Holds(listing) && this.folds == folds && this.hash == hash
    {
      this.hash := hash;
      this.folds := folds;
      entries := [];
      heads := new nat[0];
      new;
      ReadEntries(listing);
      if entries != [] {
        var count := BucketCount(|entries|);
        heads := new nat[count](_ => 0);
        ChainEntries(listing);
      }
    }

    method ReadEntries(listing: seq<Listing>)
      requires entries == []
      modifies this`entries
      ensures |entries| == |ArtOf(listing)| && forall i | 0 <= i < |entries| :: Describes(entries[i], ArtOf(listing)[i])
    {
      hide Describes, StemLen, Format, Spelling;
      for i := 0 to |listing|
        invariant |entries| == |ArtOf(listing[..i])|
        invariant forall j | 0 <= j < |entries| :: Describes(entries[j], ArtOf(listing[..i])[j])
      {
        assert listing[..i + 1][..i] == listing[..i];
        var art := ReadEntry(listing[i].name);
        if art.Some? && listing[i].regular { entries := entries + [art.value]; }
      }
      assert listing[..|listing|] == listing;
    }

    method ReadEntry(name: string) returns (e: Option<Entry>)
      ensures e.Some? <==> StemLen(name).Some?
      ensures e.Some? ==> Describes(e.value, name)
    {
      DotInRange(name);
      var dot := DotAt(name);
      if dot.None? {
        return None;
      }
      var format := Format(name[dot.value + 1..]);
      if format.None? {
        return None;
      }
      var spelling := SpellingOf(name[dot.value + 1..]);
      return Some(Entry(name, dot.value, 0, format.value, spelling, 0));
    }

    method BucketCount(count: nat) returns (n: nat)
      ensures PowerOfTwo(n) && count * 2 <= n && n > 0
    {
      hide PowerOfTwo;
      n := 1;
      SixtyFour();
      OneIsPower();
      while n < count * 2
        invariant PowerOfTwo(n) && n > 0
        decreases count * 2 - n
      {
        Doubled(n);
        n := n * 2;
      }
    }

    method ChainEntries(ghost listing: seq<Listing>)
      requires heads.Length > 0 && forall b | 0 <= b < heads.Length :: heads[b] == 0
      requires |entries| == |ArtOf(listing)|
      requires forall i | 0 <= i < |entries| :: Describes(entries[i], ArtOf(listing)[i])
      modifies this`entries, heads
      ensures |entries| == |ArtOf(listing)| && forall i | 0 <= i < |entries| :: Describes(entries[i], ArtOf(listing)[i])
      ensures Chained(entries, heads[..], |entries|) && Hashed(|entries|)
    {
      hide StemLen, Format, Spelling, Chained, Bucket;
      NothingChained(entries, heads[..]);
      for i := 0 to |entries|
        invariant |entries| == |ArtOf(listing)|
        invariant forall j | 0 <= j < |entries| :: Describes(entries[j], ArtOf(listing)[j])
        invariant Chained(entries, heads[..], i) && Hashed(i) && heads.Length > 0
      {
        var e := entries[i];
        StemFits(e, ArtOf(listing)[i]);
        e := e.(stemHash := hash(Spelt(e.name[..e.stemLen], folds)));
        var b := Bucket(e.stemHash, heads.Length);
        ghost var hashed, before := entries[i := e], heads[..];
        RehashKeeps(entries, before, i, hashed);
        entries := entries[i := e.(next := heads[b])];
        heads[b] := i + 1;
        LinkKeeps(hashed, before, i, entries, b);
        assert heads[..] == before[b := i + 1];
      }
    }

    /** jw__art_dir_find: along one chain, keeping the best match so far. */
    method Find(listing: seq<Listing>, stem: string) returns (r: Option<string>)
      requires Holds(listing)
      ensures IsBest(listing, stem, folds, r)
    {
      hide StemLen, Format, Spelling, Better, Bucket, Chained, Chain, IsBest, Matches, BestAmong, ArtOf, Describes;
      NoArt(listing, stem, folds);
      if entries == [] {
        return None;
      }
      ChainedFacts(entries, heads[..]);
      var wanted := hash(Spelt(stem, folds));
      var head := heads[Bucket(wanted, heads.Length)];
      var i: nat := head;
      var best: Option<Entry> := None;
      BestOfNothing(entries, Chain(entries, head), stem, folds);
      while i != 0
        invariant i <= |entries| && BestAmong(entries, Chain(entries, head) - Chain(entries, i), stem, folds, best)
        decreases i
      {
        ChainStep(entries, i);
        best := Consider(listing, i - 1, stem, wanted, Chain(entries, head) - Chain(entries, i), best);
        BestOfFewer(entries, Chain(entries, head) - Chain(entries, i) + {i - 1},
          Chain(entries, head) - Chain(entries, entries[i - 1].next),
          stem, folds, best);
        i := entries[i - 1].next;
      }
      ChainEnds(entries);
      assert Chain(entries, head) - Chain(entries, i) == Chain(entries, head);
      ChainHoldsMatches(listing, stem, wanted, head);
      BestOfEntries(listing, stem, Chain(entries, head), best);
      return if best.None? then None else Some(best.value.name);
    }

    /** One entry of the chain. */
    method Consider(listing: seq<Listing>, at: nat, stem: string, wanted: nat, ghost seen: set<nat>,
                    best: Option<Entry>)
      returns (best': Option<Entry>)
      requires Holds(listing) && at < |entries| && wanted == hash(Spelt(stem, folds))
      requires BestAmong(entries, seen, stem, folds, best)
      ensures BestAmong(entries, seen + {at}, stem, folds, best')
    {
      hide StemLen, Format, Spelling, Better, Bucket, Chained, ArtOf;
      var entry := entries[at];
      assert Describes(entry, ArtOf(listing)[at]);
      SameStemIff(entry, stem, folds, hash, wanted);
      best' := best;
      if entry.stemHash == wanted && entry.stemLen == |stem|
         && Spelt(entry.name[..entry.stemLen], folds) == Spelt(stem, folds)
      {
        var better := best.None?;
        if best.Some? {
          better := EntryBetter(entry, best.value);
          AtLeastOrBetter(entry.name, best.value.name);
        }
        if better {
          best' := Some(entry);
          forall j | 0 <= j < |entries| && best.Some? && AtLeast(best.value.name, entries[j].name)
            ensures AtLeast(entry.name, entries[j].name)
          {
            AtLeastTwice(entry.name, best.value.name, entries[j].name);
          }
        }
      }
    }

    lemma ChainHoldsMatches(listing: seq<Listing>, stem: string, wanted: nat, head: nat)
      requires Holds(listing) && entries != [] && wanted == hash(Spelt(stem, folds))
      requires heads.Length > 0 && head == heads[Bucket(wanted, heads.Length)]
      ensures forall j | 0 <= j < |entries| && SameStem(entries[j], stem, folds) :: j in Chain(entries, head)
    {
    }

    lemma BestOfEntries(listing: seq<Listing>, stem: string, chain: set<nat>, best: Option<Entry>)
      requires Holds(listing) && BestAmong(entries, chain, stem, folds, best)
      requires forall j | 0 <= j < |entries| && SameStem(entries[j], stem, folds) :: j in chain
      ensures IsBest(listing, stem, folds, if best.None? then None else Some(best.value.name))
    {
      hide StemLen, Format, Spelling, Better, Chained;
      forall l | l in listing && Matches(l, stem, folds)
        ensures best.Some? && (l.name == best.value.name || AtLeast(best.value.name, l.name))
      {
        ArtOfMembers(listing, l.name);
        var j :| 0 <= j < |ArtOf(listing)| && ArtOf(listing)[j] == l.name;
        assert Describes(entries[j], l.name);
      }
      if best.Some? {
        var j :| 0 <= j < |entries| && entries[j] == best.value;
        assert Describes(entries[j], ArtOf(listing)[j]);
        ArtOfMembers(listing, best.value.name);
        var l :| l in listing && l.regular && StemLen(l.name).Some? && l.name == best.value.name;
        assert Matches(l, stem, folds);
      }
    }
  }

  /** The best match among the entries at these indices. */
  ghost predicate BestAmong(entries: seq<Entry>, seen: set<nat>, stem: string, folds: bool, best: Option<Entry>) {
    && (best.Some? ==>
          best.value in entries && SameStem(best.value, stem, folds) && Describes(best.value, best.value.name))
    && forall j | 0 <= j < |entries| && j in seen && SameStem(entries[j], stem, folds) ::
         best.Some? && (best.value.name == entries[j].name || AtLeast(best.value.name, entries[j].name))
  }

  lemma BestOfNothing(entries: seq<Entry>, chain: set<nat>, stem: string, folds: bool)
    ensures BestAmong(entries, chain - chain, stem, folds, None)
  {
  }

  lemma BestOfFewer(entries: seq<Entry>, more: set<nat>, fewer: set<nat>, stem: string, folds: bool,
                    best: Option<Entry>)
    requires BestAmong(entries, more, stem, folds, best) && fewer <= more
    ensures BestAmong(entries, fewer, stem, folds, best)
  {
    hide Describes, AtLeast, SameStem;
  }

  lemma ChainStep(entries: seq<Entry>, i: nat)
    requires 0 < i <= |entries| && entries[i - 1].next < i
    ensures Chain(entries, i) == {i - 1} + Chain(entries, entries[i - 1].next)
  {
  }

  lemma ChainEnds(entries: seq<Entry>)
    ensures Chain(entries, 0) == {}
  {
  }

  lemma OneIsPower()
    ensures PowerOfTwo(1)
  {
  }

  lemma StemFits(e: Entry, name: string)
    requires Describes(e, name)
    ensures e.stemLen < |e.name|
  {
  }

  /** Setting the hash of an entry that is not chained yet disturbs no chain. */
  lemma RehashKeeps(entries: seq<Entry>, heads: seq<nat>, n: nat, hashed: seq<Entry>)
    requires Chained(entries, heads, n) && n < |entries| && |hashed| == |entries|
    requires forall j | 0 <= j < |entries| && j != n :: hashed[j] == entries[j]
    ensures Chained(hashed, heads, n)
  {
    hide Bucket;
    forall b, j | 0 <= b < |heads| && 0 <= j < |hashed|
      ensures j in Chain(hashed, heads[b]) <==> j < n && Bucket(hashed[j].stemHash, |heads|) == b
    {
      ChainAgrees(entries, hashed, heads[b]);
      ChainBelow(entries, heads[b]);
    }
  }

  lemma ChainedFacts(entries: seq<Entry>, heads: seq<nat>)
    requires Chained(entries, heads, |entries|)
    ensures |heads| > 0 && (forall b | 0 <= b < |heads| :: heads[b] <= |entries|)
    ensures forall j | 0 <= j < |entries| :: entries[j].next <= j
  {
  }

  predicate SameStem(e: Entry, stem: string, folds: bool) {
    e.stemLen <= |e.name| && Spelt(e.name[..e.stemLen], folds) == Spelt(stem, folds)
  }

  /** Comparing hash and length first rejects no match. */
  lemma SameStemIff(e: Entry, stem: string, folds: bool, hash: string -> nat, wanted: nat)
    requires wanted == hash(Spelt(stem, folds)) && e.stemLen <= |e.name|
    requires e.stemHash == hash(Spelt(e.name[..e.stemLen], folds))
    ensures SameStem(e, stem, folds) <==>
      e.stemHash == wanted && e.stemLen == |stem| && Spelt(e.name[..e.stemLen], folds) == Spelt(stem, folds)
  {
    assert |Spelt(stem, folds)| == |stem| && |Spelt(e.name[..e.stemLen], folds)| == e.stemLen;
  }

  /** `a` ranks before `b`, for two art files. */
  predicate AtLeast(a: string, b: string) {
    StemLen(a).Some? && StemLen(b).Some? && Better(a, b)
  }

  lemma AtLeastOrBetter(a: string, b: string)
    requires StemLen(a).Some? && StemLen(b).Some?
    ensures Better(a, b) || a == b || AtLeast(b, a)
  {
    BetterIsTotal(a, b);
  }

  lemma AtLeastTwice(a: string, b: string, c: string)
    requires AtLeast(a, b) && AtLeast(b, c)
    ensures AtLeast(a, c)
  {
    BetterIsTransitive(a, b, c);
  }

  lemma NoArt(listing: seq<Listing>, stem: string, folds: bool)
    ensures ArtOf(listing) == [] ==> IsBest(listing, stem, folds, None)
  {
    hide StemLen;
    if ArtOf(listing) == [] {
      forall l | l in listing ensures !Matches(l, stem, folds) { ArtOfMembers(listing, l.name); }
    }
  }

  // ---------------------------------------------------------------- one game, several places

  /** A folder as it stands on the card during one pass. */
  datatype OnCard = OnCard(listing: seq<Listing>, folds: bool)

  /** The places to look in, in order. */
  function Places(canonical: Option<string>, physical: Option<(string, string)>): seq<string> {
    (if canonical.Some? then [canonical.value] else [])
      + (if physical.Some? then [physical.value.0, physical.value.1] else [])
  }

  ghost predicate Empty(card: string -> OnCard, dir: string, stem: string) {
    IsBest(card(dir).listing, stem, card(dir).folds, None)
  }

  /** The best file of the first place that has any. */
  ghost predicate FirstHit(card: string -> OnCard, places: seq<string>, stem: string, r: Option<(string, string)>) {
    match r
    case None => forall k | 0 <= k < |places| :: Empty(card, places[k], stem)
    case Some(hit) => exists k ::
      && 0 <= k < |places| && places[k] == hit.0
      && IsBest(card(hit.0).listing, stem, card(hit.0).folds, Some(hit.1))
      && forall j | 0 <= j < k :: Empty(card, places[j], stem)
  }

  method FindIn(card: string -> OnCard, hash: string -> nat, dir: string, stem: string) returns (name: Option<string>)
    ensures IsBest(card(dir).listing, stem, card(dir).folds, name)
  {
    var folder := new Folder(hash, card(dir).listing, card(dir).folds);
    name := folder.Find(card(dir).listing, stem);
  }

  /** jw_art_find_for_rom: a repeated folder is not read again, which changes no answer. */
  method FindForRom(card: string -> OnCard, hash: string -> nat, canonical: Option<string>,
                    physical: Option<(string, string)>, stem: string)
    returns (r: Option<(string, string)>)
    ensures FirstHit(card, Places(canonical, physical), stem, r)
  {
    hide IsBest;
    ghost var places := Places(canonical, physical);
    if canonical.Some? {
      var name := FindIn(card, hash, canonical.value, stem);
      if name.Some? {
        assert places[0] == canonical.value;
        return Some((canonical.value, name.value));
      }
    }
    if physical.None? {
      return None;
    }
    var (images, imgs) := physical.value;
    if canonical != Some(images) {
      var name := FindIn(card, hash, images, stem);
      if name.Some? {
        assert places[if canonical.Some? then 1 else 0] == images;
        return Some((images, name.value));
      }
    }
    var name := FindIn(card, hash, imgs, stem);
    if name.Some? {
      assert places[if canonical.Some? then 2 else 1] == imgs;
      return Some((imgs, name.value));
    }
    return None;
  }
}
