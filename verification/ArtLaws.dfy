/** Which files are art, which one is chosen, and from which folder: in the names themselves. */
module ArtLaws {
  import opened Wrappers
  import opened CStrings
  import opened Sorting
  import opened ArtLookup

  /** A name is a stem, a dot and an art extension in any spelling. */
  predicate ArtFile(name: string, stem: string, ext: string) {
    && stem != "" && '.' !in ext && name == stem + "." + ext
    && (EqualUpToCase(ext, "png") || EqualUpToCase(ext, "jpg") || EqualUpToCase(ext, "jpeg"))
  }

  predicate SameStem(a: string, b: string, folds: bool) {
    if folds then EqualUpToCase(a, b) else a == b
  }

  lemma FormatIff(ext: string)
    ensures Format(ext) == Some(0) <==> EqualUpToCase(ext, "png")
    ensures Format(ext) == Some(1) <==> EqualUpToCase(ext, "jpg")
    ensures Format(ext) == Some(2) <==> EqualUpToCase(ext, "jpeg")
    ensures Format(ext).Some? ==> Format(ext).value <= 2
  {
    hide Fold;
    FoldIff(ext, "png"); FoldIff(ext, "jpg"); FoldIff(ext, "jpeg");
    ExtensionsAreLower();
  }

  lemma ExtensionsAreLower()
    ensures Fold("png") == "png" && Fold("jpg") == "jpg" && Fold("jpeg") == "jpeg"
    ensures "png" != "jpg" && "png" != "jpeg" && "jpg" != "jpeg"
  {
    assert "png"[0] != "jpg"[0] && |"jpeg"| == 4 && |"jpg"| == 3 && |"png"| == 3;
  }

  lemma StemOf(name: string, stem: string, ext: string)
    requires ArtFile(name, stem, ext)
    ensures StemLen(name) == Some(|stem|) && name[..|stem|] == stem && name[|stem| + 1..] == ext
  {
    hide Format, EqualUpToCase;
    FormatIff(ext);
    assert name == stem + ['.'] + ext;
    AfterLastOf(stem, '.', ext);
  }

  lemma StemGives(name: string)
    requires StemLen(name).Some?
    ensures ArtFile(name, name[..StemLen(name).value], name[StemLen(name).value + 1..])
  {
    hide Format, EqualUpToCase;
    AfterLastIsLast(name, '.');
    var n := StemLen(name).value;
    FormatIff(name[n + 1..]);
    assert name == name[..n] + "." + name[n + 1..];
  }

  lemma MatchesIff(l: Listing, stem: string, folds: bool)
    ensures Matches(l, stem, folds) <==>
      l.regular && exists s, ext :: ArtFile(l.name, s, ext) && SameStem(s, stem, folds)
  {
    hide ArtFile, StemLen, Fold, EqualUpToCase;
    if StemLen(l.name).Some? {
      StemGives(l.name);
      FoldIff(l.name[..StemLen(l.name).value], stem);
    }
    forall s, ext | ArtFile(l.name, s, ext)
      ensures StemLen(l.name) == Some(|s|) && l.name[..|s|] == s
    {
      StemOf(l.name, s, ext);
    }
  }

  /** The folder has art for the stem. */
  ghost predicate HasArt(listing: seq<Listing>, stem: string, folds: bool) {
    exists l, s, ext :: l in listing && l.regular && ArtFile(l.name, s, ext) && SameStem(s, stem, folds)
  }

  /** Something is found exactly when there is a regular art file of that stem, and then one of these. */
  lemma FoundIff(listing: seq<Listing>, stem: string, folds: bool, r: Option<string>)
    requires IsBest(listing, stem, folds, r)
    ensures r.Some? <==> HasArt(listing, stem, folds)
    ensures r.Some? ==> exists l, s, ext ::
      l in listing && l.regular && l.name == r.value && ArtFile(l.name, s, ext) && SameStem(s, stem, folds)
  {
    hide ArtFile, Matches, Better;
    forall l ensures Matches(l, stem, folds) <==>
      l.regular && exists s, ext :: ArtFile(l.name, s, ext) && SameStem(s, stem, folds)
    {
      MatchesIff(l, stem, folds);
    }
  }

  predicate AllLower(ext: string) {
    forall i | 0 <= i < |ext| :: !('A' <= ext[i] <= 'Z')
  }

  predicate AllUpper(ext: string) {
    forall i | 0 <= i < |ext| :: !('a' <= ext[i] <= 'z')
  }

  /**
   * The chosen file against any other candidate: PNG before JPG before JPEG; then an extension in small letters before
   * one in capitals before a mixed one; then the bytes of the extension; then the bytes of the name.
   */
  lemma ChosenFirst(listing: seq<Listing>, stem: string, folds: bool, best: string, s: string, x: string,
                    other: Listing, s': string, y: string)
    requires IsBest(listing, stem, folds, Some(best)) && ArtFile(best, s, x)
    requires other in listing && other.regular && ArtFile(other.name, s', y) && SameStem(s', stem, folds)
    ensures EqualUpToCase(y, "png") ==> EqualUpToCase(x, "png")
    ensures EqualUpToCase(y, "jpg") ==> EqualUpToCase(x, "png") || EqualUpToCase(x, "jpg")
    ensures EqualUpToCase(x, y) && AllLower(y) ==> AllLower(x)
    ensures EqualUpToCase(x, y) && AllUpper(y) ==> AllUpper(x) || AllLower(x)
    ensures EqualUpToCase(x, y) && (AllLower(x) <==> AllLower(y)) && (AllUpper(x) <==> AllUpper(y)) ==> StrLe(x, y)
    ensures x == y ==> StrLe(best, other.name)
  {
    hide Matches, ArtFile, EqualUpToCase, StrLe;
    MatchesIff(other, stem, folds);
    StemOf(best, s, x);
    StemOf(other.name, s', y);
    RankOf(best, s, x); RankOf(other.name, s', y);
    FormatIff(x); FormatIff(y);
    SameFormat(x, y);
    StrLeReflexive(best); StrLeReflexive(x);
    DotBefore(x, y);
  }

  lemma RankOf(name: string, s: string, x: string)
    requires ArtFile(name, s, x)
    ensures StemLen(name) == Some(|s|) && name[|s|..] == "." + x && name[|s|..][1..] == x
    ensures Spelling(x) == if AllLower(x) then 0 else if AllUpper(x) then 1 else 2
  {
    StemOf(name, s, x);
  }

  lemma SameFormat(x: string, y: string)
    ensures EqualUpToCase(x, y) ==> Format(x) == Format(y)
  {
    FoldIff(x, y);
  }

  lemma DotBefore(x: string, y: string)
    ensures StrLe("." + x, "." + y) <==> StrLe(x, y)
    ensures "." + x == "." + y <==> x == y
  {
    CommonPrefix(".", x, y);
    assert ("." + x)[1..] == x && ("." + y)[1..] == y;
  }

  /** The folders in their order: the system's own, then the card's image folder, then the one beside the games. */
  lemma FirstFolderWins(card: string -> OnCard, canonical: Option<string>, physical: Option<(string, string)>,
                        stem: string, r: Option<(string, string)>)
    requires FirstHit(card, Places(canonical, physical), stem, r)
    ensures
      if canonical.Some? && HasArt(card(canonical.value).listing, stem, card(canonical.value).folds) then
        r.Some? && r.value.0 == canonical.value
          && IsBest(card(r.value.0).listing, stem, card(r.value.0).folds, Some(r.value.1))
      else if physical.Some? && HasArt(card(physical.value.0).listing, stem, card(physical.value.0).folds) then
        r.Some? && r.value.0 == physical.value.0
        && IsBest(card(r.value.0).listing, stem, card(r.value.0).folds, Some(r.value.1))
      else if physical.Some? && HasArt(card(physical.value.1).listing, stem, card(physical.value.1).folds) then
        r.Some? && r.value.0 == physical.value.1
        && IsBest(card(r.value.0).listing, stem, card(r.value.0).folds, Some(r.value.1))
      else r.None?
  {
    hide IsBest, HasArt;
    forall dir ensures Empty(card, dir, stem) <==> !HasArt(card(dir).listing, stem, card(dir).folds) {
      EmptyIff(card, dir, stem);
    }
    forall dir, name | IsBest(card(dir).listing, stem, card(dir).folds, Some(name))
      ensures HasArt(card(dir).listing, stem, card(dir).folds)
    {
      FoundIff(card(dir).listing, stem, card(dir).folds, Some(name));
    }
    PlacesAre(canonical, physical);
  }

  lemma PlacesAre(canonical: Option<string>, physical: Option<(string, string)>)
    ensures var p, n := Places(canonical, physical), if canonical.Some? then 1 else 0;
      && |p| == n + (if physical.Some? then 2 else 0)
      && (canonical.Some? ==> p[0] == canonical.value)
      && (physical.Some? ==> p[n] == physical.value.0 && p[n + 1] == physical.value.1)
  {
  }

  lemma EmptyIff(card: string -> OnCard, dir: string, stem: string)
    ensures Empty(card, dir, stem) <==> !HasArt(card(dir).listing, stem, card(dir).folds)
  {
    hide ArtFile, Matches;
    var c := card(dir);
    forall l ensures Matches(l, stem, c.folds) <==>
      l.regular && exists s, ext :: ArtFile(l.name, s, ext) && SameStem(s, stem, c.folds)
    {
      MatchesIff(l, stem, c.folds);
    }
  }
}
