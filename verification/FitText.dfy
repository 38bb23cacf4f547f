/** Shortening translated text to a banner: `jw_osd_fit_text` and the UTF-8 boundaries it cuts at. */
module FitText {
  import opened CStrings
  import opened Utf8

  // ---------------------------------------------------------------- boundaries

  /** A cut after `k` bytes falls between two characters. */
  predicate Boundary(s: string, k: nat) {
    k <= |s| && (k == |s| || !Continuation(s[k]))
  }

  lemma FirstByte(s: string)
    requires Valid(s) && s != []
    ensures !Continuation(s[0]) && 1 <= Width(s[0]) <= |s| && forall i | 1 <= i < Width(s[0]) :: Continuation(s[i])
  {
    Uncons(s);
    var n := Width(s[0]);
    forall i | 1 <= i < n ensures Continuation(s[i]) { assert s[..n][i] == s[i]; }
  }

  /** Exactly the cuts at boundaries leave well-formed text on both sides. */
  lemma {:induction false} BoundaryIff(s: string, k: nat)
    requires Valid(s) && k <= |s|
    ensures Boundary(s, k) ==> Valid(s[..k]) && Valid(s[k..])
    ensures Valid(s[..k]) ==> Boundary(s, k)
    decreases |s|
  {
    hide Valid, OneChar, Width;
    EmptyIsValid();
    if k == 0 {
      assert s[..0] == "" && s[0..] == s;
      if s != [] { FirstByte(s); }
    } else {
      Uncons(s);
      FirstByte(s);
      var n := Width(s[0]);
      if k < n {
        PrefixTooShort(s, k);
      } else {
        BoundaryIff(s[n..], k - n);
        assert s[n..][..k - n] == s[n..k] && s[n..][k - n..] == s[k..];
        assert s[..k] == s[..n] + s[n..k];
        Cons(s[..n], s[n..k]);
      }
    }
  }

  /** A part of one character is not well formed. */
  lemma PrefixTooShort(s: string, k: nat)
    requires Valid(s) && s != [] && 0 < k < Width(s[0])
    ensures !Valid(s[..k])
  {
    assert s[..k][0] == s[0];
  }

  /** `r` is the last boundary not after `len`. */
  ghost predicate LastBoundary(s: string, len: nat, r: nat) {
    r <= len && Boundary(s, r) && forall k | r < k <= len :: !Boundary(s, k)
  }

  /** Width the lead byte announces, as `jw_osd_utf8_boundary` reads it. */
  function Announced(c: char): nat {
    var b := c as int;
    if b < 0x80 then 1
    else if 0xC0 <= b < 0xE0 then 2
    else if 0xE0 <= b < 0xF0 then 3
    else if 0xF0 <= b < 0xF8 then 4
    else 1
  }

  /** jw_osd_utf8_boundary */
  method Utf8Boundary(s: string, len: nat) returns (r: nat)
    requires len <= |s|
    ensures r <= len
    ensures Valid(s) ==> LastBoundary(s, len, r)
  {
    var continuation := 0;
    var i: nat := len;
    while i > 0 && continuation < 4
      invariant continuation == len - i && i <= len && forall k | i <= k < len :: Continuation(s[k])
    {
      if Continuation(s[i - 1]) {
        continuation, i := continuation + 1, i - 1;
        continue;
      }
      LeadDecides(s, i - 1, len);
      return if continuation + 1 < Announced(s[i - 1]) then i - 1 else len;
    }
    RunTooLong(s, i, len);
    return len;
  }

  /** Where the character that starts at `k` ends. */
  lemma {:induction false} CharEnds(s: string, k: nat)
    requires Valid(s) && k < |s| && !Continuation(s[k])
    ensures var n := Width(s[k]);
      1 <= n && k + n <= |s| && Boundary(s, k + n) && forall i | k < i < k + n :: Continuation(s[i])
  {
    hide Valid, Width;
    BoundaryIff(s, k);
    FirstByte(s[k..]);
    var n := Width(s[k..][0]);
    Uncons(s[k..]);
    BoundaryIff(s[k..], n);
    EmptyIsValid();
    if k + n < |s| { FirstByte(s[k..][n..]); }
    forall i | k < i < k + n ensures Continuation(s[i]) { assert s[k..][i - k] == s[i]; }
  }

  lemma LeadDecides(s: string, lead: nat, len: nat)
    requires lead < len <= |s| && !Continuation(s[lead]) && forall k | lead < k < len :: Continuation(s[k])
    ensures Valid(s) ==> LastBoundary(s, len, if len - lead < Announced(s[lead]) then lead else len)
  {
    hide Valid;
    if Valid(s) {
      CharEnds(s, lead);
      assert Announced(s[lead]) == Width(s[lead]);
    }
  }

  /** In well-formed text the scan meets a lead byte, unless there is nothing to scan. */
  lemma RunTooLong(s: string, i: nat, len: nat)
    requires i <= len <= |s| && (i == 0 || len - i >= 4) && forall k | i <= k < len :: Continuation(s[k])
    ensures Valid(s) ==> LastBoundary(s, len, len)
  {
    hide Valid;
    if Valid(s) {
      if s != [] { FirstByte(s); }
      if len > 0 { ShortRuns(s, len); }
    }
  }

  /** No more than three continuation bytes in a row. */
  lemma {:induction false} ShortRuns(s: string, len: nat)
    requires Valid(s) && 0 < len <= |s|
    ensures exists k :: len - 4 <= k < len && 0 <= k && !Continuation(s[k])
    decreases |s|
  {
    hide Valid;
    FirstByte(s);
    Uncons(s);
    var n := Width(s[0]);
    if len <= n {
      assert len - 4 <= 0 && !Continuation(s[0]);
    } else {
      ShortRuns(s[n..], len - n);
      var k :| len - n - 4 <= k < len - n && 0 <= k && !Continuation(s[n..][k]);
      assert s[n + k] == s[n..][k];
    }
  }

  /** jw_osd_utf8_prev */
  method Utf8Prev(s: string, pos: nat) returns (r: nat)
    requires 0 < pos <= |s|
    ensures r < pos
    ensures Valid(s) ==> LastBoundary(s, pos - 1, r)
  {
    r := pos - 1;
    while r > 0 && Continuation(s[r])
      invariant r < pos && forall k | r < k < pos :: Continuation(s[k])
    {
      r := r - 1;
    }
    FirstOfValid(s);
  }

  lemma FirstOfValid(s: string)
    ensures Valid(s) && s != [] ==> !Continuation(s[0])
  {
    if Valid(s) && s != [] { FirstByte(s); }
  }

  // ---------------------------------------------------------------- fitting

  const DOTS := "..."

  /** A prefix that may stand before the dots: whole characters, no trailing space, room for dots and terminator. */
  ghost predicate Candidate(text: string, size: nat, k: nat) {
    Boundary(text, k) && k + 4 <= size && (k > 0 ==> text[k - 1] != ' ')
  }

  ghost predicate WholeFits(text: string, maxW: int, measure: string -> int, size: nat) {
    |text| < size && measure(text) <= maxW
  }

  ghost predicate Shortened(text: string, maxW: int, measure: string -> int, size: nat, k: nat) {
    && Candidate(text, size, k) && measure(text[..k] + DOTS) <= maxW
    && forall j | k < j <= |text| && Candidate(text, size, j) :: measure(text[..j] + DOTS) > maxW
  }

  /** The text itself, or the longest prefix with dots that fits buffer and width, or nothing; and its width. */
  ghost predicate Fitted(text: string, maxW: int, measure: string -> int, size: nat, result: string, w: int) {
    if WholeFits(text, maxW, measure, size) then result == text && w == measure(text)
    else if exists k: nat :: Shortened(text, maxW, measure, size, k) then
      exists k: nat :: Shortened(text, maxW, measure, size, k) && result == text[..k] + DOTS && w == measure(result)
    else result == "" && w == 0
  }

  /** Whatever is shown is well formed. */
  lemma FittedIsValid(text: string, maxW: int, measure: string -> int, size: nat, result: string, w: int)
    requires Valid(text) && Fitted(text, maxW, measure, size, result, w)
    ensures Valid(result) && (size > 0 ==> |result| < size)
  {
    hide Valid;
    EmptyIsValid();
    if !WholeFits(text, maxW, measure, size) && exists k: nat :: Shortened(text, maxW, measure, size, k) {
      var k: nat :| Shortened(text, maxW, measure, size, k) && result == text[..k] + DOTS && w == measure(result);
      BoundaryIff(text, k);
      DotsAreValid();
      Concat(text[..k], DOTS);
    }
  }

  lemma DotsAreValid()
    ensures Valid(DOTS)
  {
    assert DOTS[1..][1..] == ".";
    assert Valid(".");
    assert Valid("..");
  }

  /** The result is unique: no two answers meet the specification. */
  lemma FittedIsUnique(text: string, maxW: int, measure: string -> int, size: nat, a: string, wa: int, b: string,
                       wb: int)
    requires Fitted(text, maxW, measure, size, a, wa) && Fitted(text, maxW, measure, size, b, wb)
    ensures a == b && wa == wb
  {
    if !WholeFits(text, maxW, measure, size) && exists k: nat :: Shortened(text, maxW, measure, size, k) {
      var j: nat :| Shortened(text, maxW, measure, size, j) && a == text[..j] + DOTS && wa == measure(a);
      var k: nat :| Shortened(text, maxW, measure, size, k) && b == text[..k] + DOTS && wb == measure(b);
      assert j == k;
    }
  }

  /** A beginning of the text that leaves well-formed text, ends in no space, and has room for three dots and a NUL. */
  ghost predicate Beginning(text: string, size: nat, p: string) {
    p <= text && Valid(p) && |p| + 4 <= size && (p == "" || p[|p| - 1] != ' ')
  }

  lemma BeginningIff(text: string, size: nat, k: nat)
    requires Valid(text) && k <= |text|
    ensures Beginning(text, size, text[..k]) <==> Candidate(text, size, k)
  {
    hide Valid;
    BoundaryIff(text, k);
  }

  /** What is shown: the text; or the longest beginning that fits with three dots behind it; or nothing. */
  lemma FittedMeans(text: string, maxW: int, measure: string -> int, size: nat, result: string, w: int)
    requires Valid(text) && Fitted(text, maxW, measure, size, result, w)
    ensures |text| < size && measure(text) <= maxW ==> result == text && w == measure(text)
    ensures !(|text| < size && measure(text) <= maxW) ==>
      || (w == measure(result) <= maxW && exists p ::
            && Beginning(text, size, p) && result == p + "..."
            && forall q | Beginning(text, size, q) && |q| > |p| :: measure(q + "...") > maxW)
      || (result == "" && w == 0 && forall q | Beginning(text, size, q) :: measure(q + "...") > maxW)
  {
    hide Valid, Candidate, Beginning;
    forall q | Beginning(text, size, q) ensures |q| <= |text| && q == text[..|q|] && Candidate(text, size, |q|) {
      BeginningIs(text, size, q);
      BeginningIff(text, size, |q|);
    }
    if !(|text| < size && measure(text) <= maxW) {
      if exists k: nat :: Shortened(text, maxW, measure, size, k) {
        forall k: nat | Candidate(text, size, k) ensures k <= |text| { CandidateInText(text, size, k); }
        var k: nat :| Shortened(text, maxW, measure, size, k) && result == text[..k] + DOTS && w == measure(result);
        BeginningIff(text, size, k);
        assert Beginning(text, size, text[..k]);
      } else {
        forall q | Beginning(text, size, q) ensures measure(q + "...") > maxW {
          if measure(q + "...") <= maxW { var k := Longest(text, maxW, measure, size, |q|); }
        }
      }
    }
  }

  lemma BeginningIs(text: string, size: nat, q: string)
    requires Beginning(text, size, q)
    ensures |q| <= |text| && q == text[..|q|]
  {
  }

  lemma CandidateInText(text: string, size: nat, k: nat)
    requires Candidate(text, size, k)
    ensures k <= |text|
  {
  }

  /** From one prefix that fits to the longest. */
  lemma Longest(text: string, maxW: int, measure: string -> int, size: nat, k: nat) returns (r: nat)
    requires k <= |text| && Candidate(text, size, k) && measure(text[..k] + DOTS) <= maxW
    ensures Shortened(text, maxW, measure, size, r)
    decreases |text| - k
  {
    hide Candidate;
    if j: nat :| k < j <= |text| && Candidate(text, size, j) && measure(text[..j] + DOTS) <= maxW {
      r := Longest(text, maxW, measure, size, j);
    } else {
      r := k;
    }
  }

  // ---------------------------------------------------------------- the program

  lemma CStringIs(s: seq<char>, t: string)
    requires |t| < |s| && s[..|t|] == t && s[|t|] == NUL && NulFree(t)
    ensures CString(s) == t
  {
    CStringEnds(s, |t|);
  }

  /** `memcpy(out + at, bytes, n)` and a terminator behind it. */
  method CopyTo(out: array<char>, at: nat, bytes: string)
    requires at + |bytes| < out.Length
    modifies out
    ensures out[..at] == old(out[..at]) && out[at..at + |bytes|] == bytes && out[at + |bytes|] == NUL
  {
    for k := 0 to |bytes|
      invariant out[..at] == old(out[..at])
      invariant forall j | 0 <= j < k :: out[at + j] == bytes[j]
    {
      out[at + k] := bytes[k];
    }
    out[at + |bytes|] := NUL;
  }

  /** The prefix stands in the buffer already; this puts the dots behind it. */
  method PutDots(out: array<char>, text: string, cut: nat)
    requires cut <= |text| && cut + 4 <= out.Length && out[..cut] == text[..cut] && NulFree(text)
    modifies out
    ensures CString(out[..]) == text[..cut] + DOTS && out[..cut] == text[..cut]
  {
    CopyTo(out, cut, DOTS);
    assert out[..cut + 3] == out[..cut] + out[cut..cut + 3];
    CStringIs(out[..], text[..cut] + DOTS);
  }

  method TrimSpaces(text: string, from: nat) returns (cut: nat)
    requires from <= |text|
    ensures cut <= from && (cut > 0 ==> text[cut - 1] != ' ') && (forall k | cut <= k < from :: text[k] == ' ')
  {
    cut := from;
    while cut > 0 && text[cut - 1] == ' '
      invariant cut <= from && forall k | cut <= k < from :: text[k] == ' '
    {
      cut := cut - 1;
    }
  }

  /** All candidates longer than `cut` are too wide. */
  ghost predicate Ruled(text: string, maxW: int, measure: string -> int, size: nat, cut: nat) {
    forall j | cut < j <= |text| && Candidate(text, size, j) :: measure(text[..j] + DOTS) > maxW
  }

  /** jw_osd_fit_text. It ends for every measure, and on well-formed text the buffer holds the fitted text. */
  method FitText(text: string, maxW: int, measure: string -> int, out: array<char>) returns (w: int)
    requires NulFree(text) && out.Length > 0
    modifies out
    ensures Valid(text) ==> Fitted(text, maxW, measure, out.Length, CString(out[..]), w)
  {
    var len := Utf8Boundary(text, |text|);
    var n: nat := len;
    if len >= out.Length { n := Utf8Boundary(text, out.Length - 1); }
    CopyTo(out, 0, text[..n]);
    assert out[..n] == out[0..n] == text[..n];
    CStringIs(out[..], text[..n]);
    EndIsBoundary(text, len);
    w := measure(text[..n]);
    if n == len && w <= maxW {
      return w;
    }
    if out.Length < 4 {
      NoRoom(text, maxW, measure, out.Length);
      out[0] := NUL;
      CStringIs(out[..], "");
      return 0;
    }
    var cut: nat := n;
    if n > out.Length - 4 { cut := Utf8Boundary(text, out.Length - 4); }
    NoRoomBeyond(text, maxW, measure, out.Length, len, n, cut);
    assert out[..cut] == out[..n][..cut] && text[..cut] == text[..n][..cut];
    w := Shorten(text, maxW, measure, out, cut);
  }

  /** The loop over ever shorter prefixes. */
  method Shorten(text: string, maxW: int, measure: string -> int, out: array<char>, start: nat) returns (w: int)
    requires NulFree(text) && start <= |text| && start + 4 <= out.Length && out[..start] == text[..start]
    requires Valid(text) ==> Boundary(text, start) && Ruled(text, maxW, measure, out.Length, start)
    modifies out
    ensures Valid(text) && !WholeFits(text, maxW, measure, out.Length) ==>
      Fitted(text, maxW, measure, out.Length, CString(out[..]), w)
  {
    hide Valid, Boundary, Ruled, Fitted, WholeFits, NulFree, LastBoundary;
    NothingIsNulFree();
    var cut: nat := start;
    while true
      invariant cut <= |text| && cut + 4 <= out.Length && out[..cut] == text[..cut]
      invariant Valid(text) ==> Boundary(text, cut) && Ruled(text, maxW, measure, out.Length, cut)
      decreases cut
    {
      var trimmed := TrimSpaces(text, cut);
      Trimmed(text, maxW, measure, out.Length, cut, trimmed);
      assert out[..trimmed] == out[..cut][..trimmed];
      cut := trimmed;
      PutDots(out, text, cut);
      w := measure(text[..cut] + DOTS);
      if w <= maxW || cut == 0 {
        break;
      }
      var before := Utf8Prev(text, cut);
      PrevRules(text, maxW, measure, out.Length, cut, before);
      assert out[..before] == out[..cut][..before];
      cut := before;
    }
    Settled(text, maxW, measure, out.Length, cut, w);
    if w > maxW {
      out[0] := NUL;
      CStringIs(out[..], "");
      return 0;
    }
  }

  lemma NothingIsNulFree()
    ensures NulFree("")
  {
  }

  lemma EndIsBoundary(text: string, len: nat)
    requires len <= |text| && (Valid(text) ==> LastBoundary(text, |text|, len))
    ensures Valid(text) ==> len == |text| && text[..len] == text
  {
    if Valid(text) { assert Boundary(text, |text|); }
  }

  /** Nothing longer than the first cut has room for the dots. */
  lemma NoRoomBeyond(text: string, maxW: int, measure: string -> int, size: nat, len: nat, n: nat, cut: nat)
    requires size >= 4 && n <= len <= |text| && (Valid(text) ==> len == |text|)
    requires Valid(text) ==> if len < size then n == len else LastBoundary(text, size - 1, n)
    requires if n > size - 4 then cut <= size - 4 && (Valid(text) ==> LastBoundary(text, size - 4, cut)) else cut == n
    ensures Valid(text) ==> Boundary(text, cut) && Ruled(text, maxW, measure, size, cut)
  {
    hide Valid;
  }

  /** Trimming skips only cuts behind a space, and stays at a boundary. */
  lemma Trimmed(text: string, maxW: int, measure: string -> int, size: nat, cut: nat, trimmed: nat)
    requires trimmed <= cut <= |text| && forall k | trimmed <= k < cut :: text[k] == ' '
    requires Valid(text) ==> Boundary(text, cut) && Ruled(text, maxW, measure, size, cut)
    ensures Valid(text) ==> Boundary(text, trimmed) && Ruled(text, maxW, measure, size, trimmed)
  {
    hide Valid;
    forall j: nat | trimmed < j <= cut ensures !Candidate(text, size, j) {
    }
  }

  lemma PrevRules(text: string, maxW: int, measure: string -> int, size: nat, cut: nat, before: nat)
    requires before < cut <= |text| && measure(text[..cut] + DOTS) > maxW
    requires Valid(text) ==> LastBoundary(text, cut - 1, before) && Ruled(text, maxW, measure, size, cut)
    ensures Valid(text) ==> Boundary(text, before) && Ruled(text, maxW, measure, size, before)
  {
    hide Valid;
  }

  lemma Settled(text: string, maxW: int, measure: string -> int, size: nat, cut: nat, w: int)
    requires cut <= |text| && cut + 4 <= size && (cut > 0 ==> text[cut - 1] != ' ') && w == measure(text[..cut] + DOTS)
    requires Valid(text) ==> Boundary(text, cut) && Ruled(text, maxW, measure, size, cut)
    ensures Valid(text) && !WholeFits(text, maxW, measure, size) && w <= maxW ==>
      Fitted(text, maxW, measure, size, text[..cut] + DOTS, w)
    ensures Valid(text) && !WholeFits(text, maxW, measure, size) && w > maxW && cut == 0 ==>
      Fitted(text, maxW, measure, size, "", 0)
  {
    hide Valid;
    if Valid(text) && w <= maxW { assert Shortened(text, maxW, measure, size, cut); }
  }

  /** Without room for dots there is no candidate. */
  lemma NoRoom(text: string, maxW: int, measure: string -> int, size: nat)
    requires size < 4
    ensures !WholeFits(text, maxW, measure, size) ==> Fitted(text, maxW, measure, size, "", 0)
  {
  }
}
