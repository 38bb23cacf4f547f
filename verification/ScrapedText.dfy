/** `jw_clean_scraped_text`: entities decoded and blanks collapsed, in place. */
module ScrapedText {
  import opened Wrappers
  import opened CStrings
  import opened Utf8

  // ---------------------------------------------------------------- one entity

  /** The first ';' from offset `e` on, not beyond offset 11. */
  function FindSemi(t: string, e: nat): Option<nat>
    decreases |t| - e
  {
    if e >= |t| || e > 11 then None else if t[e] == ';' then Some(e) else FindSemi(t, e + 1)
  }

  predicate Digit(c: char, hex: bool) {
    '0' <= c <= '9' || (hex && ('a' <= c <= 'f' || 'A' <= c <= 'F'))
  }

  function DigitValue(c: char): nat
    requires Digit(c, true)
  {
    if c <= '9' then c as int - '0' as int
    else if c <= 'F' then c as int - 'A' as int + 10
    else c as int - 'a' as int + 10
  }

  predicate Digits(d: string, hex: bool) {
    forall i | 0 <= i < |d| :: Digit(d[i], hex)
  }

  function Number(d: string, hex: bool): nat
    requires Digits(d, hex)
  {
    if d == [] then 0 else Number(d[..|d| - 1], hex) * (if hex then 16 else 10) + DigitValue(d[|d| - 1])
  }

  predicate LetterX(c: char) {
    c == 'x' || c == 'X'
  }

  /** `strtoul` in base 16 skips one more "0x" in front of a hexadecimal digit. */
  function Prefix(d: string, hex: bool): (n: nat)
    ensures n <= |d|
  {
    if hex && |d| >= 3 && d[0] == '0' && LetterX(d[1]) && Digit(d[2], true) then 2 else 0
  }

  /** The number a reference spells, when all of it is read and it is not zero. */
  function Spelled(d: string, hex: bool): Option<nat> {
    var rest := d[Prefix(d, hex)..];
    if d == [] || !Digit(d[0], hex) || !Digits(rest, hex) || Number(rest, hex) == 0 then None
    else Some(Number(rest, hex))
  }

  /** The number the digits spell by themselves. */
  function Plain(d: string, hex: bool): Option<nat> {
    if d != [] && Digits(d, hex) && Number(d, hex) != 0 then Some(Number(d, hex)) else None
  }

  /** A reference is read as its plain digits unless a second "0x" precedes a number that is not zero. */
  lemma PlainUnlessPrefixed(d: string, hex: bool)
    ensures Spelled(d, hex) == Plain(d, hex) <==>
      !(Prefix(d, hex) == 2 && Digits(d[2..], hex) && Number(d[2..], hex) != 0)
  {
    hide Number;
    if Prefix(d, hex) == 0 { assert d[0..] == d; }
  }

  predicate HexReference(body: string) {
    |body| >= 2 && LetterX(body[1])
  }

  /** What stands between '&' and ';'. */
  function CodePoint(body: string): Option<nat> {
    if |body| >= 2 && body[0] == '#' then
      if HexReference(body) then Spelled(body[2..], true) else Spelled(body[1..], false)
    else if body == "quot" then Some('"' as nat)
    else if body == "amp" then Some('&' as nat)
    else if body == "lt" then Some('<' as nat)
    else if body == "gt" then Some('>' as nat)
    else if body == "apos" then Some('\'' as nat)
    else if body == "nbsp" then Some(' ' as nat)
    else None
  }

  /** An entity at the front of the text: its code point and its length. */
  function Entity(t: string): Option<(nat, nat)>
    requires t != []
  {
    match FindSemi(t, 1)
    case None => None
    case Some(e) =>
      if e < |t| && 1 <= e && CodePoint(t[1..e]).Some? then Some((CodePoint(t[1..e]).value, e + 1)) else None
  }

  lemma {:induction false} FindSemiFinds(t: string, e: nat)
    requires e <= 12
    ensures var r := FindSemi(t, e);
      && (r.Some? ==>
            && e <= r.value <= 11 && r.value < |t|
            && t[r.value] == ';' && forall k | e <= k < r.value :: t[k] != ';')
      && (r.None? ==> forall k | e <= k <= 11 && k < |t| :: t[k] != ';')
    decreases |t| - e
  {
    if e < |t| && e <= 11 && t[e] != ';' { FindSemiFinds(t, e + 1); }
  }

  lemma EntityLength(t: string)
    requires t != [] && Entity(t).Some?
    ensures 4 <= Entity(t).value.1 <= |t| && Entity(t).value.0 != 0
  {
    FindSemiFinds(t, 1);
  }

  /** The functional decoder: one pass over the original text; what an entity decodes to is never looked at again. */
  function Decode(t: string): string
    decreases |t|
  {
    if t == [] then ""
    else if t[0] != '&' || Entity(t).None? then [t[0]] + Decode(t[1..])
    else EntityLength(t); Encode(Entity(t).value.0) + Decode(t[Entity(t).value.1..])
  }

  /** The smallest such reference; it decodes to "A". */
  lemma TwoPrefixes()
    ensures Decode("&#x0x41;") == "A" && Plain("0x41", true) == None
  {
    var t := "&#x0x41;";
    var d := "0x41";
    assert d[2..] == "41" && Digit(d[2], true) && Digit(d[3], true);
    assert "41"[..1] == "4" && "4"[..0] == "";
    assert Number("41", true) == 65;
    assert Spelled(d, true) == Some(65);
    var body := "#x0x41";
    assert body[2..] == d;
    assert CodePoint(body) == Some(65);
    assert FindSemi(t, 7) == Some(7);
    assert FindSemi(t, 5) == Some(7);
    assert FindSemi(t, 3) == Some(7);
    assert FindSemi(t, 1) == Some(7);
    assert t[1..7] == body;
    assert Entity(t) == Some((65, 8));
    assert t[8..] == "";
    assert Decode("") == "";
    assert Encode(65) == "A";
  }

  /** Reading the digits of an accepted body never leaves 32 bits. */
  lemma NumberFits(d: string, hex: bool)
    requires Digits(d, hex) && |d| <= if hex then 8 else 9
    ensures Number(d, hex) < 0x1_0000_0000
  {
    Bound(d, hex);
    PowerGrows(hex, |d|, if hex then 8 else 9);
    PowerValues();
  }

  function Power(hex: bool, n: nat): nat {
    if n == 0 then 1 else (if hex then 16 else 10) * Power(hex, n - 1)
  }

  lemma PowerValues()
    ensures Power(true, 8) == 0x1_0000_0000 && Power(false, 9) == 1_000_000_000
  {
    assert Power(true, 2) == 0x100 && Power(true, 4) == 0x10000 && Power(true, 6) == 0x1000000;
    assert Power(false, 3) == 1_000 && Power(false, 5) == 100_000 && Power(false, 7) == 10_000_000;
  }

  lemma {:induction false} PowerGrows(hex: bool, m: nat, n: nat)
    requires m <= n
    ensures Power(hex, m) <= Power(hex, n)
    decreases n
  {
    if m < n { PowerGrows(hex, m, n - 1); }
  }

  lemma {:induction false} Bound(d: string, hex: bool)
    requires Digits(d, hex)
    ensures Number(d, hex) < Power(hex, |d|)
    decreases |d|
  {
    if d != [] { Bound(d[..|d| - 1], hex); }
  }

  lemma {:induction false} DecodeShrinks(t: string)
    ensures |Decode(t)| <= |t|
    decreases |t|
  {
    if t != [] {
      if t[0] != '&' || Entity(t).None? { DecodeShrinks(t[1..]); }
      else { EntityLength(t); DecodeShrinks(t[Entity(t).value.1..]); }
    }
  }

  lemma EncodeIsNulFree(cp: nat)
    requires cp != 0
    ensures NulFree(Encode(cp))
  {
  }

  lemma {:induction false} DecodeIsNulFree(t: string)
    requires NulFree(t)
    ensures NulFree(Decode(t))
    decreases |t|
  {
    if t != [] {
      if t[0] != '&' || Entity(t).None? { DecodeIsNulFree(t[1..]); }
      else { EntityLength(t); EncodeIsNulFree(Entity(t).value.0); DecodeIsNulFree(t[Entity(t).value.1..]); }
    }
  }

  // ---------------------------------------------------------------- UTF-8 in, UTF-8 out

  lemma EntityAscii(t: string)
    requires t != [] && t[0] == '&' && Entity(t).Some?
    ensures Entity(t).value.1 <= |t| && forall i | 0 <= i < Entity(t).value.1 :: Ascii(t[i])
  {
    FindSemiFinds(t, 1);
    var e := Entity(t).value.1 - 1;
    var body := t[1..e];
    BodyAscii(body);
    forall i | 0 <= i <= e ensures Ascii(t[i]) {
      if 0 < i < e { assert t[i] == body[i - 1]; }
    }
  }

  lemma BodyAscii(body: string)
    requires CodePoint(body).Some?
    ensures forall i | 0 <= i < |body| :: Ascii(body[i])
  {
    hide Number;
    if |body| >= 2 && body[0] == '#' {
      var hex := HexReference(body);
      var d := body[if hex then 2 else 1..];
      var rest := d[Prefix(d, hex)..];
      forall i | 0 <= i < |body| ensures Ascii(body[i]) {
        var k := i - (if hex then 2 else 1);
        if k >= Prefix(d, hex) { assert body[i] == rest[k - Prefix(d, hex)]; }
        else if k >= 0 { assert body[i] == d[k]; }
      }
    }
  }

  lemma {:induction false} CopyRun(t: string, n: nat)
    requires n <= |t| && forall i | 0 <= i < n :: t[i] != '&'
    ensures Decode(t) == t[..n] + Decode(t[n..])
    decreases n
  {
    hide Entity, Encode;
    if n == 0 {
      assert t[0..] == t;
    } else {
      CopyRun(t[1..], n - 1);
      assert t[1..][n - 1..] == t[n..];
      assert t[..n] == [t[0]] + t[1..][..n - 1];
      Assoc([t[0]], t[1..][..n - 1], Decode(t[n..]));
    }
  }

  lemma {:induction false} DecodeKeepsUtf8(t: string)
    requires Valid(t)
    ensures Valid(Decode(t))
    decreases |t|
  {
    hide Valid, OneChar, Entity;
    if t == [] {
      EmptyIsValid();
    } else if t[0] == '&' && Entity(t).Some? {
      EntityAscii(t);
      EntityLength(t);
      var k := Entity(t).value.1;
      DropAscii(t, k);
      DecodeKeepsUtf8(t[k..]);
      EncodeRoundTrip(Entity(t).value.0);
      if Encode(Entity(t).value.0) == "" { assert "" + Decode(t[k..]) == Decode(t[k..]); }
      else { Cons(Encode(Entity(t).value.0), Decode(t[k..])); }
    } else if t[0] == '&' {
      DropAscii(t, 1);
      DecodeKeepsUtf8(t[1..]);
      AsciiChar('&');
      Cons(['&'], Decode(t[1..]));
    } else {
      Uncons(t);
      var n := Width(t[0]);
      CharHasNoAmp(t[..n]);
      CopyRun(t, n);
      DecodeKeepsUtf8(t[n..]);
      Cons(t[..n], Decode(t[n..]));
    }
  }

  lemma AsciiChar(c: char)
    requires Ascii(c)
    ensures OneChar([c])
  {
  }

  lemma CharHasNoAmp(c: string)
    requires OneChar(c) && c[0] != '&'
    ensures forall i | 0 <= i < |c| :: c[i] != '&'
  {
    forall i | 1 <= i < |c| ensures c[i] != '&' { assert Continuation(c[i]); }
  }

  // ---------------------------------------------------------------- blanks

  /** What is drawn as tofu, and the space. */
  predicate Blank(c: char) {
    c as int < 0x20 || c as int == 0x7F || c == ' '
  }

  /** Length of the run of non-blank characters at the front. */
  function WordEnd(t: string): (k: nat)
    ensures k <= |t| && (forall i | 0 <= i < k :: !Blank(t[i])) && (k < |t| ==> Blank(t[k]))
  {
    if t == [] || Blank(t[0]) then 0 else 1 + WordEnd(t[1..])
  }

  function Words(t: string): seq<string>
    decreases |t|
  {
    if t == [] then []
    else if Blank(t[0]) then Words(t[1..])
    else [t[..WordEnd(t)]] + Words(t[WordEnd(t)..])
  }

  function Joined(ws: seq<string>): string {
    if ws == [] then "" else if |ws| == 1 then ws[0] else ws[0] + " " + Joined(ws[1..])
  }

  /** The words, one space apart. */
  function Tidy(t: string): string {
    Joined(Words(t))
  }

  /** What the second pass still writes for `u`, given its two flags. */
  function Rest(started: bool, pending: bool, u: string): string
    decreases |u|
  {
    if u == [] then ""
    else if Blank(u[0]) then Rest(started, true, u[1..])
    else (if pending && started then " " else "") + [u[0]] + Rest(true, false, u[1..])
  }

  lemma {:induction false} RestInWord(u: string)
    ensures Rest(true, false, u) == u[..WordEnd(u)] + Rest(true, true, u[WordEnd(u)..])
    decreases |u|
  {
    if u != [] && !Blank(u[0]) {
      RestInWord(u[1..]);
      var k := WordEnd(u[1..]);
      assert u[..k + 1] == [u[0]] + u[1..][..k] && u[k + 1..] == u[1..][k..];
    } else {
      assert u[0..] == u;
    }
  }

  /** From the first character of a word on, given what the blanks behind the word lead to. */
  lemma RestFromWord(u: string)
    requires u != [] && !Blank(u[0])
    requires var v := u[WordEnd(u)..]; Rest(true, true, v) == if Words(v) == [] then "" else " " + Tidy(v)
    ensures [u[0]] + Rest(true, false, u[1..]) == Tidy(u) && Words(u) != []
  {
    hide Rest, Blank, Words, WordEnd, Joined;
    var k := WordEnd(u);
    WordStep(u);
    WordSlices(u, k);
    RestInWord(u[1..]);
    JoinedStep(u[..k], Words(u[k..]));
    Glue([u[0]], u[1..k], Rest(true, true, u[k..]), u[..k], Rest(true, false, u[1..]));
  }

  lemma WordSlices(u: string, k: nat)
    requires 1 <= k <= |u|
    ensures u[1..][..k - 1] == u[1..k] && u[1..][k - 1..] == u[k..] && [u[0]] + u[1..k] == u[..k]
  {
  }

  lemma Glue(a: string, b: string, c: string, ab: string, bc: string)
    requires a + b == ab && b + c == bc
    ensures a + bc == ab + c
  {
    Assoc(a, b, c);
  }

  lemma WordStep(u: string)
    requires u != [] && !Blank(u[0])
    ensures var k := WordEnd(u); k == 1 + WordEnd(u[1..]) && Words(u) == [u[..k]] + Words(u[k..])
  {
  }

  lemma JoinedStep(w: string, ws: seq<string>)
    ensures Joined([w] + ws) == w + if ws == [] then "" else " " + Joined(ws)
  {
    assert ([w] + ws)[1..] == ws;
    if ws != [] { assert w + (" " + Joined(ws)) == w + " " + Joined(ws); } else { assert w + "" == w; }
  }

  lemma {:induction false} RestIsTidy(pending: bool, u: string)
    ensures Rest(false, pending, u) == Tidy(u)
    ensures Rest(true, true, u) == if Words(u) == [] then "" else " " + Tidy(u)
    decreases |u|
  {
    hide Blank, Tidy, Words, WordEnd, Rest;
    RestStep(false, pending, u); RestStep(true, true, u);
    if u == [] {
      NothingTidy();
    } else if Blank(u[0]) {
      RestIsTidy(true, u[1..]);
      BlankSkipped(u);
    } else {
      WordStep(u);
      RestIsTidy(true, u[WordEnd(u)..]);
      RestFromWord(u);
      var w := Rest(true, false, u[1..]);
      assert "" + [u[0]] + w == [u[0]] + w;
      assert " " + [u[0]] + w == " " + ([u[0]] + w);
    }
  }

  lemma RestStep(started: bool, pending: bool, u: string)
    ensures u == [] ==> Rest(started, pending, u) == ""
    ensures u != [] && Blank(u[0]) ==> Rest(started, pending, u) == Rest(started, true, u[1..])
    ensures u != [] && !Blank(u[0]) ==>
      Rest(started, pending, u) == (if pending && started then " " else "") + [u[0]] + Rest(true, false, u[1..])
  {
  }

  lemma NothingTidy()
    ensures Tidy("") == "" && Words("") == []
  {
  }

  lemma BlankSkipped(u: string)
    requires u != [] && Blank(u[0])
    ensures Words(u) == Words(u[1..]) && Tidy(u) == Tidy(u[1..])
  {
  }

  ghost predicate Word(w: string) {
    w != [] && forall i | 0 <= i < |w| :: !Blank(w[i])
  }

  lemma {:induction false} WordsAreWords(t: string)
    ensures forall w | w in Words(t) :: Word(w)
    decreases |t|
  {
    if t != [] {
      if Blank(t[0]) { WordsAreWords(t[1..]); } else { WordsAreWords(t[WordEnd(t)..]); }
    }
  }

  lemma WordThenSpace(w: string, rest: string)
    requires Word(w)
    ensures WordEnd(w + " " + rest) == |w| && WordEnd(w) == |w|
  {
    var u := w + " " + rest;
    assert forall i | 0 <= i < |w| :: u[i] == w[i];
    assert u[|w|] == ' ';
  }

  /** Splitting and joining are inverse: no word is lost, split, merged or reordered. */
  lemma {:induction false} WordsOfJoined(ws: seq<string>)
    requires forall w | w in ws :: Word(w)
    ensures Words(Joined(ws)) == ws
    decreases |ws|
  {
    if ws != [] {
      var w, rest := ws[0], Joined(ws[1..]);
      WordThenSpace(w, rest);
      if |ws| == 1 {
        assert w[..|w|] == w && w[|w|..] == [];
      } else {
        WordsOfJoined(ws[1..]);
        var u := w + " " + rest;
        assert u[0] == w[0] && u[..|w|] == w && u[|w|..] == " " + rest && (" " + rest)[1..] == rest;
      }
    }
  }

  /** The cleaned text has the same words, and cleaning it again changes nothing. */
  lemma TidyKeepsWords(t: string)
    ensures Words(Tidy(t)) == Words(t) && Tidy(Tidy(t)) == Tidy(t)
  {
    WordsAreWords(t);
    WordsOfJoined(Words(t));
  }

  /** No control byte, no DEL; spaces stand alone, and neither first nor last. */
  ghost predicate Drawable(s: string) {
    && (forall i | 0 <= i < |s| :: 0x20 <= s[i] as int && s[i] as int != 0x7F)
    && (s != [] ==> s[0] != ' ' && s[|s| - 1] != ' ')
    && forall i | 0 <= i < |s| - 1 :: s[i] != ' ' || s[i + 1] != ' '
  }

  lemma {:induction false} JoinedIsDrawable(ws: seq<string>)
    requires forall w | w in ws :: Word(w)
    ensures Drawable(Joined(ws)) && (ws != [] ==> Joined(ws) != [])
    decreases |ws|
  {
    if ws != [] { assert Word(ws[0]); }
    if |ws| > 1 {
      var w, rest := ws[0], Joined(ws[1..]);
      JoinedIsDrawable(ws[1..]);
      var u := w + " " + rest;
      forall i | 0 <= i < |u| ensures u[i] == ' ' || !Blank(u[i]) {
        if i > |w| { assert u[i] == rest[i - |w| - 1]; }
      }
      forall i | 0 <= i < |u| - 1 ensures u[i] != ' ' || u[i + 1] != ' ' {
        if i > |w| { assert u[i] == rest[i - |w| - 1] && u[i + 1] == rest[i - |w|]; }
        else if i == |w| { assert u[i + 1] == rest[0]; }
      }
      assert u[|u| - 1] == rest[|rest| - 1];
    }
  }

  lemma TidyIsDrawable(t: string)
    ensures Drawable(Tidy(t))
  {
    WordsAreWords(t);
    JoinedIsDrawable(Words(t));
  }

  lemma {:induction false} WordsAreUtf8(t: string)
    requires Valid(t)
    ensures forall w | w in Words(t) :: Valid(w)
    decreases |t|
  {
    hide Valid, OneChar;
    if t != [] {
      if Blank(t[0]) {
        DropAscii(t, 1);
        WordsAreUtf8(t[1..]);
      } else {
        var k := WordEnd(t);
        if k < |t| { SplitAtAscii(t, k); }
        else { assert t[..k] == t && t[k..] == []; EmptyIsValid(); }
        WordsAreUtf8(t[k..]);
      }
    }
  }

  lemma {:induction false} JoinedIsUtf8(ws: seq<string>)
    requires forall w | w in ws :: Valid(w)
    ensures Valid(Joined(ws))
    decreases |ws|
  {
    hide Valid, OneChar;
    EmptyIsValid();
    if |ws| > 1 {
      JoinedIsUtf8(ws[1..]);
      AsciiChar(' ');
      Cons(" ", Joined(ws[1..]));
      Concat(ws[0], " " + Joined(ws[1..]));
      assert ws[0] + " " + Joined(ws[1..]) == ws[0] + (" " + Joined(ws[1..]));
    }
  }

  /** Cleaning well-formed text gives well-formed text, fit to be drawn. */
  lemma CleanKeepsUtf8(t: string)
    requires Valid(t)
    ensures Valid(Tidy(Decode(t))) && Drawable(Tidy(Decode(t)))
  {
    DecodeKeepsUtf8(t);
    WordsAreUtf8(Decode(t));
    JoinedIsUtf8(Words(Decode(t)));
    TidyIsDrawable(Decode(t));
  }

  // ---------------------------------------------------------------- the program

  /** The array holds a C string of length `n`. */
  ghost predicate Terminated(s: seq<char>, n: nat) {
    n < |s| && s[n] == NUL && NulFree(s[..n])
  }

  lemma NoDigits(d: string, hex: bool)
    requires d == ""
    ensures Number(d, hex) == 0
  {
  }

  lemma NumberNext(d: string, c: char, hex: bool)
    requires Digits(d, hex) && Digit(c, hex)
    ensures Digits(d + [c], hex) && Number(d + [c], hex) == Number(d, hex) * (if hex then 16 else 10) + DigitValue(c)
  {
    assert (d + [c])[..|d|] == d;
  }

  /** `strtoul` from offset `from`, where a ';' ends the digits at the latest; the value stays below 2^32. */
  method Strtoul(s: array<char>, from: nat, end: nat, hex: bool) returns (value: nat, stop: nat)
    requires from <= end < s.Length && s[end] == ';' && end - from <= if hex then 8 else 9
    ensures from + Prefix(s[from..end], hex) <= stop <= end && Digits(s[from + Prefix(s[from..end], hex)..stop], hex)
    ensures stop < end ==> !Digit(s[stop], hex)
    ensures value == Number(s[from + Prefix(s[from..end], hex)..stop], hex) && value < 0x1_0000_0000
  {
    hide Number, DigitValue;
    var start := from;
    if hex && from + 2 < end && s[from] == '0' && LetterX(s[from + 1]) && Digit(s[from + 2], true) {
      start := from + 2;
    }
    assert start == from + Prefix(s[from..end], hex);
    stop, value := start, 0;
    NoDigits(s[start..start], hex);
    while stop < end && Digit(s[stop], hex)
      invariant start <= stop <= end && Digits(s[start..stop], hex) && value == Number(s[start..stop], hex)
      invariant value < 0x1_0000_0000
    {
      assert s[start..stop + 1] == s[start..stop] + [s[stop]];
      NumberNext(s[start..stop], s[stop], hex);
      value := value * (if hex then 16 else 10) + DigitValue(s[stop]);
      stop := stop + 1;
      NumberFits(s[start..stop], hex);
    }
  }

  /** The digits of a numeric reference, checked as the program checks them. */
  method ReadNumber(s: array<char>, from: nat, end: nat, hex: bool) returns (cp: Option<nat>)
    requires from <= end < s.Length && s[end] == ';' && end - from <= if hex then 8 else 9
    ensures cp == Spelled(s[from..end], hex)
  {
    ghost var d := s[from..end];
    if !Digit(s[from], hex) {
      return None;
    }
    var value, stop := Strtoul(s, from, end, hex);
    ghost var k := Prefix(d, hex);
    assert d[k..] == s[from + k..end];
    if stop != end {
      assert d[k..][stop - from - k] == s[stop];
      return None;
    }
    return if value == 0 then None else Some(value);
  }

  lemma FindSemiStep(t: string, e: nat)
    ensures FindSemi(t, e) == if e >= |t| || e > 11 then None else if t[e] == ';' then Some(e) else FindSemi(t, e + 1)
  {
  }

  lemma SubRange(s: seq<char>, i: nat, t: string, a: nat, b: nat)
    requires i + |t| <= |s| && s[i..i + |t|] == t && a <= b <= |t|
    ensures t[a..b] == s[i + a..i + b]
  {
    forall k | 0 <= k < b - a ensures t[a..b][k] == s[i + a..i + b][k] { assert s[i..i + |t|][a + k] == s[i + a + k]; }
  }

  /** A NUL among the bytes still to be read can only be the final one. */
  lemma AtEnd(s: seq<char>, text: string, i: nat)
    requires i <= |text| < |s| && s[i] == NUL && NulFree(text) && forall k | i <= k < |text| :: s[k] == text[k]
    ensures i == |text| && text[i..] == []
  {
  }

  /** The entity at offset `i`, if the text has one there. */
  method ReadEntity(s: array<char>, i: nat, ghost t: string) returns (entity: Option<(nat, nat)>)
    requires t != [] && i + |t| < s.Length && s[i..i + |t|] == t && s[i + |t|] == NUL && NulFree(t) && t[0] == '&'
    ensures entity == Entity(t)
  {
    hide CodePoint, FindSemi;
    var end := i + 1;
    while s[end] != NUL && s[end] != ';' && end - i <= 10
      invariant i < end <= i + |t| && end - i <= 11 && FindSemi(t, 1) == FindSemi(t, end - i)
      decreases i + |t| - end
    {
      assert t[end - i] == s[end];
      FindSemiStep(t, end - i);
      end := end + 1;
    }
    assert end < i + |t| ==> t[end - i] == s[end] && s[end] != NUL;
    FindSemiStep(t, end - i);
    FindSemiStep(t, end - i + 1);
    if s[end] != ';' {
      return None;
    }
    assert FindSemi(t, 1) == Some(end - i);
    ghost var body := t[1..end - i];
    SubRange(s[..], i, t, 1, end - i);
    var cp := ReadBody(s, i + 1, end);
    return if cp.None? then None else Some((cp.value, end + 1 - i));
  }

  method ReadBody(s: array<char>, from: nat, end: nat) returns (cp: Option<nat>)
    requires from <= end < s.Length && s[end] == ';' && end - from <= 10
    ensures cp == CodePoint(s[from..end])
  {
    ghost var body := s[from..end];
    if end - from >= 2 && s[from] == '#' {
      assert body[0] == s[from] && body[1] == s[from + 1];
      var hex := LetterX(s[from + 1]);
      if hex {
        assert body[2..] == s[from + 2..end];
        cp := ReadNumber(s, from + 2, end, true);
      } else {
        assert body[1..] == s[from + 1..end];
        cp := ReadNumber(s, from + 1, end, false);
      }
    } else {
      cp := NamedEntity(s[from..end]);
    }
  }

  /** The chain of `strncmp` calls on a body that is no numeric reference. */
  method NamedEntity(body: string) returns (cp: Option<nat>)
    ensures !(|body| >= 2 && body[0] == '#') ==> cp == CodePoint(body)
  {
    if body == "quot" { return Some('"' as nat); }
    if body == "amp" { return Some('&' as nat); }
    if body == "lt" { return Some('<' as nat); }
    if body == "gt" { return Some('>' as nat); }
    if body == "apos" { return Some('\'' as nat); }
    if body == "nbsp" { return Some(' ' as nat); }
    return None;
  }

  /** `jw__utf8_put` */
  method PutUtf8(s: array<char>, at: nat, cp: nat) returns (n: nat)
    requires at + |Encode(cp)| <= s.Length
    modifies s
    ensures n == |Encode(cp)| && forall j | 0 <= j < n :: s[at + j] == Encode(cp)[j]
    ensures forall j | 0 <= j < s.Length && !(at <= j < at + n) :: s[j] == old(s[j])
  {
    hide Encode;
    var bytes := Encode(cp);
    n := |bytes|;
    for k := 0 to n
      invariant forall j | 0 <= j < k :: s[at + j] == bytes[j]
      invariant forall j | 0 <= j < s.Length && !(at <= j < at + k) :: s[j] == old(s[j])
    {
      s[at + k] := bytes[k];
    }
  }

  lemma DecodeStep(text: string, i: nat)
    requires i < |text|
    ensures text[i] != '&' || Entity(text[i..]).None? ==> Decode(text[i..]) == [text[i]] + Decode(text[i + 1..])
    ensures text[i] == '&' && Entity(text[i..]).Some? ==>
      && 4 <= Entity(text[i..]).value.1 <= |text| - i
      && Decode(text[i..]) == Encode(Entity(text[i..]).value.0) + Decode(text[i + Entity(text[i..]).value.1..])
  {
    hide Entity, Encode;
    var u := text[i..];
    assert u[1..] == text[i + 1..];
    if text[i] == '&' && Entity(u).Some? {
      EntityLength(u);
      assert u[Entity(u).value.1..] == text[i + Entity(u).value.1..];
    }
  }

  lemma Appended(before: seq<char>, after: seq<char>, w: nat, bytes: seq<char>)
    requires w + |bytes| <= |before| == |after|
    requires (forall j | 0 <= j < w :: after[j] == before[j]) && forall j | 0 <= j < |bytes| :: after[w + j] == bytes[j]
    ensures after[..w + |bytes|] == before[..w] + bytes
  {
  }

  /**
   * Between two steps of the first pass. The write cursor never passes the read cursor, so what is read is still the
   * original text.
   */
  ghost predicate Decoding(s: seq<char>, text: string, w: nat, i: nat) {
    && w <= i <= |text| < |s| && s[|text|] == NUL && (forall k | i <= k < |text| :: s[k] == text[k])
    && s[..w] + Decode(text[i..]) == Decode(text)
  }

  lemma DecodingCopies(before: seq<char>, after: seq<char>, text: string, w: nat, i: nat)
    requires Decoding(before, text, w, i) && i < |text| && (text[i] != '&' || Entity(text[i..]).None?)
    requires after == before[w := before[i]]
    ensures Decoding(after, text, w + 1, i + 1)
  {
    hide Entity, Decode;
    DecodeStep(text, i);
    Appended(before, after, w, [before[i]]);
    Assoc(before[..w], [before[i]], Decode(text[i + 1..]));
  }

  lemma DecodingPuts(before: seq<char>, after: seq<char>, text: string, w: nat, i: nat, cp: nat, len: nat)
    requires Decoding(before, text, w, i) && i < |text| && text[i] == '&' && Entity(text[i..]) == Some((cp, len))
    requires |after| == |before|
    requires forall j | 0 <= j < |before| && !(w <= j < w + |Encode(cp)|) :: after[j] == before[j]
    requires w + |Encode(cp)| <= |after| && forall j | 0 <= j < |Encode(cp)| :: after[w + j] == Encode(cp)[j]
    ensures i + len <= |text| && Decoding(after, text, w + |Encode(cp)|, i + len)
  {
    hide Entity, Decode, Encode;
    DecodeStep(text, i);
    Appended(before, after, w, Encode(cp));
    Assoc(before[..w], Encode(cp), Decode(text[i + len..]));
  }

  /** One step of the first pass. */
  method DecodeOne(s: array<char>, ghost text: string, w: nat, i: nat) returns (w': nat, i': nat)
    requires Decoding(s[..], text, w, i) && i < |text| && NulFree(text)
    modifies s
    ensures Decoding(s[..], text, w', i') && i < i'
    ensures forall j | |text| < j < s.Length :: s[j] == old(s[j])
  {
    hide Entity, Encode, Decode;
    var entity: Option<(nat, nat)> := None;
    ghost var rest, before := text[i..], s[..];
    if s[i] == '&' {
      assert s[i..i + |rest|] == rest;
      entity := ReadEntity(s, i, rest);
    }
    if entity.None? {
      s[w] := s[i];
      DecodingCopies(before, s[..], text, w, i);
      return w + 1, i + 1;
    }
    EntityLength(rest);
    var k := PutUtf8(s, w, entity.value.0);
    DecodingPuts(before, s[..], text, w, i, entity.value.0, entity.value.1);
    return w + k, i + entity.value.1;
  }

  /** First pass. */
  method DecodeInPlace(s: array<char>, ghost text: string) returns (w: nat)
    requires |text| < s.Length && s[..|text|] == text && s[|text|] == NUL && NulFree(text)
    modifies s
    ensures w <= |text| && s[w] == NUL && s[..w] == Decode(text) && NulFree(s[..w])
    ensures forall j | |text| < j < s.Length :: s[j] == old(s[j])
  {
    hide Decode;
    w := 0;
    var i := 0;
    assert text[0..] == text && s[..0] + Decode(text) == Decode(text);
    while s[i] != NUL
      invariant Decoding(s[..], text, w, i)
      invariant forall j | |text| < j < s.Length :: s[j] == old(s[j])
      decreases |text| - i
    {
      w, i := DecodeOne(s, text, w, i);
    }
    AtEnd(s[..], text, i);
    DecodeNothing();
    assert s[..][..w] + "" == s[..w];
    DecodeIsNulFree(text);
    ghost var before := s[..];
    s[w] := NUL;
    assert s[..w] == before[..w];
  }

  lemma DecodeNothing()
    ensures Decode("") == ""
  {
  }

  /** Between two steps of the second pass. */
  ghost predicate Tidying(s: seq<char>, text: string, out: nat, i: nat, started: bool, pending: bool) {
    && out + (if pending && started then 1 else 0) <= i <= |text| < |s| && s[|text|] == NUL
    && (forall k | i <= k < |text| :: s[k] == text[k])
    && s[..out] + Rest(started, pending, text[i..]) == Tidy(text)
  }

  lemma TidyingSkips(s: seq<char>, text: string, out: nat, i: nat, started: bool, pending: bool)
    requires Tidying(s, text, out, i, started, pending) && i < |text| && Blank(text[i])
    ensures Tidying(s, text, out, i + 1, started, true)
  {
    hide Tidy, Blank;
    assert text[i..][1..] == text[i + 1..];
  }

  lemma TidyingCopies(before: seq<char>, after: seq<char>, text: string, out: nat, i: nat, started: bool, pending: bool,
                      gap: string)
    requires Tidying(before, text, out, i, started, pending) && i < |text| && !Blank(text[i])
    requires gap == if pending && started then " " else ""
    requires after == if gap == "" then before[out := text[i]] else before[out := ' '][out + 1 := text[i]]
    ensures Tidying(after, text, out + |gap| + 1, i + 1, true, false)
  {
    hide Tidy, Blank;
    assert text[i..][1..] == text[i + 1..];
    var rest := Rest(true, false, text[i + 1..]);
    Appended(before, after, out, gap + [text[i]]);
    Assoc(before[..out], gap + [text[i]], rest);
  }

  lemma TidyingStarts(s: seq<char>, text: string)
    requires |text| < |s| && s[..|text|] == text && s[|text|] == NUL
    ensures Tidying(s, text, 0, 0, false, false)
  {
    hide Tidy;
    RestIsTidy(false, text);
    assert text[0..] == text && s[..0] + Rest(false, false, text) == Tidy(text);
  }

  lemma TidyingFacts(s: seq<char>, text: string, out: nat, i: nat, started: bool, pending: bool)
    requires Tidying(s, text, out, i, started, pending)
    ensures out + (if pending && started then 1 else 0) <= i <= |text| < |s|
    ensures s[i] == if i < |text| then text[i] else NUL
  {
    hide Tidy, Rest;
  }

  lemma TidyingEnds(s: seq<char>, text: string, out: nat, i: nat, started: bool, pending: bool)
    requires Tidying(s, text, out, i, started, pending) && s[i] == NUL && NulFree(text)
    ensures out <= i == |text| && s[..out] == Tidy(text)
  {
    hide Tidy;
    AtEnd(s, text, i);
    assert s[..out] + "" == s[..out];
  }

  /** Second pass, over what the first one left. */
  method TidyInPlace(s: array<char>, ghost text: string) returns (out: nat)
    requires |text| < s.Length && s[..|text|] == text && s[|text|] == NUL && NulFree(text)
    modifies s
    ensures out <= |text| && s[out] == NUL && s[..out] == Tidy(text)
    ensures forall j | |text| < j < s.Length :: s[j] == old(s[j])
  {
    hide Tidy, Blank, Rest, Tidying;
    out := 0;
    var pending, started := false, false;
    var i := 0;
    RestIsTidy(false, text);
    TidyingStarts(s[..], text);
    TidyingFacts(s[..], text, out, i, started, pending);
    while s[i] != NUL
      invariant i <= |text| && Tidying(s[..], text, out, i, started, pending)
      invariant forall j | |text| < j < s.Length :: s[j] == old(s[j])
      decreases |text| - i
    {
      TidyingFacts(s[..], text, out, i, started, pending);
      var c := s[i];
      if Blank(c) {
        TidyingSkips(s[..], text, out, i, started, pending);
        i, pending := i + 1, true;
        continue;
      }
      ghost var before, gap := s[..], if pending && started then " " else "";
      ghost var at := out;
      if pending && started {
        s[out] := ' ';
        out := out + 1;
      }
      s[out] := c;
      out := out + 1;
      TidyingCopies(before, s[..], text, at, i, started, pending, gap);
      i, pending, started := i + 1, false, true;
    }
    TidyingEnds(s[..], text, out, i, started, pending);
    ghost var before := s[..];
    s[out] := NUL;
    assert s[..out] == before[..out];
  }

  /** jw_clean_scraped_text: the string in the buffer becomes its cleaned form, which is never longer. */
  method CleanScrapedText(s: array<char>, ghost n: nat)
    requires Terminated(s[..], n)
    modifies s
    ensures CString(s[..]) == Tidy(Decode(CString(old(s[..])))) && |CString(s[..])| <= n
    ensures forall j | n < j < s.Length :: s[j] == old(s[j])
  {
    CStringEnds(s[..], n);
    ghost var text := s[..n];
    var w := DecodeInPlace(s, text);
    ghost var decoded := s[..w];
    var out := TidyInPlace(s, decoded);
    TidyIsNulFree(decoded);
    CStringEnds(s[..], out);
  }

  lemma TidyIsNulFree(t: string)
    ensures NulFree(Tidy(t))
  {
    TidyIsDrawable(t);
  }
}
