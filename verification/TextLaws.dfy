/** What cleaning does to a text, in the text itself: which entity becomes which character, and what is kept. */
module TextLaws {
  import opened Wrappers
  import opened CStrings
  import opened Utf8
  import opened ScrapedText

  // ---------------------------------------------------------------- entities

  lemma {:induction false} SemiAt(s: string, e: nat, k: nat)
    requires e <= k < |s| && k <= 11 && s[k] == ';' && forall i | e <= i < k :: s[i] != ';'
    ensures FindSemi(s, e) == Some(k)
    decreases k - e
  {
    if e < k { SemiAt(s, e + 1, k); }
  }

  /**
   * An ampersand, up to ten bytes without a semicolon, and a semicolon: an entity, or an ampersand that stands for
   * itself.
   */
  lemma EntityDecodes(body: string, t: string)
    requires ';' !in body && |body| <= 10
    ensures Decode("&" + body + ";" + t) ==
      if CodePoint(body).Some? then Encode(CodePoint(body).value) + Decode(t) else "&" + Decode(body + ";" + t)
  {
    hide CodePoint, Encode;
    var s := "&" + body + ";" + t;
    assert s[0] == '&' && s[|body| + 1] == ';' && s[1..|body| + 1] == body && s[|body| + 2..] == t;
    assert forall i | 1 <= i < |body| + 1 :: s[i] == body[i - 1];
    SemiAt(s, 1, |body| + 1);
    assert s[1..] == body + ";" + t;
  }

  /** Without a semicolon among the eleven bytes behind it, an ampersand stands for itself. */
  lemma TooLongStays(t: string)
    requires forall i | 0 <= i < 11 && i < |t| :: t[i] != ';'
    ensures Decode("&" + t) == "&" + Decode(t)
  {
    hide FindSemi, CodePoint, Encode;
    var s := "&" + t;
    assert s[0] == '&' && s[1..] == t;
    forall k | 1 <= k <= 11 && k < |s| ensures s[k] != ';' { assert s[k] == t[k - 1]; }
    NoSemi(s, 1);
  }

  lemma {:induction false} NoSemi(s: string, e: nat)
    requires forall k | e <= k <= 11 && k < |s| :: s[k] != ';'
    ensures FindSemi(s, e) == None
    decreases 12 - e
  {
    if e < |s| && e <= 11 { NoSemi(s, e + 1); }
  }

  /** The six named entities. */
  lemma NamedEntities(t: string)
    ensures Decode("&quot;" + t) == "\"" + Decode(t) && Decode("&amp;" + t) == "&" + Decode(t)
    ensures Decode("&lt;" + t) == "<" + Decode(t) && Decode("&gt;" + t) == ">" + Decode(t)
    ensures Decode("&apos;" + t) == "'" + Decode(t) && Decode("&nbsp;" + t) == " " + Decode(t)
  {
    hide Decode, Spelled;
    assert "&" + "quot" + ";" == "&quot;" && "&" + "amp" + ";" == "&amp;" && "&" + "lt" + ";" == "&lt;";
    assert "&" + "gt" + ";" == "&gt;" && "&" + "apos" + ";" == "&apos;" && "&" + "nbsp" + ";" == "&nbsp;";
    OneNamed("quot", '"', t); OneNamed("amp", '&', t); OneNamed("lt", '<', t);
    OneNamed("gt", '>', t); OneNamed("apos", '\'', t); OneNamed("nbsp", ' ', t);
  }

  lemma OneNamed(name: string, c: char, t: string)
    requires (name, c) in {("quot", '"'), ("amp", '&'), ("lt", '<'), ("gt", '>'), ("apos", '\''), ("nbsp", ' ')}
    ensures Decode("&" + name + ";" + t) == [c] + Decode(t)
  {
    hide Decode, Spelled;
    assert "quot"[0] == 'q' && "amp"[0] == 'a' && "lt"[0] == 'l'
      && "gt"[0] == 'g' && "apos"[0] == 'a' && "nbsp"[0] == 'n';
    assert |"amp"| == 3 && |"apos"| == 4;
    assert ';' !in name && |name| <= 4 && name[0] != '#';
    EntityDecodes(name, t);
    assert Encode(c as nat) == [c];
  }

  /** A name that is none of these stays. */
  lemma OtherNamesStay(name: string, t: string)
    requires ';' !in name && |name| <= 10 && (name == "" || name[0] != '#' || |name| == 1)
    requires name !in {"quot", "amp", "lt", "gt", "apos", "nbsp"}
    ensures Decode("&" + name + ";" + t) == "&" + Decode(name + ";" + t)
  {
    hide Decode;
    EntityDecodes(name, t);
  }

  lemma {:induction false} DecimalReads(n: nat)
    ensures Decimal(n) != "" && Digits(Decimal(n), false) && Number(Decimal(n), false) == n
    ensures forall i | 0 <= i < |Decimal(n)| :: '0' <= Decimal(n)[i] <= '9'
    decreases n
  {
    if n >= 10 {
      DecimalReads(n / 10);
      var s := Decimal(n);
      assert s[..|s| - 1] == Decimal(n / 10);
    } else {
      var s := Decimal(n);
      assert s[..0] == "";
    }
  }

  function HexDigitOf(n: nat): char
    requires n < 16
  {
    if n < 10 then ('0' as int + n) as char else ('a' as int + n - 10) as char
  }

  function Hexadecimal(n: nat): string {
    if n < 16 then [HexDigitOf(n)] else Hexadecimal(n / 16) + [HexDigitOf(n % 16)]
  }

  lemma {:induction false} HexadecimalReads(n: nat)
    ensures var s := Hexadecimal(n); s != "" && Digits(s, true) && Number(s, true) == n
    ensures forall i | 0 <= i < |Hexadecimal(n)| :: Digit(Hexadecimal(n)[i], true)
    decreases n
  {
    var s := Hexadecimal(n);
    if n >= 16 {
      HexadecimalReads(n / 16);
      assert s[..|s| - 1] == Hexadecimal(n / 16);
    } else {
      assert s[..0] == "";
    }
  }

  /** A decimal reference becomes the character of that number. */
  lemma DecimalReference(n: nat, t: string)
    requires n > 0 && |Decimal(n)| <= 9
    ensures Decode("&#" + Decimal(n) + ";" + t) == Encode(n) + Decode(t)
  {
    hide Decode, Number, Decimal, CodePoint, Digits;
    var d := Decimal(n);
    DecimalReads(n);
    DecimalBody(d);
    EntityDecodes("#" + d, t);
    assert "&" + ("#" + d) == "&#" + d;
  }

  lemma DecimalBody(d: string)
    requires d != "" && Digits(d, false) && Number(d, false) > 0
    ensures CodePoint("#" + d) == Some(Number(d, false)) && ';' !in "#" + d
  {
    hide Number;
    var body := "#" + d;
    assert body[0] == '#' && body[1] == d[0] && body[1..] == d && d[0..] == d;
    forall i | 0 <= i < |body| ensures body[i] != ';' {
      if i > 0 { assert body[i] == d[i - 1]; }
    }
  }

  /** A hexadecimal reference, with a small or a capital x. */
  lemma HexadecimalReference(n: nat, x: char, t: string)
    requires n > 0 && |Hexadecimal(n)| <= 8 && (x == 'x' || x == 'X')
    ensures Decode("&#" + [x] + Hexadecimal(n) + ";" + t) == Encode(n) + Decode(t)
  {
    hide Decode, Number, Hexadecimal, CodePoint, Digits;
    var d := Hexadecimal(n);
    HexadecimalReads(n);
    HexadecimalBody(d, x);
    EntityDecodes("#" + [x] + d, t);
    assert "&" + ("#" + [x] + d) == "&#" + [x] + d;
  }

  lemma HexadecimalBody(d: string, x: char)
    requires d != "" && Digits(d, true) && Number(d, true) > 0 && (x == 'x' || x == 'X')
    ensures CodePoint("#" + [x] + d) == Some(Number(d, true)) && ';' !in "#" + [x] + d
  {
    hide Number;
    var body := "#" + [x] + d;
    assert body[0] == '#' && body[1] == x && body[2..] == d && d[0..] == d;
    assert |d| >= 2 ==> Digit(d[1], true);
    forall i | 0 <= i < |body| ensures body[i] != ';' {
      if i > 1 { assert body[i] == d[i - 2]; }
    }
  }

  /** Text without an ampersand stays as it is. */
  lemma {:induction false} PlainStays(s: string, t: string)
    requires '&' !in s
    ensures Decode(s + t) == s + Decode(t)
    decreases |s|
  {
    if s == "" {
      assert s + t == t;
    } else {
      assert (s + t)[0] == s[0] && (s + t)[1..] == s[1..] + t;
      PlainStays(s[1..], t);
      Assoc([s[0]], s[1..], Decode(t));
      assert s == [s[0]] + s[1..];
    }
  }

  // ---------------------------------------------------------------- blanks

  /** The bytes that are neither control bytes, DEL nor spaces. */
  function Visible(s: string): string {
    if s == "" then ""
    else (if 0x20 < s[0] as int && s[0] as int != 0x7F then [s[0]] else "") + Visible(s[1..])
  }

  lemma {:induction false} VisibleAppend(a: string, b: string)
    ensures Visible(a + b) == Visible(a) + Visible(b)
    decreases |a|
  {
    if a == "" {
      assert a + b == b;
    } else {
      assert (a + b)[0] == a[0] && (a + b)[1..] == a[1..] + b;
      VisibleAppend(a[1..], b);
      Assoc(Visible([a[0]]), Visible(a[1..]), Visible(b));
    }
  }

  lemma {:induction false} VisibleJoined(ws: seq<string>)
    ensures Visible(Joined(ws)) == AllVisible(ws)
    decreases |ws|
  {
    if |ws| == 1 {
      assert ws[1..] == [];
      assert Visible(ws[0]) + "" == Visible(ws[0]);
    } else if |ws| > 1 {
      VisibleJoined(ws[1..]);
      VisibleAppend(ws[0] + " ", Joined(ws[1..]));
      VisibleAppend(ws[0], " ");
      assert Visible(" ") == "" by { assert " "[1..] == ""; }
      assert Visible(ws[0]) + "" == Visible(ws[0]);
    }
  }

  function AllVisible(ws: seq<string>): string {
    if ws == [] then "" else Visible(ws[0]) + AllVisible(ws[1..])
  }

  lemma {:induction false} VisibleWords(t: string)
    ensures Visible(t) == AllVisible(Words(t))
    decreases |t|
  {
    if t != "" {
      if Blank(t[0]) {
        VisibleWords(t[1..]);
        assert "" + Visible(t[1..]) == Visible(t[1..]);
      } else {
        var k := WordEnd(t);
        VisibleWords(t[k..]);
        assert t == t[..k] + t[k..];
        VisibleAppend(t[..k], t[k..]);
        assert Words(t)[1..] == Words(t[k..]);
      }
    }
  }

  /** Tidying loses no visible byte and moves none. */
  lemma VisibleKept(t: string)
    ensures Visible(Tidy(t)) == Visible(t)
  {
    VisibleWords(t);
    VisibleJoined(Words(t));
  }
}
