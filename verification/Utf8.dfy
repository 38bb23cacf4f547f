/** Well-formed UTF-8 (section 3 and 4 of RFC 3629) over strings whose characters are bytes. */
module Utf8 {

  predicate Continuation(c: char) {
    0x80 <= c as int <= 0xBF
  }

  /** Bytes in the character that starts with `c`; 0 if none does. */
  function Width(c: char): (n: nat)
    ensures n <= 4
  {
    var b := c as int;
    if b < 0x80 then 1
    else if 0xC2 <= b <= 0xDF then 2
    else if 0xE0 <= b <= 0xEF then 3
    else if 0xF0 <= b <= 0xF4 then 4
    else 0
  }

  /** The shortest forms of the scalar values only: no overlong sequence, no surrogate, nothing above U+10FFFF. */
  predicate OneChar(s: string) {
    && s != [] && |s| == Width(s[0])
    && (forall i | 1 <= i < |s| :: Continuation(s[i]))
    && (s[0] as int == 0xE0 ==> s[1] as int >= 0xA0)
    && (s[0] as int == 0xED ==> s[1] as int <= 0x9F)
    && (s[0] as int == 0xF0 ==> s[1] as int >= 0x90)
    && (s[0] as int == 0xF4 ==> s[1] as int <= 0x8F)
  }

  predicate Valid(s: string)
    decreases |s|
  {
    s == [] || (1 <= Width(s[0]) <= |s| && OneChar(s[..Width(s[0])]) && Valid(s[Width(s[0])..]))
  }

  predicate Scalar(cp: nat) {
    cp <= 0x10FFFF && !(0xD800 <= cp <= 0xDFFF)
  }

  /** The shift-and-mask encoder, in arithmetic: `>> 6` is `/ 64`, `& 0x3F` is `% 64`. */
  function Encode(cp: nat): (s: string)
    ensures |s| <= 4
  {
    if cp < 0x80 then [cp as char]
    else if cp < 0x800 then [(0xC0 + cp / 64) as char, (0x80 + cp % 64) as char]
    else if cp < 0x10000 then
      if 0xD800 <= cp <= 0xDFFF then ""
      else [(0xE0 + cp / 64 / 64) as char, (0x80 + cp / 64 % 64) as char, (0x80 + cp % 64) as char]
    else if cp <= 0x10FFFF then
      [(0xF0 + cp / 64 / 64 / 64) as char, (0x80 + cp / 64 / 64 % 64) as char,
        (0x80 + cp / 64 % 64) as char, (0x80 + cp % 64) as char]
    else ""
  }

  /** The value of one encoded character. */
  function Value(s: string): nat
    requires OneChar(s)
  {
    var b := s[0] as int;
    if |s| == 1 then b
    else if |s| == 2 then (b - 0xC0) * 64 + (s[1] as int - 0x80)
    else if |s| == 3 then (b - 0xE0) * 4096 + (s[1] as int - 0x80) * 64 + (s[2] as int - 0x80)
    else (b - 0xF0) * 262144 + (s[1] as int - 0x80) * 4096 + (s[2] as int - 0x80) * 64 + (s[3] as int - 0x80)
  }

  lemma OneByte(cp: nat)
    requires cp < 0x80
    ensures OneChar([cp as char]) && Value([cp as char]) == cp
  {
  }

  lemma TwoBytes(a: nat, b: nat)
    requires 2 <= a < 32 && b < 64
    ensures var s := [(0xC0 + a) as char, (0x80 + b) as char]; OneChar(s) && Value(s) == a * 64 + b
  {
  }

  lemma ThreeBytes(a: nat, b: nat, c: nat)
    requires a < 16 && b < 64 && c < 64 && (a == 0 ==> b >= 32) && (a == 13 ==> b < 32)
    ensures var s := [(0xE0 + a) as char, (0x80 + b) as char, (0x80 + c) as char];
      OneChar(s) && Value(s) == a * 4096 + b * 64 + c
  {
  }

  lemma FourBytes(a: nat, b: nat, c: nat, d: nat)
    requires a < 5 && b < 64 && c < 64 && d < 64 && (a == 0 ==> b >= 16) && (a == 4 ==> b < 16)
    ensures var s := [(0xF0 + a) as char, (0x80 + b) as char, (0x80 + c) as char, (0x80 + d) as char];
      OneChar(s) && Value(s) == a * 262144 + b * 4096 + c * 64 + d
  {
  }

  /** Scalar values and characters correspond one to one; anything else encodes to nothing. */
  lemma EncodeRoundTrip(cp: nat)
    ensures Scalar(cp) ==> OneChar(Encode(cp)) && Value(Encode(cp)) == cp
    ensures !Scalar(cp) ==> Encode(cp) == ""
  {
    hide OneChar, Value;
    var x, y, z := cp / 64, cp / 64 / 64, cp / 64 / 64 / 64;
    assert cp == x * 64 + cp % 64 && x == y * 64 + x % 64 && y == z * 64 + y % 64;
    if cp < 0x80 { OneByte(cp); }
    else if cp < 0x800 { TwoBytes(x, cp % 64); }
    else if cp < 0x10000 { if Scalar(cp) { ThreeBytes(y, x % 64, cp % 64); } }
    else if cp <= 0x10FFFF { FourBytes(z, y % 64, x % 64, cp % 64); }
  }

  /** Every character is the encoding of the value it stands for. */
  lemma ValueRoundTrip(s: string)
    requires OneChar(s)
    ensures Scalar(Value(s)) && Encode(Value(s)) == s
  {
    match |s| {
      case 1 => assert s == [s[0]];
      case 2 => ValueOfTwo(s);
      case 3 => ValueOfThree(s);
      case _ => ValueOfFour(s);
    }
  }

  lemma ValueOfTwo(s: string)
    requires OneChar(s) && |s| == 2
    ensures Scalar(Value(s)) && Encode(Value(s)) == s
  {
    var a, b := s[0] as int - 0xC0, s[1] as int - 0x80;
    assert Continuation(s[1]) && s == [s[0], s[1]];
    assert Value(s) / 64 == a && Value(s) % 64 == b;
  }

  lemma ValueOfThree(s: string)
    requires OneChar(s) && |s| == 3
    ensures Scalar(Value(s)) && Encode(Value(s)) == s
  {
    var a, b, c := s[0] as int - 0xE0, s[1] as int - 0x80, s[2] as int - 0x80;
    assert Continuation(s[1]) && Continuation(s[2]) && s == [s[0], s[1], s[2]];
    assert Value(s) / 64 == a * 64 + b && Value(s) % 64 == c;
    assert (a * 64 + b) / 64 == a && (a * 64 + b) % 64 == b;
  }

  lemma ValueOfFour(s: string)
    requires OneChar(s) && |s| == 4
    ensures Scalar(Value(s)) && Encode(Value(s)) == s
  {
    var a, b, c, d := s[0] as int - 0xF0, s[1] as int - 0x80, s[2] as int - 0x80, s[3] as int - 0x80;
    assert Continuation(s[1]) && Continuation(s[2]) && Continuation(s[3]) && s == [s[0], s[1], s[2], s[3]];
    assert Value(s) / 64 == (a * 64 + b) * 64 + c && Value(s) % 64 == d;
    assert ((a * 64 + b) * 64 + c) / 64 == a * 64 + b && ((a * 64 + b) * 64 + c) % 64 == c;
    assert (a * 64 + b) / 64 == a && (a * 64 + b) % 64 == b;
  }

  /** Putting a character in front, and taking it off again. */
  lemma Cons(c: string, rest: string)
    requires OneChar(c)
    ensures Valid(c + rest) <==> Valid(rest)
  {
    StartsWith(c, rest);
  }

  lemma StartsWith(c: string, rest: string)
    requires c != []
    ensures (c + rest)[..|c|] == c && (c + rest)[|c|..] == rest && (c + rest)[0] == c[0]
  {
  }

  /** The first character of a valid text, and the rest. */
  lemma Uncons(s: string)
    requires Valid(s) && s != []
    ensures var n := Width(s[0]); 1 <= n <= |s| && OneChar(s[..n]) && Valid(s[n..]) && s == s[..n] + s[n..]
  {
    hide OneChar, Width;
  }

  lemma {:induction false} Concat(a: string, b: string)
    requires Valid(a) && Valid(b)
    ensures Valid(a + b)
    decreases |a|
  {
    hide Valid, OneChar, Width;
    if a == [] {
      assert a + b == b;
    } else {
      Uncons(a);
      var n := Width(a[0]);
      Concat(a[n..], b);
      Cons(a[..n], a[n..] + b);
      assert a + b == a[..n] + (a[n..] + b);
    }
  }

  predicate Ascii(c: char) {
    c as int < 0x80
  }

  /** Leading single-byte characters can be dropped. */
  lemma {:induction false} DropAscii(s: string, k: nat)
    requires Valid(s) && k <= |s| && forall i | 0 <= i < k :: Ascii(s[i])
    ensures Valid(s[k..])
    decreases k
  {
    if k > 0 {
      DropAscii(s[1..], k - 1);
      assert s[1..][k - 1..] == s[k..];
    } else {
      assert s[0..] == s;
    }
  }

  /** Inside a character there is no ASCII byte. */
  lemma NoAsciiInside(s: string, k: nat)
    requires Valid(s) && 0 < k < |s| && Ascii(s[k])
    ensures Width(s[0]) <= k
  {
    forall i | 1 <= i < Width(s[0]) ensures Continuation(s[i]) { assert s[..Width(s[0])][i] == s[i]; }
  }

  /** An ASCII byte stands at a character boundary: what is before it and what is after it are valid. */
  lemma {:induction false} SplitAtAscii(s: string, k: nat)
    requires Valid(s) && k < |s| && Ascii(s[k])
    ensures Valid(s[..k]) && Valid(s[k..]) && Valid(s[k + 1..])
    decreases |s|
  {
    hide OneChar, Valid;
    if k == 0 {
      assert s[0..] == s;
      DropAscii(s, 1);
      EmptyIsValid();
    } else {
      Uncons(s);
      NoAsciiInside(s, k);
      var n := Width(s[0]);
      SplitAtAscii(s[n..], k - n);
      assert s[n..][..k - n] == s[n..k] && s[n..][k - n..] == s[k..] && s[n..][k - n + 1..] == s[k + 1..];
      assert s[..k] == s[..n] + s[n..k];
      Cons(s[..n], s[n..k]);
    }
  }

  lemma EmptyIsValid()
    ensures Valid("")
  {
  }
}
