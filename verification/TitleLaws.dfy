/** The listing order in the names themselves: numbers by size, letters without case, the rest by byte. */
module TitleLaws {
  import opened CStrings
  import opened Sorting
  import opened TitleOrder

  /** A digit run does not go on from `p` into `x`. */
  predicate Apart(p: string, x: string) {
    p == "" || x == "" || !('0' <= p[|p| - 1] <= '9' && '0' <= x[0] <= '9')
  }

  lemma RunWithin(p: string, x: string)
    requires p != "" && Apart(p, x)
    ensures RunLength(p + x) == RunLength(p)
    decreases |p|
  {
    var n := RunLength(p);
    var s := p + x;
    forall k | 0 <= k < n ensures IsDigit(s[k]) { assert s[k] == p[k]; }
    if n < |s| {
      assert s[n] == if n < |p| then p[n] else x[0];
      if n == |p| { assert IsDigit(p[n - 1]); }
    }
    RunUnique(s, n);
  }

  lemma {:induction false} RunUnique(s: string, n: nat)
    requires n <= |s| && (forall k | 0 <= k < n :: IsDigit(s[k])) && (n < |s| ==> !IsDigit(s[n]))
    ensures RunLength(s) == n
    decreases n
  {
    if n > 0 {
      forall k | 0 <= k < n - 1 ensures IsDigit(s[1..][k]) { assert s[k + 1] == s[1..][k]; }
      RunUnique(s[1..], n - 1);
    }
  }

  /** Where no digit run crosses the seam, the parts are read one after the other. */
  lemma {:induction false} TokensApart(p: string, x: string)
    requires Apart(p, x)
    ensures Tokens(p + x) == Tokens(p) + Tokens(x)
    decreases |p|
  {
    hide Tokens;
    if p == "" {
      assert p + x == x;
      NoTokens();
      assert [] + Tokens(x) == Tokens(x);
    } else if IsDigit(p[0]) {
      var n := RunLength(p);
      RunApart(p, x);
      TokensApart(p[n..], x);
      Assoc([Token.Number(Value(p[..n]))], Tokens(p[n..]), Tokens(x));
    } else {
      TokensAtLetter(p);
      TokensAtLetter(p + x);
      assert (p + x)[0] == p[0] && (p + x)[1..] == p[1..] + x;
      TokensApart(p[1..], x);
      Assoc([Letter(FoldChar(p[0]))], Tokens(p[1..]), Tokens(x));
    }
  }

  lemma RunApart(p: string, x: string)
    requires p != "" && IsDigit(p[0]) && Apart(p, x)
    ensures var n := RunLength(p);
      && 0 < n <= |p| && AllDigits(p[..n]) && Apart(p[n..], x)
      && Tokens(p) == [Token.Number(Value(p[..n]))] + Tokens(p[n..])
      && Tokens(p + x) == [Token.Number(Value(p[..n]))] + Tokens(p[n..] + x)
  {
    hide Tokens, Value;
    var n := RunLength(p);
    RunWithin(p, x);
    assert (p + x)[0] == p[0];
    TokensAtRun(p);
    TokensAtRun(p + x);
    assert (p + x)[..n] == p[..n] && (p + x)[n..] == p[n..] + x;
  }

  lemma {:induction false} CommonTokens(p: seq<Token>, a: seq<Token>, b: seq<Token>)
    requires IsStream(p)
    ensures CompareStreams(p + a, p + b) == CompareStreams(a, b)
    decreases |p|
  {
    if p == [] {
      assert p + a == a && p + b == b;
    } else {
      assert (p + a)[1..] == p[1..] + a && (p + b)[1..] == p[1..] + b;
      CompareTokensOrder(p[0], p[0], p[0]);
      CommonTokens(p[1..], a, b);
    }
  }

  lemma {:induction false} DecimalValue(n: nat)
    ensures Decimal(n) != "" && AllDigits(Decimal(n)) && Value(Decimal(n)) == n
    decreases n
  {
    var s := Decimal(n);
    if n >= 10 {
      DecimalValue(n / 10);
      assert s[..|s| - 1] == Decimal(n / 10);
    } else {
      assert s[..0] == "";
    }
  }

  /** A number in front of something that is no digit. */
  lemma NumberFirst(digits: string, x: string)
    requires digits != "" && AllDigits(digits) && Apart(digits, x)
    ensures Tokens(digits + x) == [Token.Number(Value(digits))] + Tokens(x)
  {
    RunUnique(digits, |digits|);
    TokensApart(digits, x);
    assert digits[..|digits|] == digits && digits[|digits|..] == "";
    assert Tokens(digits) == [Token.Number(Value(digits))];
  }

  /** "Mega Man 2" comes before "Mega Man 10": behind a common beginning the smaller number is first. */
  lemma NumbersBySize(p: string, m: nat, x: string, n: nat, y: string)
    requires m < n && Apart(p, "0") && Apart("0", x) && Apart("0", y)
    ensures Compare(p + (Decimal(m) + x), p + (Decimal(n) + y)) == -1
  {
    hide Tokens, Decimal, CompareStreams;
    DecimalValue(m); DecimalValue(n);
    DigitEnds(Decimal(m), x); DigitEnds(Decimal(n), y);
    NumberFirst(Decimal(m), x); NumberFirst(Decimal(n), y);
    DigitStarts(p, Decimal(m), x); DigitStarts(p, Decimal(n), y);
    TokensApart(p, Decimal(m) + x); TokensApart(p, Decimal(n) + y);
    TokensAreTokens(p);
    CommonTokens(Tokens(p), [Token.Number(m)] + Tokens(x), [Token.Number(n)] + Tokens(y));
    FirstDecides(Token.Number(m), Tokens(x), Token.Number(n), Tokens(y));
  }

  lemma DigitEnds(d: string, x: string)
    requires d != "" && AllDigits(d) && Apart("0", x)
    ensures Apart(d, x)
  {
    assert "0"[|"0"| - 1] == '0';
  }

  lemma DigitStarts(p: string, d: string, x: string)
    requires d != "" && AllDigits(d) && Apart(p, "0")
    ensures Apart(p, d + x)
  {
    assert (d + x)[0] == d[0] && "0"[0] == '0';
  }

  lemma FirstDecides(t: Token, a: seq<Token>, u: Token, b: seq<Token>)
    requires CompareTokens(t, u) != 0
    ensures CompareStreams([t] + a, [u] + b) == CompareTokens(t, u)
  {
  }

  function Lower(c: char): char {
    if 'A' <= c <= 'Z' then (c as int + 32) as char else c
  }

  lemma OneToken(c: char, x: string)
    requires !IsDigit(c)
    ensures Tokens([c] + x) == [Letter(Lower(c))] + Tokens(x)
  {
    assert ([c] + x)[0] == c && ([c] + x)[1..] == x;
  }

  /**
   * Behind a common beginning the first differing byte decides, letters without case; a digit stands among the other
   * bytes where its code puts it.
   */
  lemma FirstByteDecides(p: string, c: char, x: string, d: char, y: string)
    requires Lower(c) < Lower(d) && !(IsDigit(c) && IsDigit(d)) && (Apart(p, "0") || !(IsDigit(c) || IsDigit(d)))
    ensures Compare(p + ([c] + x), p + ([d] + y)) == -1
  {
    hide Tokens, CompareStreams;
    SeamAt(p, c, x); SeamAt(p, d, y);
    TokensApart(p, [c] + x); TokensApart(p, [d] + y);
    TokensAreTokens(p);
    CommonTokens(Tokens(p), Tokens([c] + x), Tokens([d] + y));
    var t, a := FirstToken(c, x);
    var u, b := FirstToken(d, y);
    FirstDecides(t, a, u, b);
  }

  lemma SeamAt(p: string, c: char, x: string)
    requires Apart(p, "0") || !IsDigit(c)
    ensures Apart(p, [c] + x)
  {
    assert ([c] + x)[0] == c && "0"[0] == '0';
  }

  lemma FirstToken(c: char, x: string) returns (t: Token, rest: seq<Token>)
    ensures Tokens([c] + x) == [t] + rest && (if IsDigit(c) then t.Number? else t == Letter(Lower(c)))
  {
    var s := [c] + x;
    if IsDigit(c) {
      t, rest := Token.Number(Value(s[..RunLength(s)])), Tokens(s[RunLength(s)..]);
    } else {
      OneToken(c, x);
      t, rest := Letter(Lower(c)), Tokens(x);
    }
  }

  /** A name stands before any longer one that begins with it, where no number is cut. */
  lemma ShorterFirst(p: string, x: string)
    requires x != "" && Apart(p, x)
    ensures Compare(p, p + x) == -1
  {
    hide Tokens;
    TokensApart(p, x);
    TokensApart(p, "");
    assert p + "" == p;
    TokensAreTokens(p);
    NoTokens();
    CommonTokens(Tokens(p), [], Tokens(x));
    var t, rest := FirstToken(x[0], x[1..]);
    assert [x[0]] + x[1..] == x;
    assert Tokens(p) + [] == Tokens(p);
  }

  lemma NoTokens()
    ensures Tokens("") == []
  {
  }

  /** Leading zeros and letter case only decide, by byte, between names that are otherwise the same. */
  lemma ZerosAndCaseBreakTies(p: string, zeros: string, n: nat, x: string)
    requires (forall i | 0 <= i < |zeros| :: zeros[i] == '0') && Apart(p, "0") && Apart("0", x)
    ensures var a, b := p + (zeros + Decimal(n) + x), p + (Decimal(n) + x);
      && Tokens(a) == Tokens(b) && Compare(a, b) == CompareBytes(a, b)
  {
    hide Tokens, Decimal;
    var d := zeros + Decimal(n);
    DecimalValue(n);
    ZerosAddNothing(zeros, Decimal(n));
    DigitEnds(d, x); DigitEnds(Decimal(n), x);
    NumberFirst(d, x); NumberFirst(Decimal(n), x);
    DigitStarts(p, d, x); DigitStarts(p, Decimal(n), x);
    TokensApart(p, d + x); TokensApart(p, Decimal(n) + x);
    TokensAreTokens(p + (d + x));
    SameStream(Tokens(p + (d + x)));
  }

  lemma SameStream(s: seq<Token>)
    requires IsStream(s)
    ensures CompareStreams(s, s) == 0
  {
    CommonTokens(s, [], []);
    assert s + [] == s;
  }

  lemma {:induction false} ZerosAddNothing(zeros: string, digits: string)
    requires (forall i | 0 <= i < |zeros| :: zeros[i] == '0') && AllDigits(digits)
    ensures AllDigits(zeros + digits) && Value(zeros + digits) == Value(digits)
    decreases |digits|, |zeros|
  {
    var s := zeros + digits;
    if digits != "" {
      assert s[..|s| - 1] == zeros + digits[..|digits| - 1];
      ZerosAddNothing(zeros, digits[..|digits| - 1]);
    } else if zeros != "" {
      assert s[..|s| - 1] == zeros[..|zeros| - 1] + digits;
      ZerosAddNothing(zeros[..|zeros| - 1], digits);
    }
  }

  /** The tie-break is byte order. */
  lemma {:induction false} CompareBytesIsByteOrder(a: string, b: string)
    ensures CompareBytes(a, b) <= 0 <==> StrLe(a, b)
    ensures CompareBytes(a, b) == 0 <==> a == b
    decreases |a|
  {
    if a != "" && b != "" {
      CompareBytesIsByteOrder(a[1..], b[1..]);
      assert a == [a[0]] + a[1..] && b == [b[0]] + b[1..];
    }
  }
}
