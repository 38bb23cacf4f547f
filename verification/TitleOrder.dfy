/** The listing order of titles and folder names (`jw_title_compare`). */
module TitleOrder {
  import opened CStrings
  import opened Sorting

  // ---------------------------------------------------------------- the specification: token streams

  predicate IsDigit(c: char) { '0' <= c <= '9' }

  /** A title reads as single folded bytes and as natural numbers of any size. */
  datatype Token = Letter(c: char) | Number(n: nat)

  /** The length of the digit run at the front. */
  function RunLength(s: string): (n: nat)
    ensures n <= |s|
    ensures forall k | 0 <= k < n :: IsDigit(s[k])
    ensures n < |s| ==> !IsDigit(s[n])
  {
    if s == [] || !IsDigit(s[0]) then 0 else 1 + RunLength(s[1..])
  }

  predicate AllDigits(s: string) {
    forall k | 0 <= k < |s| :: IsDigit(s[k])
  }

  /** The number a string of decimal digits denotes. */
  function Value(digits: string): nat
    requires AllDigits(digits)
  {
    if digits == [] then 0
    else Value(digits[..|digits| - 1]) * 10 + (digits[|digits| - 1] as int - '0' as int)
  }

  function Tokens(s: string): seq<Token>
    decreases |s|
  {
    if s == [] then []
    else if IsDigit(s[0]) then [Number(Value(s[..RunLength(s)]))] + Tokens(s[RunLength(s)..])
    else [Letter(FoldChar(s[0]))] + Tokens(s[1..])
  }

  function CompareNumbers(m: nat, n: nat): int {
    if m < n then -1 else if m > n then 1 else 0
  }

  /** Numbers stand among the bytes where the digits do, and compare by size among themselves. */
  function CompareTokens(a: Token, b: Token): int {
    match (a, b)
    case (Number(m), Number(n)) => CompareNumbers(m, n)
    case (Number(_), Letter(c)) => if '0' < c then -1 else 1
    case (Letter(c), Number(_)) => if c < '0' then -1 else 1
    case (Letter(c), Letter(d)) => if c < d then -1 else if c > d then 1 else 0
  }

  function CompareStreams(a: seq<Token>, b: seq<Token>): (c: int)
    ensures -1 <= c <= 1
    decreases |a|
  {
    if a == [] then if b == [] then 0 else -1
    else if b == [] then 1
    else if CompareTokens(a[0], b[0]) != 0 then CompareTokens(a[0], b[0])
    else CompareStreams(a[1..], b[1..])
  }

  /** `memcmp` over the common length, then the shorter first. */
  function CompareBytes(a: string, b: string): (c: int)
    ensures -1 <= c <= 1
    decreases |a|
  {
    if a == [] then if b == [] then 0 else -1
    else if b == [] then 1
    else if a[0] != b[0] then if a[0] < b[0] then -1 else 1
    else CompareBytes(a[1..], b[1..])
  }

  /** The natural order: token streams first, raw bytes to break the remaining ties. */
  function Compare(a: string, b: string): int {
    var c := CompareStreams(Tokens(a), Tokens(b));
    if c != 0 then c else CompareBytes(a, b)
  }

  // ---------------------------------------------------------------- a total order on titles

  lemma CompareTokensOrder(a: Token, b: Token, c: Token)
    requires IsToken(a) && IsToken(b) && IsToken(c)
    ensures CompareTokens(a, b) == -CompareTokens(b, a)
    ensures CompareTokens(a, b) == 0 <==> a == b
    ensures CompareTokens(a, b) <= 0 && CompareTokens(b, c) <= 0 ==> CompareTokens(a, c) <= 0
  {
  }

  /** No letter token is a digit, so a letter and a number never tie. */
  predicate IsToken(t: Token) {
    t.Letter? ==> !IsDigit(t.c)
  }

  ghost predicate IsStream(s: seq<Token>) {
    forall t | t in s :: IsToken(t)
  }

  lemma {:induction false} TokensAreTokens(s: string)
    ensures IsStream(Tokens(s))
    decreases |s|
  {
    if s == [] {
    } else if IsDigit(s[0]) {
      TokensAreTokens(s[RunLength(s)..]);
    } else {
      TokensAreTokens(s[1..]);
    }
  }

  lemma {:induction false} StreamsAntisymmetric(a: seq<Token>, b: seq<Token>)
    requires IsStream(a) && IsStream(b)
    ensures CompareStreams(a, b) == -CompareStreams(b, a)
    decreases |a|
  {
    if a != [] && b != [] {
      CompareTokensOrder(a[0], b[0], b[0]);
      StreamsAntisymmetric(a[1..], b[1..]);
    }
  }

  lemma {:induction false} StreamsTransitive(a: seq<Token>, b: seq<Token>, c: seq<Token>)
    requires IsStream(a) && IsStream(b) && IsStream(c)
    requires CompareStreams(a, b) <= 0 && CompareStreams(b, c) <= 0
    ensures CompareStreams(a, c) <= 0
    ensures CompareStreams(a, b) < 0 || CompareStreams(b, c) < 0 ==> CompareStreams(a, c) < 0
    decreases |a|
  {
    if a != [] && b != [] && c != [] {
      CompareTokensOrder(a[0], b[0], c[0]);
      CompareTokensOrder(b[0], c[0], a[0]);
      CompareTokensOrder(c[0], a[0], b[0]);
      if CompareTokens(a[0], b[0]) == 0 && CompareTokens(b[0], c[0]) == 0 {
        StreamsTransitive(a[1..], b[1..], c[1..]);
      }
    }
  }

  lemma {:induction false} BytesOrder(a: string, b: string)
    ensures CompareBytes(a, b) == -CompareBytes(b, a)
    ensures CompareBytes(a, b) == 0 <==> a == b
    ensures CompareBytes(a, b) <= 0 <==> StrLe(a, b)
    decreases |a|
  {
    if a != [] && b != [] {
      BytesOrder(a[1..], b[1..]);
      assert a == [a[0]] + a[1..] && b == [b[0]] + b[1..];
    }
  }

  /** Swapping the arguments swaps the answer. */
  lemma CompareAntisymmetric(a: string, b: string)
    ensures Compare(a, b) == -Compare(b, a)
  {
    TokensAreTokens(a); TokensAreTokens(b);
    StreamsAntisymmetric(Tokens(a), Tokens(b));
    BytesOrder(a, b);
  }

  /** Only identical names compare equal. */
  lemma CompareZeroIff(a: string, b: string)
    ensures Compare(a, b) == 0 <==> a == b
  {
    TokensAreTokens(a);
    BytesOrder(a, b);
    if a == b {
      StreamsAntisymmetric(Tokens(a), Tokens(a));
    }
  }

  lemma CompareTransitive(a: string, b: string, c: string)
    requires Compare(a, b) <= 0 && Compare(b, c) <= 0
    ensures Compare(a, c) <= 0
  {
    TokensAreTokens(a); TokensAreTokens(b); TokensAreTokens(c);
    StreamsTransitive(Tokens(a), Tokens(b), Tokens(c));
    BytesOrder(a, b); BytesOrder(b, c); BytesOrder(a, c);
    if StrLe(a, b) && StrLe(b, c) { StrLeTransitive(a, b, c); }
    if CompareStreams(Tokens(a), Tokens(c)) == 0 {
      assert CompareStreams(Tokens(a), Tokens(b)) == 0 && CompareStreams(Tokens(b), Tokens(c)) == 0;
    }
  }

  /** The listing order can be handed to a sort: total, and no two different names tie. */
  lemma CompareIsTotalOrder(names: seq<string>)
    ensures Comparison((a, b) => Compare(a, b) <= 0)
    ensures NoTies(names, (a, b) => Compare(a, b) <= 0)
  {
    forall a, b ensures Compare(a, b) <= 0 || Compare(b, a) <= 0 { CompareAntisymmetric(a, b); }
    forall a, b, c | Compare(a, b) <= 0 && Compare(b, c) <= 0 ensures Compare(a, c) <= 0 { CompareTransitive(a, b, c); }
    forall a, b | Compare(a, b) <= 0 && Compare(b, a) <= 0 ensures a == b {
      CompareAntisymmetric(a, b); CompareZeroIff(a, b);
    }
  }

  // ---------------------------------------------------------------- comparing digit runs without arithmetic

  function StripZeros(digits: string): (r: string)
    ensures AllDigits(digits) ==> AllDigits(r)
    ensures r != [] ==> r[0] != '0'
  {
    if digits != [] && digits[0] == '0' then StripZeros(digits[1..]) else digits
  }

  function Power10(n: nat): (p: nat)
    ensures p >= 1
  {
    if n == 0 then 1 else 10 * Power10(n - 1)
  }

  lemma {:induction false} TimesTen(d: nat, p: nat, v: nat)
    ensures (d * p + v) * 10 == d * (10 * p) + v * 10
    decreases d
  {
    if d > 0 {
      TimesTen(d - 1, p, v);
      assert d * p == (d - 1) * p + p;
      assert d * (10 * p) == (d - 1) * (10 * p) + 10 * p;
    }
  }

  lemma {:induction false} ValueSplit(first: char, rest: string)
    requires IsDigit(first) && AllDigits(rest)
    ensures AllDigits([first] + rest)
    ensures Value([first] + rest) == (first as int - '0' as int) * Power10(|rest|) + Value(rest)
    decreases |rest|
  {
    var s := [first] + rest;
    if rest == [] {
      assert s[..|s| - 1] == [];
    } else {
      var init := rest[..|rest| - 1];
      ValueSplit(first, init);
      assert s[..|s| - 1] == [first] + init;
      TimesTen(first as int - '0' as int, Power10(|init|), Value(init));
    }
  }

  lemma {:induction false} ValueBelowPower(digits: string)
    requires AllDigits(digits)
    ensures Value(digits) < Power10(|digits|)
    decreases |digits|
  {
    if digits != [] { ValueBelowPower(digits[..|digits| - 1]); }
  }

  lemma {:induction false} ValueIgnoresZeros(digits: string)
    requires AllDigits(digits)
    ensures Value(StripZeros(digits)) == Value(digits)
    decreases |digits|
  {
    if digits != [] && digits[0] == '0' {
      ValueIgnoresZeros(digits[1..]);
      ValueSplit('0', digits[1..]);
      assert digits == ['0'] + digits[1..];
    }
  }

  lemma LeadDecides(d: nat, e: nat, p: nat, u: nat, v: nat)
    requires d < e && u < p
    ensures d * p + u < e * p + v
    ensures p <= e * p
  {
    calc {
      e * p;
      (d + 1 + (e - d - 1)) * p;
      d * p + p + (e - d - 1) * p;
    }
    assert (e - d - 1) * p >= 0 && d * p >= 0;
  }

  /** Without a leading zero, more digits denote a larger number. */
  lemma LongerIsLarger(x: string, y: string)
    requires AllDigits(x) && AllDigits(y) && |x| < |y| && y[0] != '0'
    ensures Value(x) < Value(y)
  {
    ValueBelowPower(x);
    ValueSplit(y[0], y[1..]);
    assert y == [y[0]] + y[1..];
    PowerMonotone(|x|, |y| - 1);
    LeadDecides(0, y[0] as int - '0' as int, Power10(|y| - 1), 0, Value(y[1..]));
  }

  lemma {:induction false} PowerMonotone(m: nat, n: nat)
    requires m <= n
    ensures Power10(m) <= Power10(n)
    decreases n
  {
    if m < n { PowerMonotone(m, n - 1); }
  }

  /** At equal length, bytes decide between the numbers. */
  lemma {:induction false} SameLengthByBytes(x: string, y: string)
    requires AllDigits(x) && AllDigits(y) && |x| == |y|
    ensures CompareBytes(x, y) == CompareNumbers(Value(x), Value(y))
    decreases |x|
  {
    if x != [] {
      hide Value, Power10;
      SameLengthByBytes(x[1..], y[1..]);
      FirstDigit(x); FirstDigit(y);
      LeadCompares(x[0] as int - '0' as int, y[0] as int - '0' as int, Power10(|x| - 1), Value(x[1..]), Value(y[1..]));
    }
  }

  lemma FirstDigit(x: string)
    requires AllDigits(x) && x != []
    ensures AllDigits(x[1..]) && Value(x[1..]) < Power10(|x| - 1)
    ensures Value(x) == (x[0] as int - '0' as int) * Power10(|x| - 1) + Value(x[1..])
  {
    hide Value, Power10;
    ValueSplit(x[0], x[1..]);
    assert x == [x[0]] + x[1..];
    ValueBelowPower(x[1..]);
  }

  lemma LeadCompares(d: nat, e: nat, p: nat, u: nat, v: nat)
    requires u < p && v < p
    ensures CompareNumbers(d * p + u, e * p + v) == if d < e then -1 else if e < d then 1 else CompareNumbers(u, v)
  {
    if d < e { LeadDecides(d, e, p, u, v); }
    if e < d { LeadDecides(e, d, p, v, u); }
  }

  function CompareRuns(x: string, y: string): int {
    if |x| != |y| then if |x| < |y| then -1 else 1 else CompareBytes(x, y)
  }

  lemma StripKeepsDigits(x: string)
    requires AllDigits(x)
    ensures AllDigits(StripZeros(x)) && Value(StripZeros(x)) == Value(x)
  {
    ValueIgnoresZeros(x);
  }

  /** Strip zeros, compare lengths, then bytes: that is comparing the numbers, however long the runs are. */
  lemma DigitRunsCompareAsNumbers(x: string, y: string)
    requires AllDigits(x) && AllDigits(y)
    ensures CompareNumbers(Value(x), Value(y)) == CompareRuns(StripZeros(x), StripZeros(y))
  {
    StripKeepsDigits(x); StripKeepsDigits(y);
    StrippedRunsCompare(StripZeros(x), StripZeros(y));
  }

  lemma StrippedRunsCompare(x: string, y: string)
    requires AllDigits(x) && AllDigits(y)
    requires (x != [] ==> x[0] != '0') && (y != [] ==> y[0] != '0')
    ensures CompareNumbers(Value(x), Value(y)) == CompareRuns(x, y)
  {
    if |x| < |y| { LongerIsLarger(x, y); }
    else if |y| < |x| { LongerIsLarger(y, x); }
    else { SameLengthByBytes(x, y); }
  }

  // ---------------------------------------------------------------- the algorithm

  /** `memcmp(x, y, n)` for two blocks of one length. */
  method Memcmp(x: string, y: string) returns (c: int)
    requires |x| == |y|
    ensures c == CompareBytes(x, y)
  {
    var k := 0;
    while k < |x|
      invariant 0 <= k <= |x|
      invariant CompareBytes(x, y) == CompareBytes(x[k..], y[k..])
    {
      if x[k] != y[k] {
        return if x[k] < y[k] then -1 else 1;
      }
      k := k + 1;
    }
    return 0;
  }

  /** The end of the zeros, then of the digits, of the run that starts at `i`. */
  method ScanRun(x: string, i: nat) returns (start: nat, end: nat)
    requires i < |x| && IsDigit(x[i])
    ensures i <= start <= end <= |x| && i < end
    ensures end == i + RunLength(x[i..])
    ensures x[start..end] == StripZeros(x[i..end])
  {
    hide RunLength, StripZeros;
    start := i;
    while start < |x| && x[start] == '0'
      invariant i <= start <= |x|
      invariant forall k | i <= k < start :: x[k] == '0'
    {
      start := start + 1;
    }
    end := start;
    while end < |x| && IsDigit(x[end])
      invariant start <= end <= |x|
      invariant forall k | i <= k < end :: IsDigit(x[k])
      invariant start < end ==> x[start] != '0'
    {
      end := end + 1;
    }
    RunAt(x, i, end);
    StripAt(x, i, start, end);
  }

  lemma RunAt(x: string, i: nat, end: nat)
    requires i <= end <= |x| && (forall k | i <= k < end :: IsDigit(x[k])) && (end < |x| ==> !IsDigit(x[end]))
    ensures RunLength(x[i..]) == end - i
  {
    hide RunLength;
    forall k | 0 <= k < end - i ensures IsDigit(x[i..][k]) { assert x[i..][k] == x[i + k]; }
    RunIs(x[i..], end - i);
  }

  lemma StripAt(x: string, i: nat, start: nat, end: nat)
    requires i <= start <= end <= |x| && (forall k | i <= k < start :: x[k] == '0') && (start < end ==> x[start] != '0')
    ensures StripZeros(x[i..end]) == x[start..end]
  {
    hide StripZeros;
    forall k | 0 <= k < start - i ensures x[i..end][k] == '0' { assert x[i..end][k] == x[i + k]; }
    StripIs(x[i..end], start - i);
    assert x[i..end][start - i..] == x[start..end];
  }

  lemma {:induction false} RunIs(s: string, n: nat)
    requires n <= |s| && (forall k | 0 <= k < n :: IsDigit(s[k])) && (n < |s| ==> !IsDigit(s[n]))
    ensures RunLength(s) == n
  {
    if n > 0 { RunIs(s[1..], n - 1); }
  }

  lemma {:induction false} StripIs(s: string, n: nat)
    requires n <= |s| && (forall k | 0 <= k < n :: s[k] == '0') && (n < |s| ==> s[n] != '0')
    ensures StripZeros(s) == s[n..]
    decreases n
  {
    if n > 0 { StripIs(s[1..], n - 1); assert s[1..][n - 1..] == s[n..]; }
  }

  lemma TokensAtRun(s: string)
    requires s != [] && IsDigit(s[0])
    ensures RunLength(s) > 0 && AllDigits(s[..RunLength(s)])
    ensures Tokens(s) == [Number(Value(s[..RunLength(s)]))] + Tokens(s[RunLength(s)..])
  {
  }

  lemma TokensAt(s: string, i: nat)
    requires i < |s|
    ensures IsDigit(s[i]) ==>
      && RunLength(s[i..]) > 0 && AllDigits(s[i..i + RunLength(s[i..])])
      && Tokens(s[i..]) == [Number(Value(s[i..i + RunLength(s[i..])]))] + Tokens(s[i + RunLength(s[i..])..])
    ensures !IsDigit(s[i]) ==> Tokens(s[i..]) == [Letter(FoldChar(s[i]))] + Tokens(s[i + 1..])
  {
    hide Tokens, RunLength, Value;
    if IsDigit(s[i]) {
      TokensAtRun(s[i..]);
      var n := RunLength(s[i..]);
      assert s[i..][..n] == s[i..i + n] && s[i..][n..] == s[i + n..];
    } else {
      TokensAtLetter(s[i..]);
      assert s[i..][1..] == s[i + 1..];
    }
  }

  lemma TokensAtLetter(s: string)
    requires s != [] && !IsDigit(s[0])
    ensures Tokens(s) == [Letter(FoldChar(s[0]))] + Tokens(s[1..])
  {
  }

  lemma ConsDecides(t: Token, rest: seq<Token>, u: Token, rest': seq<Token>)
    ensures CompareStreams([t] + rest, [u] + rest')
      == if CompareTokens(t, u) != 0 then CompareTokens(t, u) else CompareStreams(rest, rest')
  {
    assert ([t] + rest)[1..] == rest && ([u] + rest')[1..] == rest';
  }

  /** Two digit runs: either they decide, or both cursors pass them. */
  lemma RunsDecide(a: string, i: nat, xe: nat, b: string, j: nat, ye: nat)
    requires i < xe <= |a| && j < ye <= |b| && IsDigit(a[i]) && IsDigit(b[j])
    requires xe == i + RunLength(a[i..]) && ye == j + RunLength(b[j..])
    ensures AllDigits(a[i..xe]) && AllDigits(b[j..ye])
    ensures var d := CompareRuns(StripZeros(a[i..xe]), StripZeros(b[j..ye]));
      CompareStreams(Tokens(a[i..]), Tokens(b[j..]))
        == if d != 0 then d else CompareStreams(Tokens(a[xe..]), Tokens(b[ye..]))
  {
    hide Value, Tokens, RunLength, StripZeros, CompareRuns, CompareStreams;
    TokensAt(a, i); TokensAt(b, j);
    DigitRunsCompareAsNumbers(a[i..xe], b[j..ye]);
    ConsDecides(Number(Value(a[i..xe])), Tokens(a[xe..]), Number(Value(b[j..ye])), Tokens(b[ye..]));
  }

  /** Two bytes, not both digits: either they decide, or both cursors pass them. */
  lemma BytesDecide(a: string, i: nat, b: string, j: nat)
    requires i < |a| && j < |b| && !(IsDigit(a[i]) && IsDigit(b[j]))
    ensures var cx, cy := FoldChar(a[i]), FoldChar(b[j]);
      CompareStreams(Tokens(a[i..]), Tokens(b[j..]))
        == if cx != cy then if cx < cy then -1 else 1 else CompareStreams(Tokens(a[i + 1..]), Tokens(b[j + 1..]))
  {
    hide Value, Tokens, RunLength, CompareStreams;
    TokensAt(a, i); TokensAt(b, j);
    var ra, rb := RunLength(a[i..]), RunLength(b[j..]);
    if IsDigit(a[i]) {
      ConsDecides(Number(Value(a[i..i + ra])), Tokens(a[i + ra..]), Letter(FoldChar(b[j])), Tokens(b[j + 1..]));
    } else if IsDigit(b[j]) {
      ConsDecides(Letter(FoldChar(a[i])), Tokens(a[i + 1..]), Number(Value(b[j..j + rb])), Tokens(b[j + rb..]));
    } else {
      ConsDecides(Letter(FoldChar(a[i])), Tokens(a[i + 1..]), Letter(FoldChar(b[j])), Tokens(b[j + 1..]));
    }
  }

  /** A name that goes on stands behind one that does not. */
  lemma OneRunsOut(a: string, i: nat, b: string, j: nat)
    requires i <= |a| && j <= |b| && (i == |a| || j == |b|)
    ensures CompareStreams(Tokens(a[i..]), Tokens(b[j..])) == if i < |a| then 1 else if j < |b| then -1 else 0
  {
    hide Value, RunLength;
  }

  /** jw_title_compare: one pass over both names, then the raw bytes. */
  method TitleCompare(a: string, b: string) returns (c: int)
    ensures c == Compare(a, b)
  {
    hide Value, Tokens, RunLength, StripZeros, CompareStreams;
    var i, j := 0, 0;
    while i < |a| && j < |b|
      invariant 0 <= i <= |a| && 0 <= j <= |b|
      invariant CompareStreams(Tokens(a), Tokens(b)) == CompareStreams(Tokens(a[i..]), Tokens(b[j..]))
      decreases |a| - i
    {
      if IsDigit(a[i]) && IsDigit(b[j]) {
        var xs, xe := ScanRun(a, i);
        var ys, ye := ScanRun(b, j);
        RunsDecide(a, i, xe, b, j, ye);
        if xe - xs != ye - ys {
          return if xe - xs < ye - ys then -1 else 1;
        }
        var digits := Memcmp(a[xs..xe], b[ys..ye]);
        if digits != 0 {
          return if digits < 0 then -1 else 1;
        }
        i, j := xe, ye;
      } else {
        var cx, cy := FoldChar(a[i]), FoldChar(b[j]);
        BytesDecide(a, i, b, j);
        if cx != cy {
          return if cx < cy then -1 else 1;
        }
        i, j := i + 1, j + 1;
      }
    }
    OneRunsOut(a, i, b, j);
    if i < |a| { return 1; }
    if j < |b| { return -1; }
    c := RawCompare(a, b);
  }

  /** The tie-break on the raw bytes. */
  method RawCompare(a: string, b: string) returns (c: int)
    ensures c == CompareBytes(a, b)
  {
    var common := if |a| < |b| then |a| else |b|;
    var bytes := Memcmp(a[..common], b[..common]);
    CommonPrefixDecides(a, b);
    if bytes != 0 {
      return if bytes < 0 then -1 else 1;
    }
    return if |a| == |b| then 0 else if |a| < |b| then -1 else 1;
  }

  lemma {:induction false} CommonPrefixDecides(a: string, b: string)
    ensures var n := if |a| < |b| then |a| else |b|;
      var c := CompareBytes(a[..n], b[..n]);
      CompareBytes(a, b) == (if c != 0 then c else if |a| == |b| then 0 else if |a| < |b| then -1 else 1)
    decreases |a|
  {
    if a != [] && b != [] {
      CommonPrefixDecides(a[1..], b[1..]);
      var n := if |a| < |b| then |a| else |b|;
      assert a[..n][1..] == a[1..][..n - 1] && b[..n][1..] == b[1..][..n - 1];
    }
  }
}
