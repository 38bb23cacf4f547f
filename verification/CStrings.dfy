/** C strings: where they end, `tolower` in the C locale, and how pieces of text are put together. */
module CStrings {
  import opened Wrappers

  const NUL: char := 0 as char

  predicate NulFree(s: string) {
    forall i | 0 <= i < |s| :: s[i] != NUL
  }

  /** The bytes up to the first NUL: what `strlen` sees. */
  function CString(raw: string): string {
    if raw == [] || raw[0] == NUL then "" else [raw[0]] + CString(raw[1..])
  }

  lemma {:induction false} CStringEnds(s: seq<char>, n: nat)
    requires n < |s| && s[n] == NUL && NulFree(s[..n])
    ensures CString(s) == s[..n]
    decreases n
  {
    if n > 0 {
      assert s[..n][0] == s[0];
      forall i | 0 <= i < n - 1 ensures s[1..][i] != NUL { assert s[..n][i + 1] != NUL; }
      CStringEnds(s[1..], n - 1);
      assert s[..n] == [s[0]] + s[1..][..n - 1];
    }
  }

  /** `tolower` in the C locale. */
  function FoldChar(c: char): char {
    if 'A' <= c <= 'Z' then (c as int - 'A' as int + 'a' as int) as char else c
  }

  /** `tolower` on every byte; two names are equal to `strcasecmp` when their folds are equal. */
  function Fold(s: string): string {
    seq(|s|, i requires 0 <= i < |s| => FoldChar(s[i]))
  }

  /** One letter, in either case. */
  predicate SameLetter(c: char, d: char) {
    c == d || ('A' <= c <= 'Z' && d as int == c as int + 32) || ('A' <= d <= 'Z' && c as int == d as int + 32)
  }

  predicate EqualUpToCase(a: string, b: string) {
    |a| == |b| && forall i | 0 <= i < |a| :: SameLetter(a[i], b[i])
  }

  /** Folding compares letters without their case, and everything else as it is. */
  lemma FoldIff(a: string, b: string)
    ensures Fold(a) == Fold(b) <==> EqualUpToCase(a, b)
  {
    assert |Fold(a)| == |a| && |Fold(b)| == |b|;
    if Fold(a) == Fold(b) {
      forall i | 0 <= i < |a| ensures SameLetter(a[i], b[i]) {
        assert Fold(a)[i] == FoldChar(a[i]) && Fold(b)[i] == FoldChar(b[i]);
      }
    }
    if EqualUpToCase(a, b) {
      forall i | 0 <= i < |a| ensures Fold(a)[i] == Fold(b)[i] {
        assert SameLetter(a[i], b[i]);
      }
      assert Fold(a) == Fold(b);
    }
  }

  /** The folded text is the text in lower case. */
  lemma FoldIsLowerCase(s: string)
    ensures EqualUpToCase(Fold(s), s) && forall i | 0 <= i < |s| :: !('A' <= Fold(s)[i] <= 'Z')
  {
  }

  /** What follows the last `c`. */
  function AfterLast(s: string, c: char): Option<string> {
    if s == [] then None
    else
      var rest := AfterLast(s[1..], c);
      if rest.Some? then rest else if s[0] == c then Some(s[1..]) else None
  }

  /** What follows the last slash, or the whole text. */
  function Basename(s: string): string {
    var base := AfterLast(s, '/');
    if base.None? then s else base.value
  }

  /** It is the last: what follows has none. */
  lemma {:induction false} AfterLastIsLast(s: string, c: char)
    ensures AfterLast(s, c).None? <==> c !in s
    ensures AfterLast(s, c).Some? ==>
      && c !in AfterLast(s, c).value && |AfterLast(s, c).value| < |s|
      && s == s[..|s| - |AfterLast(s, c).value| - 1] + [c] + AfterLast(s, c).value
    decreases |s|
  {
    if s != [] {
      AfterLastIsLast(s[1..], c);
      assert s == [s[0]] + s[1..];
    }
  }

  lemma {:induction false} AfterLastOf(before: string, c: char, name: string)
    requires c !in name
    ensures AfterLast(before + [c] + name, c) == Some(name) && AfterLast(name, c) == None
    decreases |before|
  {
    var s := before + [c] + name;
    AfterLastIsLast(name, c);
    if before == "" {
      assert s[0] == c && s[1..] == name;
    } else {
      assert s[0] == before[0] && s[1..] == before[1..] + [c] + name;
      AfterLastOf(before[1..], c, name);
    }
  }

  /** A directory part: nothing, or anything up to and with a slash. */
  predicate DirectoryPart(before: string) {
    before == "" || before[|before| - 1] == '/'
  }

  lemma BasenameOf(before: string, name: string)
    requires '/' !in name && DirectoryPart(before)
    ensures Basename(before + name) == name
  {
    if before == "" {
      assert before + name == name;
      AfterLastOf("", '/', name);
    } else {
      var n := |before| - 1;
      assert before == before[..n] + ['/'];
      AfterLastOf(before[..n], '/', name);
    }
  }

  lemma BasenameSplits(s: string) returns (before: string)
    ensures DirectoryPart(before) && s == before + Basename(s) && '/' !in Basename(s)
  {
    AfterLastIsLast(s, '/');
    before := s[..|s| - |Basename(s)|];
    if AfterLast(s, '/').Some? {
      var n := |s| - |Basename(s)| - 1;
      assert before == s[..n] + ['/'];
    }
  }

  /** `%u`: a number in decimal digits. */
  function Decimal(n: nat): string {
    if n < 10 then [('0' as int + n) as char] else Decimal(n / 10) + [('0' as int + n % 10) as char]
  }

  /** Concatenation does not depend on the grouping. */
  lemma Assoc<T>(a: seq<T>, b: seq<T>, c: seq<T>)
    ensures (a + b) + c == a + (b + c)
  {
  }
}
