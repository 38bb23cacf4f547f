/** Byte order of C strings (`strcmp`), sorted sequences, and what may be relied on after `qsort`. */
module Sorting {

  /** `strcmp(a, b) <= 0`: bytes compare by value, a proper prefix comes first. */
  predicate StrLe(a: string, b: string)
    decreases |a|
  {
    a == [] || (b != [] && (a[0] < b[0] || (a[0] == b[0] && StrLe(a[1..], b[1..]))))
  }

  /** One is a beginning of the other, or the first byte in which they differ decides. */
  lemma {:induction false} StrLeIff(a: string, b: string)
    ensures StrLe(a, b) <==> a <= b || exists k: nat :: k < |a| && k < |b| && a[..k] == b[..k] && a[k] < b[k]
    decreases |a|
  {
    if a != [] && b != [] && a[0] == b[0] {
      StrLeIff(a[1..], b[1..]);
      assert a == [a[0]] + a[1..] && b == [b[0]] + b[1..];
      if k: nat :| k < |a| && k < |b| && a[..k] == b[..k] && a[k] < b[k] {
        assert k > 0;
        assert a[1..][..k - 1] == a[..k][1..] && b[1..][..k - 1] == b[..k][1..];
        assert a[1..][k - 1] < b[1..][k - 1];
      }
      if k: nat :| k < |a[1..]| && k < |b[1..]| && a[1..][..k] == b[1..][..k] && a[1..][k] < b[1..][k] {
        assert a[..k + 1] == [a[0]] + a[1..][..k] && b[..k + 1] == [b[0]] + b[1..][..k];
        assert a[k + 1] < b[k + 1];
      }
    } else if a != [] && b != [] && a[0] < b[0] {
      assert a[..0] == b[..0];
    }
  }

  predicate StrLess(a: string, b: string) {
    a != b && StrLe(a, b)
  }

  lemma {:induction false} StrLeReflexive(a: string)
    ensures StrLe(a, a)
    decreases |a|
  {
    if a != [] { StrLeReflexive(a[1..]); }
  }

  lemma {:induction false} StrLeTotal(a: string, b: string)
    ensures StrLe(a, b) || StrLe(b, a)
    decreases |a|
  {
    if a != [] && b != [] { StrLeTotal(a[1..], b[1..]); }
  }

  lemma {:induction false} StrLeAntisymmetric(a: string, b: string)
    requires StrLe(a, b) && StrLe(b, a)
    ensures a == b
    decreases |a|
  {
    if a != [] {
      StrLeAntisymmetric(a[1..], b[1..]);
      assert a == [a[0]] + a[1..] && b == [b[0]] + b[1..];
    }
  }

  lemma {:induction false} StrLeTransitive(a: string, b: string, c: string)
    requires StrLe(a, b) && StrLe(b, c)
    ensures StrLe(a, c)
    decreases |a|
  {
    if a != [] && a[0] == b[0] && b[0] == c[0] { StrLeTransitive(a[1..], b[1..], c[1..]); }
  }

  lemma {:induction false} CommonPrefix(p: string, a: string, b: string)
    ensures StrLe(p + a, p + b) <==> StrLe(a, b)
    decreases |p|
  {
    if p == [] {
      assert p + a == a && p + b == b;
    } else {
      assert (p + a)[1..] == p[1..] + a && (p + b)[1..] == p[1..] + b;
      CommonPrefix(p[1..], a, b);
    }
  }

  /** Where neither begins the other, what follows plays no part. */
  lemma {:induction false} EarlierDecides(a: string, b: string, x: string, y: string)
    requires StrLe(a, b) && !(a <= b)
    ensures StrLe(a + x, b + y)
    decreases |a|
  {
    assert a != [] && b != [];
    assert (a + x)[1..] == a[1..] + x && (b + y)[1..] == b[1..] + y;
    if a[0] == b[0] {
      assert a == [a[0]] + a[1..] && b == [b[0]] + b[1..];
      EarlierDecides(a[1..], b[1..], x, y);
    }
  }

  /** A comparison function usable by `qsort`: transitive and total. */
  ghost predicate Comparison<T(!new)>(le: (T, T) -> bool) {
    && (forall x, y :: le(x, y) || le(y, x))
    && (forall x, y, z :: le(x, y) && le(y, z) ==> le(x, z))
  }

  lemma StrLeIsComparison()
    ensures Comparison(StrLe)
  {
    forall x, y ensures StrLe(x, y) || StrLe(y, x) { StrLeTotal(x, y); }
    forall x, y, z | StrLe(x, y) && StrLe(y, z) ensures StrLe(x, z) { StrLeTransitive(x, y, z); }
  }

  ghost predicate SortedBy<T>(s: seq<T>, le: (T, T) -> bool) {
    forall i, j | 0 <= i < j < |s| :: le(s[i], s[j])
  }

  /** Different elements never tie: the order decides between any two of them. */
  ghost predicate NoTies<T>(s: seq<T>, le: (T, T) -> bool) {
    forall x, y | x in s && y in s && le(x, y) && le(y, x) :: x == y
  }

  ghost predicate Permuted<T>(a: seq<T>, b: seq<T>) {
    multiset(a) == multiset(b)
  }

  lemma PermutedMembers<T>(a: seq<T>, b: seq<T>)
    requires Permuted(a, b)
    ensures |a| == |b|
    ensures forall x :: x in a <==> x in b
  {
    assert |multiset(a)| == |a| && |multiset(b)| == |b|;
    forall x ensures x in a <==> x in b { assert x in multiset(a) <==> x in multiset(b); }
  }

  lemma HeadTail<T>(s: seq<T>)
    requires s != []
    ensures s == [s[0]] + s[1..] && multiset(s) == multiset{s[0]} + multiset(s[1..])
  {
    assert s == [s[0]] + s[1..];
  }

  lemma FirstIsLeast<T>(s: seq<T>, x: T, le: (T, T) -> bool)
    requires SortedBy(s, le) && x in s
    ensures s[0] == x || le(s[0], x)
  {
    var i :| 0 <= i < |s| && s[i] == x;
  }

  /** The result of sorting does not depend on the sorting algorithm or on the input order. */
  lemma {:induction false} SortedUnique<T>(a: seq<T>, b: seq<T>, le: (T, T) -> bool)
    requires Permuted(a, b)
    requires SortedBy(a, le) && SortedBy(b, le) && NoTies(a, le)
    ensures a == b
    decreases |a|
  {
    hide SortedBy, NoTies, Permuted;
    PermutedMembers(a, b);
    if a != [] {
      HeadTail(a); HeadTail(b);
      SameFirst(a, b, le);
      TailsPermuted(a, b);
      SortedTail(a, le); SortedTail(b, le);
      SortedUnique(a[1..], b[1..], le);
    }
  }

  lemma SameFirst<T>(a: seq<T>, b: seq<T>, le: (T, T) -> bool)
    requires a != [] && b != [] && (forall x :: x in a <==> x in b) && SortedBy(a, le) && SortedBy(b, le)
    requires NoTies(a, le)
    ensures a[0] == b[0]
  {
    hide SortedBy;
    FirstIsLeast(a, b[0], le); FirstIsLeast(b, a[0], le);
  }

  lemma TailsPermuted<T>(a: seq<T>, b: seq<T>)
    requires a != [] && b != [] && a[0] == b[0] && Permuted(a, b)
    ensures Permuted(a[1..], b[1..])
  {
    HeadTail(a); HeadTail(b);
    assert multiset(a[1..]) == multiset(a) - multiset{a[0]};
    assert multiset(b[1..]) == multiset(b) - multiset{b[0]};
  }

  lemma SortedTail<T>(s: seq<T>, le: (T, T) -> bool)
    requires s != []
    ensures SortedBy(s, le) ==> SortedBy(s[1..], le)
    ensures NoTies(s, le) ==> NoTies(s[1..], le)
  {
    HeadTail(s);
  }

  /** Index of the least element. */
  method LeastIndex<T(!new)>(s: seq<T>, le: (T, T) -> bool) returns (k: nat)
    requires s != [] && Comparison(le)
    ensures k < |s| && forall i | 0 <= i < |s| :: le(s[k], s[i])
  {
    k := 0;
    for n := 1 to |s|
      invariant k < n
      invariant forall i | 0 <= i < n :: le(s[k], s[i])
    {
      if !le(s[k], s[n]) { k := n; }
    }
  }

  /** `qsort`: all a caller may use is that the result is a sorted permutation. */
  method QSort<T(!new)>(s: seq<T>, le: (T, T) -> bool) returns (r: seq<T>)
    requires Comparison(le)
    ensures SortedBy(r, le) && Permuted(r, s)
  {
    var rest := s;
    r := [];
    while rest != []
      invariant multiset(r) + multiset(rest) == multiset(s)
      invariant SortedBy(r, le)
      invariant forall x, y | x in r && y in rest :: le(x, y)
      decreases |rest|
    {
      var k := LeastIndex(rest, le);
      assert rest == rest[..k] + [rest[k]] + rest[k+1..];
      ghost var before := rest;
      r, rest := r + [rest[k]], rest[..k] + rest[k+1..];
      assert forall y | y in rest :: y in before;
    }
  }

  function Insert<T(!new)>(x: T, t: seq<T>, le: (T, T) -> bool): (r: seq<T>)
    ensures multiset(r) == multiset(t) + multiset{x}
  {
    if t == [] then [x]
    else if le(x, t[0]) then assert t == [t[0]] + t[1..]; [x] + t
    else assert t == [t[0]] + t[1..]; [t[0]] + Insert(x, t[1..], le)
  }

  lemma {:induction false} InsertSorted<T(!new)>(x: T, t: seq<T>, le: (T, T) -> bool)
    requires Comparison(le) && SortedBy(t, le)
    ensures SortedBy(Insert(x, t, le), le)
    decreases |t|
  {
    if t != [] && !le(x, t[0]) {
      InsertSorted(x, t[1..], le);
      var r := Insert(x, t[1..], le);
      forall k | 0 <= k < |r| ensures le(t[0], r[k]) {
        assert r[k] in multiset(r);
        assert r[k] == x || r[k] in t[1..];
      }
    }
  }

  function InsertionSort<T(!new)>(s: seq<T>, le: (T, T) -> bool): (r: seq<T>)
    ensures Permuted(r, s)
  {
    if s == [] then []
    else assert s == [s[0]] + s[1..]; Insert(s[0], InsertionSort(s[1..], le), le)
  }

  lemma {:induction false} InsertionSortSorts<T(!new)>(s: seq<T>, le: (T, T) -> bool)
    requires Comparison(le)
    ensures SortedBy(InsertionSort(s, le), le)
    decreases |s|
  {
    if s != [] {
      InsertionSortSorts(s[1..], le);
      InsertSorted(s[0], InsertionSort(s[1..], le), le);
    }
  }

  /** The sorted arrangement of a sequence. */
  ghost function Sort<T(!new)>(s: seq<T>, le: (T, T) -> bool): (r: seq<T>)
    requires Comparison(le)
    ensures SortedBy(r, le) && Permuted(r, s)
  {
    InsertionSortSorts(s, le);
    var r :| SortedBy(r, le) && Permuted(r, s);
    r
  }

  lemma SortOfSorted<T(!new)>(a: seq<T>, s: seq<T>, le: (T, T) -> bool)
    requires Comparison(le) && NoTies(s, le) && Permuted(a, s) && SortedBy(a, le)
    ensures a == Sort(s, le)
  {
    PermutedMembers(a, s);
    SortedUnique(a, Sort(s, le), le);
  }

  // ---------------------------------------------------------------- sequences without repeats, sets in order

  ghost predicate NoRepeats<T>(s: seq<T>) {
    forall i, j | 0 <= i < j < |s| :: s[i] != s[j]
  }

  lemma {:induction false} NoRepeatsCount<T>(s: seq<T>)
    requires NoRepeats(s)
    ensures forall x | x in s :: multiset(s)[x] == 1
    decreases |s|
  {
    if s != [] {
      NoRepeatsCount(s[1..]);
      HeadTail(s);
      assert s[0] !in s[1..];
    }
  }

  lemma SameSetPermuted<T>(a: seq<T>, b: seq<T>)
    requires NoRepeats(a) && NoRepeats(b)
    requires forall x :: x in a <==> x in b
    ensures Permuted(a, b)
  {
    NoRepeatsCount(a); NoRepeatsCount(b);
    forall x ensures multiset(a)[x] == multiset(b)[x] {
      assert x in multiset(a) <==> x in a;
      assert x in multiset(b) <==> x in b;
    }
  }

  lemma TwiceCounts<T>(s: seq<T>, i: nat, j: nat)
    requires i < j < |s| && s[i] == s[j]
    ensures multiset(s)[s[i]] >= 2
  {
    assert s == s[..i] + [s[i]] + s[i + 1..j] + [s[j]] + s[j + 1..];
  }

  lemma {:induction false} SizeOfListed<T>(s: seq<T>)
    requires NoRepeats(s)
    ensures |set k | k in s| == |s|
    decreases |s|
  {
    if s != [] {
      SizeOfListed(s[1..]);
      assert (set k | k in s) == (set k | k in s[1..]) + {s[0]};
    }
  }

  lemma NoStringTies(s: seq<string>)
    ensures NoTies(s, StrLe)
  {
    forall x, y | x in s && y in s && StrLe(x, y) && StrLe(y, x) ensures x == y { StrLeAntisymmetric(x, y); }
  }

  lemma {:induction false} Enumerate<T>(s: set<T>) returns (r: seq<T>)
    ensures NoRepeats(r) && forall x :: x in r <==> x in s
    decreases s
  {
    if s == {} {
      r := [];
    } else {
      var x :| x in s;
      r := Enumerate(s - {x});
      r := r + [x];
    }
  }

  /** The elements of a set, each once, in order. */
  ghost predicate Lists<T(!new)>(r: seq<T>, s: set<T>, le: (T, T) -> bool) {
    SortedBy(r, le) && NoRepeats(r) && forall x :: x in r <==> x in s
  }

  lemma SortedListing<T(!new)>(r: seq<T>, sorted: seq<T>, s: set<T>, le: (T, T) -> bool)
    requires NoRepeats(r) && (forall x :: x in r <==> x in s)
    requires SortedBy(sorted, le) && Permuted(sorted, r)
    ensures Lists(sorted, s, le)
  {
    PermutedMembers(sorted, r);
    NoRepeatsCount(r);
    forall i, j | 0 <= i < j < |sorted| ensures sorted[i] != sorted[j] {
      assert sorted[i] in r;
      if sorted[i] == sorted[j] { TwiceCounts(sorted, i, j); }
    }
  }

  lemma ListingExists<T(!new)>(s: set<T>, le: (T, T) -> bool)
    requires Comparison(le)
    ensures exists r :: Lists(r, s, le)
  {
    var r := Enumerate(s);
    SortedListing(r, Sort(r, le), s, le);
  }

  ghost function SortedSet<T(!new)>(s: set<T>, le: (T, T) -> bool): (r: seq<T>)
    requires Comparison(le)
    ensures Lists(r, s, le)
  {
    ListingExists(s, le);
    var r :| Lists(r, s, le);
    r
  }

  lemma SortedSetUnique<T(!new)>(r: seq<T>, s: set<T>, le: (T, T) -> bool)
    requires Comparison(le) && Lists(r, s, le) && NoTies(r, le)
    ensures r == SortedSet(s, le)
  {
    SameSetPermuted(r, SortedSet(s, le));
    SortedUnique(r, SortedSet(s, le), le);
  }
}
