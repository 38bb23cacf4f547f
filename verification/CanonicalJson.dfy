/** Canonical JSON: what the bytes are, and that they identify a value up to the order of object members. */
module CanonicalJson {
  import opened CStrings
  import opened Sorting

  /** A parsed JSON value. A number is carried as the text the number printer gives it. */
  datatype Value =
    | Null
    | Bool(b: bool)
    | Num(printed: string)
    | Str(s: string)
    | Arr(items: seq<Value>)
    | Obj(members: seq<Member>)

  datatype Member = Member(key: string, value: Value)

  predicate KeyLe(a: Member, b: Member) {
    StrLe(a.key, b.key)
  }

  // ---------------------------------------------------------------- the canonical text

  function Hex(n: nat): char
    requires n < 16
  {
    "0123456789abcdef"[n]
  }

  /** String escaping: the two mandatory escapes, the five short controls, \u00xx below 0x20. */
  function EscapeChar(c: char): string {
    if c == '"' then "\\\""
    else if c == '\\' then "\\\\"
    else if c as int == 8 then "\\b"
    else if c as int == 12 then "\\f"
    else if c as int == 10 then "\\n"
    else if c as int == 13 then "\\r"
    else if c as int == 9 then "\\t"
    else if c as int < 0x20 then "\\u00" + [Hex(c as int / 16), Hex(c as int % 16)]
    else [c]
  }

  function Escape(s: string): string {
    if s == [] then [] else EscapeChar(s[0]) + Escape(s[1..])
  }

  function Quoted(s: string): string {
    "\"" + Escape(s) + "\""
  }

  lemma MemberIsSmaller(v: Value, m: Member)
    requires v.Obj? && m in v.members
    ensures m.value < v
  {
    var k :| 0 <= k < |v.members| && v.members[k] == m;
    assert v.members[k] < v;
  }

  lemma ElementIsSmaller(v: Value, x: Value)
    requires v.Arr? && x in v.items
    ensures x < v
  {
    var k :| 0 <= k < |v.items| && v.items[k] == x;
  }

  lemma KeyLeIsComparison()
    ensures Comparison(KeyLe)
  {
    StrLeIsComparison();
  }

  /** The members in key order. */
  ghost function Arrange(ms: seq<Member>): (s: seq<Member>)
    ensures SortedBy(s, KeyLe) && Permuted(s, ms)
  {
    KeyLeIsComparison();
    Sort(ms, KeyLe)
  }

  lemma SortedMembers(ms: seq<Member>)
    ensures forall m :: m in Arrange(ms) <==> m in ms
  {
    PermutedMembers(Arrange(ms), ms);
  }

  /** Members sorted by key, no padding; arrays in their own order. */
  ghost function Canonical(v: Value): string
    decreases v, 1, 0
  {
    match v
    case Null => "null"
    case Bool(b) => if b then "true" else "false"
    case Num(printed) => printed
    case Str(s) => Quoted(s)
    case Arr(items) => "[" + ItemsText(v, items, true) + "]"
    case Obj(ms) => SortedMembers(ms); "{" + MembersText(v, Arrange(ms), true) + "}"
  }

  /** The elements still to be written; a comma precedes all but the first of the array. */
  ghost function ItemsText(v: Value, rest: seq<Value>, first: bool): string
    requires v.Arr? && forall x | x in rest :: x in v.items
    decreases v, 0, |rest|
  {
    if rest == [] then ""
    else ElementIsSmaller(v, rest[0]); (if first then "" else ",") + Canonical(rest[0]) + ItemsText(v, rest[1..], false)
  }

  ghost function MemberText(v: Value, m: Member): string
    requires v.Obj? && m in v.members
    decreases v, 0, 0
  {
    MemberIsSmaller(v, m);
    Quoted(m.key) + ":" + Canonical(m.value)
  }

  ghost function MembersText(v: Value, rest: seq<Member>, first: bool): string
    requires v.Obj? && forall m | m in rest :: m in v.members
    decreases v, 0, 1 + |rest|
  {
    if rest == [] then ""
    else (if first then "" else ",") + MemberText(v, rest[0]) + MembersText(v, rest[1..], false)
  }

  /** jw_catalog_json_canonical: the value and exactly one trailing newline. */
  ghost function Document(v: Value): string {
    Canonical(v) + "\n"
  }

  // ---------------------------------------------------------------- well-formed values, and when two are the same

  predicate NumberChar(c: char) {
    '0' <= c <= '9' || c in {'-', '+', '.', 'e', 'E'}
  }

  predicate Printed(s: string) {
    s != [] && ('0' <= s[0] <= '9' || s[0] == '-') && forall i | 0 <= i < |s| :: NumberChar(s[i])
  }

  ghost predicate DistinctKeys(ms: seq<Member>) {
    forall i, j | 0 <= i < j < |ms| :: ms[i].key != ms[j].key
  }

  /** C strings, finite numbers, and no key twice in one object. */
  ghost predicate WellFormed(v: Value)
    decreases v
  {
    match v
    case Null => true
    case Bool(_) => true
    case Num(printed) => Printed(printed)
    case Str(s) => NulFree(s)
    case Arr(items) => forall i | 0 <= i < |items| :: WellFormed(items[i])
    case Obj(ms) => DistinctKeys(ms) && forall i | 0 <= i < |ms| :: NulFree(ms[i].key) && WellFormed(ms[i].value)
  }

  /** Equal up to the order of object members, at every depth. */
  ghost predicate Same(v: Value, w: Value)
    decreases v, 0
  {
    match (v, w)
    case (Arr(a), Arr(b)) => |a| == |b| && forall i | 0 <= i < |a| :: Same(a[i], b[i])
    case (Obj(a), Obj(b)) =>
      |a| == |b| && forall i | 0 <= i < |a| :: Matched(a[i].key, a[i].value, b)
    case _ => v == w
  }

  /** Some member of `b` has this key and the same value. */
  ghost predicate Matched(key: string, v: Value, b: seq<Member>)
    decreases v, 1
  {
    exists j :: 0 <= j < |b| && b[j].key == key && Same(v, b[j].value)
  }

  // ---------------------------------------------------------------- reordering members changes nothing

  function Keys(ms: seq<Member>): seq<string> {
    seq(|ms|, i requires 0 <= i < |ms| => ms[i].key)
  }

  lemma {:induction false} SortKeepsKeysDistinct(ms: seq<Member>, s: seq<Member>)
    requires DistinctKeys(ms) && Permuted(ms, s)
    ensures DistinctKeys(s)
  {
    PermutedMembers(ms, s);
    DistinctCount(ms);
    forall i, j | 0 <= i < j < |s| ensures s[i].key != s[j].key {
      if s[i].key == s[j].key {
        assert s[i] in ms && s[j] in ms;
        assert s[i] == s[j];
        TwiceCounts(s, i, j);
        assert false;
      }
    }
  }

  lemma {:induction false} DistinctCount(ms: seq<Member>)
    requires DistinctKeys(ms)
    ensures forall m | m in ms :: multiset(ms)[m] == 1
    decreases |ms|
  {
    if ms != [] {
      DistinctCount(ms[1..]);
      HeadTail(ms);
      assert ms[0] !in ms[1..];
    }
  }

  lemma KeysSorted(ms: seq<Member>)
    requires DistinctKeys(ms)
    ensures var ks := Keys(Arrange(ms));
      SortedBy(ks, StrLe) && NoRepeats(ks) && forall k :: k in ks <==> k in Keys(ms)
  {
    var s := Arrange(ms);
    SortedMembers(ms);
    SortKeepsKeysDistinct(ms, s);
    forall k ensures k in Keys(s) <==> k in Keys(ms) { KeysOf(s, k); KeysOf(ms, k); }
  }

  /** Sorted by key, two same objects list the same keys. */
  lemma SortedKeysAgree(v: Value, w: Value)
    requires v.Obj? && w.Obj? && WellFormed(v) && WellFormed(w) && Same(v, w)
    ensures Keys(Arrange(v.members)) == Keys(Arrange(w.members))
  {
    var ks, kt := Keys(Arrange(v.members)), Keys(Arrange(w.members));
    KeysSorted(v.members); KeysSorted(w.members);
    KeysMatch(v.members, w.members);
    SameSetPermuted(ks, kt);
    NoStringTies(ks);
    SortedUnique(ks, kt, StrLe);
  }

  lemma ByKey(ms: seq<Member>, i: nat, j: nat)
    requires DistinctKeys(ms) && i < |ms| && j < |ms| && ms[i].key == ms[j].key
    ensures i == j
  {
  }

  /** ... and line up member by member. */
  lemma SameMembersLineUp(v: Value, w: Value)
    requires v.Obj? && w.Obj? && WellFormed(v) && WellFormed(w) && Same(v, w)
    ensures var s, t := Arrange(v.members), Arrange(w.members);
      |s| == |t| && forall i | 0 <= i < |s| :: s[i].key == t[i].key && Same(s[i].value, t[i].value)
  {
    var s, t := Arrange(v.members), Arrange(w.members);
    SortedKeysAgree(v, w);
    SortedMembers(v.members); SortedMembers(w.members);
    assert |s| == |Keys(s)| == |t|;
    forall i | 0 <= i < |s| ensures s[i].key == t[i].key && Same(s[i].value, t[i].value) {
      assert Keys(s)[i] == Keys(t)[i];
      MembersCorrespond(v, w, s[i], t[i]);
    }
  }

  lemma MembersCorrespond(v: Value, w: Value, m: Member, n: Member)
    requires v.Obj? && w.Obj? && WellFormed(w) && Same(v, w)
    requires m in v.members && n in w.members && m.key == n.key
    ensures Same(m.value, n.value)
  {
    var k :| 0 <= k < |v.members| && v.members[k] == m;
    assert Matched(v.members[k].key, v.members[k].value, w.members);
    var j :| 0 <= j < |w.members| && w.members[j].key == m.key && Same(m.value, w.members[j].value);
    var l :| 0 <= l < |w.members| && w.members[l] == n;
    ByKey(w.members, j, l);
  }

  lemma KeysOf(ms: seq<Member>, k: string)
    ensures k in Keys(ms) <==> exists m :: m in ms && m.key == k
  {
    if m :| m in ms && m.key == k {
      var i :| 0 <= i < |ms| && ms[i] == m;
      assert Keys(ms)[i] == k;
    }
    if k in Keys(ms) {
      var i :| 0 <= i < |Keys(ms)| && Keys(ms)[i] == k;
      assert ms[i] in ms;
    }
  }

  /** Same size, and every key of one is a key of the other: then the key sets are equal. */
  lemma KeysMatch(a: seq<Member>, b: seq<Member>)
    requires DistinctKeys(a) && DistinctKeys(b) && |a| == |b|
    requires forall i | 0 <= i < |a| :: Matched(a[i].key, a[i].value, b)
    ensures forall k :: k in Keys(a) <==> k in Keys(b)
  {
    var ka, kb := set k | k in Keys(a), set k | k in Keys(b);
    assert ka <= kb by {
      forall k | k in ka ensures k in kb {
        var i :| 0 <= i < |a| && Keys(a)[i] == k;
        var j :| 0 <= j < |b| && b[j].key == a[i].key && Same(a[i].value, b[j].value);
        assert Keys(b)[j] == k;
      }
    }
    SizeOfListed(Keys(a)); SizeOfListed(Keys(b));
    EqualBySize(ka, kb);
    forall k ensures k in Keys(a) <==> k in Keys(b) { assert k in ka <==> k in kb; }
  }

  lemma EqualBySize<T>(a: set<T>, b: set<T>)
    requires a <= b && |a| == |b|
    ensures a == b
  {
    assert b == a + (b - a);
    assert |b| == |a| + |b - a|;
  }

  /** Reordering members at any depth leaves the canonical bytes as they are. */
  lemma {:induction false} SameGivesSameText(v: Value, w: Value)
    requires WellFormed(v) && WellFormed(w) && Same(v, w)
    ensures Canonical(v) == Canonical(w)
    decreases v, 1, 0
  {
    match (v, w)
    case (Arr(a), Arr(b)) => SameItemsText(v, a, w, b, true);
    case (Obj(a), Obj(b)) =>
      SortedMembers(a); SortedMembers(b);
      SameMembersLineUp(v, w);
      SameMembersText(v, Arrange(a), w, Arrange(b), true);
    case _ =>
  }

  lemma {:induction false} SameItemsText(v: Value, a: seq<Value>, w: Value, b: seq<Value>, first: bool)
    requires v.Arr? && w.Arr? && (forall x | x in a :: x in v.items) && (forall x | x in b :: x in w.items)
    requires WellFormed(v) && WellFormed(w)
    requires |a| == |b| && forall i | 0 <= i < |a| :: Same(a[i], b[i])
    ensures ItemsText(v, a, first) == ItemsText(w, b, first)
    decreases v, 0, |a|
  {
    if a != [] {
      ItemIsSmaller(v, a[0]); ItemIsSmaller(w, b[0]);
      SameGivesSameText(a[0], b[0]);
      SameItemsText(v, a[1..], w, b[1..], false);
    }
  }

  lemma ItemIsSmaller(v: Value, x: Value)
    requires v.Arr? && x in v.items
    ensures x < v && (WellFormed(v) ==> WellFormed(x))
  {
    var k :| 0 <= k < |v.items| && v.items[k] == x;
  }

  lemma MemberIsWellFormed(v: Value, m: Member)
    requires v.Obj? && m in v.members && WellFormed(v)
    ensures m.value < v && NulFree(m.key) && WellFormed(m.value)
  {
    MemberIsSmaller(v, m);
    var k :| 0 <= k < |v.members| && v.members[k] == m;
  }

  lemma {:induction false} SameMembersText(v: Value, a: seq<Member>, w: Value, b: seq<Member>, first: bool)
    requires v.Obj? && w.Obj? && (forall m | m in a :: m in v.members) && (forall m | m in b :: m in w.members)
    requires WellFormed(v) && WellFormed(w)
    requires |a| == |b| && forall i | 0 <= i < |a| :: a[i].key == b[i].key && Same(a[i].value, b[i].value)
    ensures MembersText(v, a, first) == MembersText(w, b, first)
    decreases v, 0, |a|
  {
    if a != [] {
      MemberIsWellFormed(v, a[0]); MemberIsWellFormed(w, b[0]);
      SameGivesSameText(a[0].value, b[0].value);
      SameMembersText(v, a[1..], w, b[1..], false);
    }
  }

  // ---------------------------------------------------------------- the bytes determine the value

  lemma EscapeCharDecodes(c: char, d: char, x: string, y: string)
    requires EscapeChar(c) + x == EscapeChar(d) + y
    ensures c == d && x == y
  {
    var e, f := EscapeChar(c), EscapeChar(d);
    assert (e + x)[0] == e[0] && (f + y)[0] == f[0];
    if |e| == 1 || |f| == 1 {
      assert c == d;
    } else {
      assert (e + x)[1] == e[1] && (f + y)[1] == f[1];
      if |e| == 6 && |f| == 6 {
        assert (e + x)[4] == e[4] && (f + y)[4] == f[4];
        assert (e + x)[5] == e[5] && (f + y)[5] == f[5];
        HexDecodes(c as int, d as int);
      }
    }
    assert x == (e + x)[|e|..] && y == (f + y)[|f|..];
  }

  lemma HexDecodes(m: nat, n: nat)
    requires m < 0x20 && n < 0x20 && Hex(m / 16) == Hex(n / 16) && Hex(m % 16) == Hex(n % 16)
    ensures m == n
  {
    hide Hex;
    HexTellsApart(m / 16, n / 16);
    HexTellsApart(m % 16, n % 16);
  }

  lemma HexTellsApart(a: nat, b: nat)
    requires a < 16 && b < 16 && Hex(a) == Hex(b)
    ensures a == b
  {
  }

  /** A string body followed by its closing quote. */
  lemma EscapeUnfolds(s: string, x: string)
    ensures s == [] ==> Escape(s) + ("\"" + x) == ['"'] + x
    ensures s != [] ==> Escape(s) + ("\"" + x) == EscapeChar(s[0]) + (Escape(s[1..]) + ("\"" + x))
    ensures s == [] <==> (Escape(s) + ("\"" + x))[0] == '"'
  {
  }

  lemma {:induction false} EscapeDecodes(s: string, t: string, x: string, y: string)
    requires Escape(s) + ("\"" + x) == Escape(t) + ("\"" + y)
    ensures s == t && x == y
    decreases |s|
  {
    EscapeUnfolds(s, x); EscapeUnfolds(t, y);
    if s == [] {
      SameLength(['"'], x, ['"'], y);
    } else {
      EscapeCharDecodes(s[0], t[0], Escape(s[1..]) + ("\"" + x), Escape(t[1..]) + ("\"" + y));
      EscapeDecodes(s[1..], t[1..], x, y);
      assert s == [s[0]] + s[1..] && t == [t[0]] + t[1..];
    }
  }

  lemma QuotedDecodes(s: string, t: string, x: string, y: string)
    requires Quoted(s) + x == Quoted(t) + y
    ensures s == t && x == y
  {
    Opens("\"", Escape(s), "\"", x);
    Opens("\"", Escape(t), "\"", y);
    EscapeDecodes(s, t, x, y);
  }

  /** What may follow a value: nothing, or a byte that no number contains. */
  predicate Delimited(x: string) {
    x == [] || x[0] in {',', ']', '}', '\n'}
  }

  lemma NumberIsNoDelimiter(p: string, x: string)
    requires forall i | 0 <= i < |p| :: NumberChar(p[i])
    ensures p == [] ==> p + x == x
    ensures p != [] ==> !Delimited(p + x)
  {
    if p != [] { assert (p + x)[0] == p[0]; }
  }

  lemma {:induction false} NumberDecodes(p: string, q: string, x: string, y: string)
    requires forall i | 0 <= i < |p| :: NumberChar(p[i])
    requires forall i | 0 <= i < |q| :: NumberChar(q[i])
    requires Delimited(x) && Delimited(y) && p + x == q + y
    ensures p == q && x == y
    decreases |p|
  {
    NumberIsNoDelimiter(p, x); NumberIsNoDelimiter(q, y);
    if p != [] && q != [] {
      assert (p + x)[0] == p[0] && (q + y)[0] == q[0];
      assert (p + x)[1..] == p[1..] + x && (q + y)[1..] == q[1..] + y;
      NumberDecodes(p[1..], q[1..], x, y);
      assert p == [p[0]] + p[1..] && q == [q[0]] + q[1..];
    }
  }

  /** The first byte tells the kind of value. */
  function FirstByte(v: Value): char {
    match v
    case Null => 'n'
    case Bool(b) => if b then 't' else 'f'
    case Num(printed) => if printed == [] then '0' else printed[0]
    case Str(_) => '"'
    case Arr(_) => '['
    case Obj(_) => '{'
  }

  lemma CanonicalStarts(v: Value)
    requires WellFormed(v)
    ensures Canonical(v) != [] && Canonical(v)[0] == FirstByte(v)
    ensures FirstByte(v) !in {',', ']', '}'}
  {
  }

  /** Unique readability: equal bytes, delimited, come from the same value and leave the same rest. */
  lemma {:induction false} CanonicalDecodes(v: Value, w: Value, x: string, y: string)
    requires WellFormed(v) && WellFormed(w) && Delimited(x) && Delimited(y)
    requires Canonical(v) + x == Canonical(w) + y
    ensures Same(v, w) && x == y
    decreases v, 1, 0
  {
    SameKind(v, w, x, y);
    match v
    case Null => SameLength(Canonical(v), x, Canonical(w), y);
    case Bool(_) => SameLength(Canonical(v), x, Canonical(w), y);
    case Num(p) => NumberDecodes(p, w.printed, x, y);
    case Str(s) => QuotedDecodes(s, w.s, x, y);
    case Arr(a) =>
      Opens("[", ItemsText(v, a, true), "]", x);
      Opens("[", ItemsText(w, w.items, true), "]", y);
      ItemsDecode(v, a, w, w.items, true, x, y);
    case Obj(a) => ObjectDecodes(v, w, x, y);
  }

  lemma SameKind(v: Value, w: Value, x: string, y: string)
    requires WellFormed(v) && WellFormed(w) && Canonical(v) + x == Canonical(w) + y
    ensures FirstByte(v) == FirstByte(w)
    ensures v.Null? <==> w.Null?
    ensures v.Bool? <==> w.Bool?
    ensures v.Bool? ==> v == w
    ensures v.Num? <==> w.Num?
    ensures v.Str? <==> w.Str?
    ensures v.Arr? <==> w.Arr?
    ensures v.Obj? <==> w.Obj?
  {
    CanonicalStarts(v); CanonicalStarts(w);
    assert (Canonical(v) + x)[0] == FirstByte(v) && (Canonical(w) + y)[0] == FirstByte(w);
  }

  lemma {:induction false} ObjectDecodes(v: Value, w: Value, x: string, y: string)
    requires v.Obj? && w.Obj? && WellFormed(v) && WellFormed(w)
    requires Canonical(v) + x == Canonical(w) + y
    ensures Same(v, w) && x == y
    decreases v, 0, 1 + |v.members|
  {
    SortedMembers(v.members); SortedMembers(w.members);
    var s, t := Arrange(v.members), Arrange(w.members);
    assert |s| == |v.members| by { PermutedMembers(s, v.members); }
    ObjectOpens(v, x); ObjectOpens(w, y);
    MembersDecode(v, s, w, t, true, x, y);
    SortedMatchGivesSame(v, s, w, t);
  }

  lemma ObjectOpens(v: Value, x: string)
    requires v.Obj?
    ensures forall m :: m in Arrange(v.members) <==> m in v.members
    ensures Canonical(v) + x != [] && (Canonical(v) + x)[1..] == MembersText(v, Arrange(v.members), true) + ("}" + x)
  {
    SortedMembers(v.members);
    Opens("{", MembersText(v, Arrange(v.members), true), "}", x);
  }

  lemma Opens(open: string, text: string, close: string, x: string)
    requires |open| == 1
    ensures open + text + close + x != [] && (open + text + close + x)[1..] == text + (close + x)
  {
  }

  lemma SameLength(p: string, x: string, q: string, y: string)
    requires p + x == q + y && |p| == |q|
    ensures p == q && x == y
  {
    assert p == (p + x)[..|p|] && q == (q + y)[..|q|];
    assert x == (p + x)[|p|..] && y == (q + y)[|q|..];
  }

  lemma SortedMatchGivesSame(v: Value, s: seq<Member>, w: Value, t: seq<Member>)
    requires v.Obj? && w.Obj? && Permuted(s, v.members) && Permuted(t, w.members)
    requires |s| == |t| && forall i | 0 <= i < |s| :: s[i].key == t[i].key && Same(s[i].value, t[i].value)
    ensures Same(v, w)
  {
    PermutedMembers(s, v.members); PermutedMembers(t, w.members);
    forall i | 0 <= i < |v.members|
      ensures Matched(v.members[i].key, v.members[i].value, w.members)
    {
      assert v.members[i] in s;
      var k :| 0 <= k < |s| && s[k] == v.members[i];
      assert t[k] in w.members;
      var j :| 0 <= j < |w.members| && w.members[j] == t[k];
    }
  }

  lemma ItemsStart(v: Value, rest: seq<Value>, first: bool, x: string)
    requires v.Arr? && WellFormed(v) && (forall z | z in rest :: z in v.items)
    ensures rest == [] <==> (ItemsText(v, rest, first) + ("]" + x))[0] == ']'
    ensures rest == [] ==> ItemsText(v, rest, first) + ("]" + x) == "]" + x
    ensures rest != [] ==> (ItemsText(v, rest, first) + ("]" + x))[0] == (if first then FirstByte(rest[0]) else ',')
  {
    if rest != [] {
      ItemIsSmaller(v, rest[0]);
      CanonicalStarts(rest[0]);
    }
  }

  lemma ItemsUnfold(v: Value, rest: seq<Value>, first: bool, x: string)
    requires v.Arr? && WellFormed(v) && (forall z | z in rest :: z in v.items) && rest != []
    ensures var tail := ItemsText(v, rest[1..], false) + ("]" + x);
      && Delimited(tail)
      && (ItemsText(v, rest, first) + ("]" + x))[if first then 0 else 1..] == Canonical(rest[0]) + tail
  {
    ItemsStart(v, rest[1..], false, x);
    Unfold3(if first then "" else ",", Canonical(rest[0]), ItemsText(v, rest[1..], false), "]" + x);
  }

  lemma {:induction false} ItemsDecode(v: Value, a: seq<Value>, w: Value, b: seq<Value>, first: bool, x: string,
                                       y: string)
    requires v.Arr? && w.Arr? && (forall z | z in a :: z in v.items) && (forall z | z in b :: z in w.items)
    requires WellFormed(v) && WellFormed(w)
    requires ItemsText(v, a, first) + ("]" + x) == ItemsText(w, b, first) + ("]" + y)
    ensures |a| == |b| && (forall i | 0 <= i < |a| :: Same(a[i], b[i])) && x == y
    decreases v, 0, |a|
  {
    ItemsStart(v, a, first, x); ItemsStart(w, b, first, y);
    if a == [] {
      SameLength("]", x, "]", y);
    } else {
      ItemIsSmaller(v, a[0]); ItemIsSmaller(w, b[0]);
      var x', y' := ItemsText(v, a[1..], false) + ("]" + x), ItemsText(w, b[1..], false) + ("]" + y);
      ItemsUnfold(v, a, first, x); ItemsUnfold(w, b, first, y);
      CanonicalDecodes(a[0], b[0], x', y');
      ItemsDecode(v, a[1..], w, b[1..], false, x, y);
    }
  }

  lemma Unfold3(sep: string, a: string, b: string, c: string)
    ensures (sep + a + b + c)[|sep|..] == a + (b + c)
  {
  }

  lemma MembersStart(v: Value, rest: seq<Member>, first: bool, x: string)
    requires v.Obj? && WellFormed(v) && (forall m | m in rest :: m in v.members)
    ensures rest == [] <==> (MembersText(v, rest, first) + ("}" + x))[0] == '}'
    ensures rest == [] ==> MembersText(v, rest, first) + ("}" + x) == "}" + x
    ensures rest != [] ==> (MembersText(v, rest, first) + ("}" + x))[0] == (if first then '"' else ',')
  {
  }

  lemma {:induction false} MemberDecodes(v: Value, m: Member, w: Value, n: Member, x: string, y: string)
    requires v.Obj? && w.Obj? && m in v.members && n in w.members && WellFormed(v) && WellFormed(w)
    requires Delimited(x) && Delimited(y) && MemberText(v, m) + x == MemberText(w, n) + y
    ensures m.key == n.key && Same(m.value, n.value) && x == y
    decreases v, 0, 0
  {
    MemberIsWellFormed(v, m); MemberIsWellFormed(w, n);
    Assoc(Quoted(m.key) + ":", Canonical(m.value), x); Assoc(Quoted(m.key), ":", Canonical(m.value) + x);
    Assoc(Quoted(n.key) + ":", Canonical(n.value), y); Assoc(Quoted(n.key), ":", Canonical(n.value) + y);
    QuotedDecodes(m.key, n.key, ":" + (Canonical(m.value) + x), ":" + (Canonical(n.value) + y));
    SameLength(":", Canonical(m.value) + x, ":", Canonical(n.value) + y);
    CanonicalDecodes(m.value, n.value, x, y);
  }

  lemma MembersUnfold(v: Value, rest: seq<Member>, first: bool, x: string)
    requires v.Obj? && WellFormed(v) && (forall m | m in rest :: m in v.members) && rest != []
    ensures var tail := MembersText(v, rest[1..], false) + ("}" + x);
      && Delimited(tail)
      && (MembersText(v, rest, first) + ("}" + x))[if first then 0 else 1..] == MemberText(v, rest[0]) + tail
  {
    MembersStart(v, rest[1..], false, x);
    Unfold3(if first then "" else ",", MemberText(v, rest[0]), MembersText(v, rest[1..], false), "}" + x);
  }

  lemma {:induction false} MembersDecode(v: Value, a: seq<Member>, w: Value, b: seq<Member>, first: bool, x: string,
                                         y: string)
    requires v.Obj? && w.Obj? && (forall m | m in a :: m in v.members) && (forall m | m in b :: m in w.members)
    requires WellFormed(v) && WellFormed(w)
    requires MembersText(v, a, first) + ("}" + x) == MembersText(w, b, first) + ("}" + y)
    ensures |a| == |b| && (forall i | 0 <= i < |a| :: a[i].key == b[i].key && Same(a[i].value, b[i].value)) && x == y
    decreases v, 0, |a|
  {
    MembersStart(v, a, first, x); MembersStart(w, b, first, y);
    if a == [] {
      SameLength("}", x, "}", y);
    } else {
      MemberIsWellFormed(v, a[0]); MemberIsWellFormed(w, b[0]);
      var x', y' := MembersText(v, a[1..], false) + ("}" + x), MembersText(w, b[1..], false) + ("}" + y);
      MembersUnfold(v, a, first, x); MembersUnfold(w, b, first, y);
      MemberDecodes(v, a[0], w, b[0], x', y');
      MembersDecode(v, a[1..], w, b[1..], false, x, y);
    }
  }

  /** Two documents have the same canonical bytes exactly when they are equal up to member order. */
  lemma DocumentIdentifiesValue(v: Value, w: Value)
    requires WellFormed(v) && WellFormed(w)
    ensures Document(v) == Document(w) <==> Same(v, w)
  {
    if Document(v) == Document(w) { CanonicalDecodes(v, w, "\n", "\n"); }
    if Same(v, w) { SameGivesSameText(v, w); }
  }
}
