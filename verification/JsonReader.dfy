/**
 * Reading JSON, by the grammar of RFC 8259 without insignificant blanks, and that it recovers what the emitter writes.
 */
module JsonReader {
  import opened Wrappers
  import opened CStrings
  import opened Sorting
  import opened CanonicalJson

  // ---------------------------------------------------------------- the reader

  function HexValue(c: char): Option<nat> {
    if '0' <= c <= '9' then Some(c as int - '0' as int)
    else if 'a' <= c <= 'f' then Some(c as int - 'a' as int + 10)
    else if 'A' <= c <= 'F' then Some(c as int - 'A' as int + 10)
    else None
  }

  /** The four digits after "\u", for characters of one byte. */
  function CodeUnit(t: string): Option<char>
    requires |t| >= 4
  {
    var a, b, c, d := HexValue(t[0]), HexValue(t[1]), HexValue(t[2]), HexValue(t[3]);
    if a.None? || b.None? || c.None? || d.None? then None
    else
      var n := ((a.value * 16 + b.value) * 16 + c.value) * 16 + d.value;
      if n < 0x80 then Some(n as char) else None
  }

  /** The character an escape stands for, and how many characters spell it (section 7 of RFC 8259). */
  function Unescape(t: string): (r: Option<(char, nat)>)
    ensures r.Some? ==> 0 < r.value.1 <= |t|
  {
    if t == "" then None
    else if t[0] == '"' || t[0] == '\\' || t[0] == '/' then Some((t[0], 1))
    else if t[0] == 'b' then Some((8 as char, 1))
    else if t[0] == 't' then Some((9 as char, 1))
    else if t[0] == 'n' then Some((10 as char, 1))
    else if t[0] == 'f' then Some((12 as char, 1))
    else if t[0] == 'r' then Some((13 as char, 1))
    else if t[0] == 'u' && |t| >= 5 && CodeUnit(t[1..]).Some? then Some((CodeUnit(t[1..]).value, 5))
    else None
  }

  /** The characters up to the closing quote, and what follows it. */
  function ReadString(t: string): (r: Option<(string, string)>)
    ensures r.Some? ==> |r.value.1| < |t|
    decreases |t|
  {
    if t == "" then None
    else if t[0] == '"' then Some(("", t[1..]))
    else if t[0] == '\\' then
      var e := Unescape(t[1..]);
      if e.None? then None
      else
        var rest := ReadString(t[1 + e.value.1..]);
        if rest.None? then None else Some(([e.value.0] + rest.value.0, rest.value.1))
    else if t[0] as int < 0x20 then None
    else
      var rest := ReadString(t[1..]);
      if rest.None? then None else Some(([t[0]] + rest.value.0, rest.value.1))
  }

  function ReadNumber(t: string): (r: (string, string))
    ensures |r.1| <= |t| && (r.0 != "" ==> |r.1| < |t|)
    decreases |t|
  {
    if t == "" || !NumberChar(t[0]) then ("", t) else var rest := ReadNumber(t[1..]); ([t[0]] + rest.0, rest.1)
  }

  function ReadValue(t: string): (r: Option<(Value, string)>)
    ensures r.Some? ==> |r.value.1| < |t|
    decreases |t|, 1
  {
    if t == "" then None
    else if "null" <= t then Some((Null, t[4..]))
    else if "true" <= t then Some((Bool(true), t[4..]))
    else if "false" <= t then Some((Bool(false), t[5..]))
    else if t[0] == '"' then
      var s := ReadString(t[1..]);
      if s.None? then None else Some((Str(s.value.0), s.value.1))
    else if t[0] == '[' then
      if |t| >= 2 && t[1] == ']' then Some((Arr([]), t[2..]))
      else
        var items := ReadItems(t[1..]);
        if items.None? then None else Some((Arr(items.value.0), items.value.1))
    else if t[0] == '{' then
      if |t| >= 2 && t[1] == '}' then Some((Obj([]), t[2..]))
      else
        var ms := ReadMembers(t[1..]);
        if ms.None? then None else Some((Obj(ms.value.0), ms.value.1))
    else if '0' <= t[0] <= '9' || t[0] == '-' then
      var n := ReadNumber(t);
      Some((Num(n.0), n.1))
    else None
  }

  /** One element or more, separated by commas, up to the closing bracket. */
  function ReadItems(t: string): (r: Option<(seq<Value>, string)>)
    ensures r.Some? ==> |r.value.1| < |t|
    decreases |t|, 2
  {
    var first := ReadValue(t);
    if first.None? || first.value.1 == "" then None
    else if first.value.1[0] == ']' then Some(([first.value.0], first.value.1[1..]))
    else if first.value.1[0] != ',' then None
    else
      var rest := ReadItems(first.value.1[1..]);
      if rest.None? then None else Some(([first.value.0] + rest.value.0, rest.value.1))
  }

  /** One member or more, each a string, a colon and a value. */
  function ReadMembers(t: string): (r: Option<(seq<Member>, string)>)
    ensures r.Some? ==> |r.value.1| < |t|
    decreases |t|, 2
  {
    if t == "" || t[0] != '"' then None
    else
      var key := ReadString(t[1..]);
      if key.None? || key.value.1 == "" || key.value.1[0] != ':' then None
      else
        var v := ReadValue(key.value.1[1..]);
        if v.None? || v.value.1 == "" then None
        else
          var m := Member(key.value.0, v.value.0);
          if v.value.1[0] == '}' then Some(([m], v.value.1[1..]))
          else if v.value.1[0] != ',' then None
          else
            var rest := ReadMembers(v.value.1[1..]);
            if rest.None? then None else Some(([m] + rest.value.0, rest.value.1))
  }

  // ---------------------------------------------------------------- strings and numbers

  lemma HexReads(n: nat)
    requires n < 16
    ensures HexValue(Hex(n)) == Some(n)
  {
  }

  /** What the string read behind one more character is. */
  function Behind(c: char, rest: Option<(string, string)>): Option<(string, string)> {
    if rest.None? then None else Some(([c] + rest.value.0, rest.value.1))
  }

  lemma PlainReads(c: char, x: string)
    requires c as int >= 0x20 && c != '"' && c != '\\'
    ensures ReadString([c] + x) == Behind(c, ReadString(x))
  {
    var t := [c] + x;
    assert t[0] == c && t[1..] == x;
  }

  lemma EscapedReads(c: char, e: string, x: string)
    requires e != "" && Unescape(e + x) == Some((c, |e|))
    ensures ReadString("\\" + e + x) == Behind(c, ReadString(x))
  {
    hide Unescape;
    var t := "\\" + e + x;
    assert t[0] == '\\' && t[1..] == e + x && t[1 + |e|..] == x;
  }

  lemma ShortUnescapes(c: char, x: string)
    ensures Unescape("\"" + x) == Some(('"', 1)) && Unescape("\\" + x) == Some(('\\', 1))
    ensures Unescape("b" + x) == Some((8 as char, 1)) && Unescape("t" + x) == Some((9 as char, 1))
    ensures Unescape("n" + x) == Some((10 as char, 1)) && Unescape("f" + x) == Some((12 as char, 1))
    ensures Unescape("r" + x) == Some((13 as char, 1))
  {
  }

  lemma ControlUnescapes(c: char, x: string)
    requires c as int < 0x20
    ensures Unescape("u00" + [Hex(c as int / 16), Hex(c as int % 16)] + x) == Some((c, 5))
  {
    hide Hex;
    var t := "u00" + [Hex(c as int / 16), Hex(c as int % 16)] + x;
    HexReads(c as int / 16); HexReads(c as int % 16);
    assert t[0] == 'u' && t[1] == '0' && t[2] == '0' && t[3] == Hex(c as int / 16) && t[4] == Hex(c as int % 16);
    var u := t[1..];
    assert u[0] == '0' && u[1] == '0' && u[2] == t[3] && u[3] == t[4];
    assert HexValue('0') == Some(0);
  }

  /** Every character is read back from its escape. */
  lemma EscapeReads(c: char, x: string)
    ensures ReadString(EscapeChar(c) + x) == Behind(c, ReadString(x))
  {
    hide ReadString, Unescape, Hex;
    ShortUnescapes(c, x);
    if c == '"' { EscapedReads(c, "\"", x); assert EscapeChar(c) == "\\" + "\""; }
    else if c == '\\' { EscapedReads(c, "\\", x); assert EscapeChar(c) == "\\" + "\\"; }
    else if c as int == 8 { EscapedReads(c, "b", x); assert EscapeChar(c) == "\\" + "b"; }
    else if c as int == 12 { EscapedReads(c, "f", x); assert EscapeChar(c) == "\\" + "f"; }
    else if c as int == 10 { EscapedReads(c, "n", x); assert EscapeChar(c) == "\\" + "n"; }
    else if c as int == 13 { EscapedReads(c, "r", x); assert EscapeChar(c) == "\\" + "r"; }
    else if c as int == 9 { EscapedReads(c, "t", x); assert EscapeChar(c) == "\\" + "t"; }
    else if c as int < 0x20 {
      ControlUnescapes(c, x);
      var e := "u00" + [Hex(c as int / 16), Hex(c as int % 16)];
      EscapedReads(c, e, x);
      assert EscapeChar(c) == "\\" + e;
    } else {
      PlainReads(c, x);
    }
  }

  lemma {:induction false} StringReads(s: string, x: string)
    requires NulFree(s)
    ensures ReadString(Escape(s) + ("\"" + x)) == Some((s, x))
    decreases |s|
  {
    hide EscapeChar;
    if s == "" {
      assert Escape(s) + ("\"" + x) == "\"" + x && ("\"" + x)[1..] == x;
    } else {
      StringReads(s[1..], x);
      Assoc(EscapeChar(s[0]), Escape(s[1..]), "\"" + x);
      EscapeReads(s[0], Escape(s[1..]) + ("\"" + x));
      assert s == [s[0]] + s[1..];
    }
  }

  lemma QuotedReads(s: string, x: string)
    requires NulFree(s)
    ensures Quoted(s) + x != "" && (Quoted(s) + x)[0] == '"' && ReadString((Quoted(s) + x)[1..]) == Some((s, x))
  {
    hide Escape;
    StringReads(s, x);
    assert (Quoted(s) + x)[1..] == Escape(s) + ("\"" + x);
  }

  lemma {:induction false} NumberReads(p: string, x: string)
    requires (forall i | 0 <= i < |p| :: NumberChar(p[i])) && Delimited(x)
    ensures ReadNumber(p + x) == (p, x)
    decreases |p|
  {
    if p == "" {
      assert p + x == x;
    } else {
      assert (p + x)[0] == p[0] && (p + x)[1..] == p[1..] + x;
      NumberReads(p[1..], x);
      assert p == [p[0]] + p[1..];
    }
  }

  // ---------------------------------------------------------------- values

  /** Keys in byte order at every depth. */
  ghost predicate Ordered(v: Value)
    decreases v
  {
    match v
    case Arr(items) => forall i | 0 <= i < |items| :: Ordered(items[i])
    case Obj(ms) =>
      && (forall i, j | 0 <= i < j < |ms| :: StrLe(ms[i].key, ms[j].key))
      && forall i | 0 <= i < |ms| :: Ordered(ms[i].value)
    case _ => true
  }

  /** The reader takes the text of `v` and leaves `x`; what it has read is `v` with its members in order. */
  ghost predicate ReadsAs(v: Value, t: string, x: string) {
    var r := ReadValue(t);
    r.Some? && r.value.1 == x && Same(v, r.value.0) && Ordered(r.value.0) && WellFormed(r.value.0)
  }

  lemma {:induction false} CanonicalReads(v: Value, x: string)
    requires WellFormed(v) && Delimited(x)
    ensures ReadsAs(v, Canonical(v) + x, x)
    decreases v, 1, 0
  {
    match v
    case Null => assert ("null" + x)[4..] == x;
    case Bool(b) => BoolReads(b, x);
    case Num(p) => NumReads(p, x);
    case Str(s) =>
      QuotedReads(s, x);
    case Arr(items) => ArrayReads(v, x);
    case Obj(ms) => ObjectReads(v, x);
  }

  lemma BoolReads(b: bool, x: string)
    ensures ReadsAs(Bool(b), Canonical(Bool(b)) + x, x)
  {
    var t := Canonical(Bool(b)) + x;
    assert t[0] == if b then 't' else 'f';
    assert if b then t[4..] == x else t[5..] == x;
  }

  lemma NumReads(p: string, x: string)
    requires Printed(p) && Delimited(x)
    ensures ReadsAs(Num(p), p + x, x)
  {
    NumberReads(p, x);
    assert (p + x)[0] == p[0];
  }

  lemma {:induction false} ArrayReads(v: Value, x: string)
    requires v.Arr? && WellFormed(v) && Delimited(x)
    ensures ReadsAs(v, Canonical(v) + x, x)
    decreases v, 0, 1 + |v.items|
  {
    hide ItemsText, ReadItems, ReadValue;
    var t, u := Canonical(v) + x, ItemsText(v, v.items, true) + ("]" + x);
    Opens("[", ItemsText(v, v.items, true), "]", x);
    assert t[0] == '[' && t[1..] == u;
    if v.items == [] {
      NoItems(v);
      assert u == "]" + x && u[1..] == x;
      EmptyArrayReads(t, x);
    } else {
      ItemsStart(v, v.items, "]" + x);
      ItemsRead(v, v.items, x);
      ReadsArray(t);
    }
  }

  lemma NoItems(v: Value)
    requires v.Arr?
    ensures ItemsText(v, [], true) == ""
  {
  }

  lemma EmptyArrayReads(t: string, x: string)
    requires t != "" && t[0] == '[' && t[1..] == "]" + x
    ensures ReadValue(t) == Some((Arr([]), x))
  {
    assert t[1] == ']' && t[2..] == t[1..][1..];
  }

  lemma ReadsArray(t: string)
    requires t != "" && t[0] == '[' && t[1..] != "" && t[1..][0] != ']' && ReadItems(t[1..]).Some?
    ensures ReadValue(t) == Some((Arr(ReadItems(t[1..]).value.0), ReadItems(t[1..]).value.1))
  {
    hide ReadItems;
  }

  /** A first element never looks like the end. */
  lemma ItemsStart(v: Value, a: seq<Value>, y: string)
    requires v.Arr? && WellFormed(v) && a != [] && forall z | z in a :: z in v.items
    ensures var t := ItemsText(v, a, true) + y; t != "" && t[0] != ']'
  {
    ItemIsSmaller(v, a[0]);
    CanonicalStarts(a[0]);
    assert "" + Canonical(a[0]) == Canonical(a[0]);
  }

  lemma CommaFirst(v: Value, a: seq<Value>)
    requires v.Arr? && a != [] && forall z | z in a :: z in v.items
    ensures ItemsText(v, a, false) == "," + ItemsText(v, a, true)
  {
    var c, rest := Canonical(a[0]), ItemsText(v, a[1..], false);
    Assoc(",", c, rest);
    assert "" + c == c;
  }

  ghost predicate SameItems(a: seq<Value>, b: seq<Value>) {
    |a| == |b| && forall i | 0 <= i < |a| :: Same(a[i], b[i]) && Ordered(b[i]) && WellFormed(b[i])
  }

  lemma {:induction false} ItemsRead(v: Value, a: seq<Value>, x: string)
    requires v.Arr? && WellFormed(v) && a != [] && forall z | z in a :: z in v.items
    ensures var r := ReadItems(ItemsText(v, a, true) + ("]" + x)); r.Some? && r.value.1 == x && SameItems(a, r.value.0)
    decreases v, 0, |a|
  {
    hide Canonical, Same, Ordered, ReadValue, ReadItems, WellFormed;
    ItemIsSmaller(v, a[0]);
    var c, rest := Canonical(a[0]), ItemsText(v, a[1..], false) + ("]" + x);
    assert ItemsText(v, a, true) + ("]" + x) == c + rest by {
      assert "" + c == c;
      Assoc(c, ItemsText(v, a[1..], false), "]" + x);
    }
    if |a| == 1 {
      assert a[1..] == [];
      assert rest == "]" + x && rest[1..] == x;
      CanonicalReads(a[0], rest);
      ReadsItem(c + rest);
    } else {
      CommaFirst(v, a[1..]);
      assert rest[0] == ',' && rest[1..] == ItemsText(v, a[1..], true) + ("]" + x);
      CanonicalReads(a[0], rest);
      ItemsRead(v, a[1..], x);
      ReadsItem(c + rest);
    }
  }

  /** One element and what follows it. */
  lemma ReadsItem(t: string)
    requires ReadValue(t).Some? && ReadValue(t).value.1 != ""
    ensures var w, rest := ReadValue(t).value.0, ReadValue(t).value.1;
      && (rest[0] == ']' ==> ReadItems(t) == Some(([w], rest[1..])))
      && (rest[0] == ',' && ReadItems(rest[1..]).Some? ==>
            ReadItems(t) == Some(([w] + ReadItems(rest[1..]).value.0, ReadItems(rest[1..]).value.1)))
  {
    hide ReadValue;
  }

  lemma {:induction false} ObjectReads(v: Value, x: string)
    requires v.Obj? && WellFormed(v) && Delimited(x)
    ensures ReadsAs(v, Canonical(v) + x, x)
    decreases v, 0, 2 + |v.members|
  {
    SortedMembers(v.members);
    var s := Arrange(v.members);
    PermutedMembers(s, v.members);
    hide Canonical, Same, Ordered, ReadValue, ReadMembers, DistinctKeys, SortedBy, KeyLe;
    ObjectOpens(v, x);
    var t, u := Canonical(v) + x, MembersText(v, s, true) + ("}" + x);
    ObjectStarts(v, x);
    if s == [] {
      assert u == "}" + x && u[0] == '}' && u[1..] == x;
      EmptyObjectReads(t, x);
      EmptyObject(v, Obj([]));
    } else {
      MembersStart(v, s, "}" + x);
      MembersRead(v, s, x);
      ReadsObject(t);
      WellFormedParts(v);
      SortKeepsKeysDistinct(v.members, s);
      MembersAreSame(v.members, s, ReadMembers(u).value.0);
    }
  }

  lemma ObjectStarts(v: Value, x: string)
    requires v.Obj?
    ensures Canonical(v) + x != "" && (Canonical(v) + x)[0] == '{'
  {
    SortedMembers(v.members);
    assert (Canonical(v) + x)[0] == Canonical(v)[0];
  }

  lemma EmptyObjectReads(t: string, x: string)
    requires t != "" && t[0] == '{' && t[1..] == "}" + x
    ensures ReadValue(t) == Some((Obj([]), x))
  {
    assert t[1] == '}' && t[2..] == t[1..][1..];
  }

  lemma EmptyObject(v: Value, w: Value)
    requires v.Obj? && v.members == [] && w == Obj([])
    ensures Same(v, w) && Ordered(w) && WellFormed(w)
  {
  }

  lemma ReadsObject(t: string)
    requires t != "" && t[0] == '{' && t[1..] != "" && t[1..][0] != '}' && ReadMembers(t[1..]).Some?
    ensures ReadValue(t) == Some((Obj(ReadMembers(t[1..]).value.0), ReadMembers(t[1..]).value.1))
  {
    hide ReadMembers;
  }

  lemma WellFormedParts(v: Value)
    requires v.Obj? && WellFormed(v)
    ensures DistinctKeys(v.members) && forall m | m in v.members :: NulFree(m.key)
  {
  }

  lemma MembersStart(v: Value, a: seq<Member>, y: string)
    requires v.Obj? && a != [] && forall z | z in a :: z in v.members
    ensures var t := MembersText(v, a, true) + y; t != "" && t[0] == '"'
  {
    var m := MemberText(v, a[0]);
    assert m[0] == '"';
    assert "" + m == m;
  }

  lemma CommaBefore(v: Value, a: seq<Member>)
    requires v.Obj? && a != [] && forall z | z in a :: z in v.members
    ensures MembersText(v, a, false) == "," + MembersText(v, a, true)
  {
    var c, rest := MemberText(v, a[0]), MembersText(v, a[1..], false);
    Assoc(",", c, rest);
    assert "" + c == c;
  }

  ghost predicate SameMembers(a: seq<Member>, b: seq<Member>) {
    |a| == |b| && forall i | 0 <= i < |a| ::
      a[i].key == b[i].key && Same(a[i].value, b[i].value) && Ordered(b[i].value) && WellFormed(b[i].value)
  }

  lemma {:induction false} MembersRead(v: Value, a: seq<Member>, x: string)
    requires v.Obj? && WellFormed(v) && a != [] && forall z | z in a :: z in v.members
    ensures var r := ReadMembers(MembersText(v, a, true) + ("}" + x));
      r.Some? && r.value.1 == x && SameMembers(a, r.value.0)
    decreases v, 0, |a|
  {
    hide Canonical, Same, Ordered, Quoted, ReadMembers, ReadString, ReadValue, WellFormed;
    MemberIsWellFormed(v, a[0]);
    var q, c, rest := Quoted(a[0].key), Canonical(a[0].value), MembersText(v, a[1..], false) + ("}" + x);
    assert MembersText(v, a, true) + ("}" + x) == q + (":" + (c + rest)) by {
      assert "" + MemberText(v, a[0]) == MemberText(v, a[0]);
      Assoc(MemberText(v, a[0]), MembersText(v, a[1..], false), "}" + x);
      Assoc(q + ":", c, rest);
      Assoc(q, ":", c + rest);
    }
    var t, u := q + (":" + (c + rest)), ":" + (c + rest);
    QuotedReads(a[0].key, u);
    assert u[0] == ':' && u[1..] == c + rest;
    if |a| == 1 {
      assert a[1..] == [];
      assert rest == "}" + x && rest[1..] == x;
      CanonicalReads(a[0].value, rest);
      ReadsMember(t, u);
    } else {
      CommaBefore(v, a[1..]);
      assert rest[0] == ',' && rest[1..] == MembersText(v, a[1..], true) + ("}" + x);
      CanonicalReads(a[0].value, rest);
      MembersRead(v, a[1..], x);
      ReadsMember(t, u);
    }
  }

  /** One member and what follows it. */
  lemma ReadsMember(t: string, u: string)
    requires t != "" && t[0] == '"' && ReadString(t[1..]).Some? && ReadString(t[1..]).value.1 == u
    requires u != "" && u[0] == ':' && ReadValue(u[1..]).Some? && ReadValue(u[1..]).value.1 != ""
    ensures var m, rest := Member(ReadString(t[1..]).value.0, ReadValue(u[1..]).value.0), ReadValue(u[1..]).value.1;
      && (rest[0] == '}' ==> ReadMembers(t) == Some(([m], rest[1..])))
      && (rest[0] == ',' && ReadMembers(rest[1..]).Some? ==>
            ReadMembers(t) == Some(([m] + ReadMembers(rest[1..]).value.0, ReadMembers(rest[1..]).value.1)))
  {
    hide ReadValue, ReadString;
  }

  lemma MembersAreSame(ms: seq<Member>, s: seq<Member>, r: seq<Member>)
    requires Permuted(s, ms) && SortedBy(s, KeyLe) && DistinctKeys(s) && SameMembers(s, r)
    requires forall i | 0 <= i < |s| :: NulFree(s[i].key)
    ensures Same(Obj(ms), Obj(r)) && Ordered(Obj(r)) && WellFormed(Obj(r))
  {
    PermutedMembers(s, ms);
    forall i | 0 <= i < |ms| ensures Matched(ms[i].key, ms[i].value, r) {
      assert ms[i] in s;
      var j :| 0 <= j < |s| && s[j] == ms[i];
      assert r[j].key == ms[i].key && Same(ms[i].value, r[j].value);
    }
  }

  /** The document reads back as the value it was written from, up to member order, followed by one newline. */
  lemma DocumentReads(v: Value)
    requires WellFormed(v)
    ensures ReadsAs(v, Document(v), "\n")
  {
    CanonicalReads(v, "\n");
  }
}
