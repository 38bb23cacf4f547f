/** The open-addressed string index over an array the caller owns. */
module HashIndex {
  import opened Wrappers
  import opened Sorting

  /** What linear search from the front finds. */
  function Lookup(keys: seq<string>, text: string): (r: Option<nat>)
    ensures r.Some? ==> r.value < |keys| && keys[r.value] == text && forall i | 0 <= i < r.value :: keys[i] != text
    ensures r.None? <==> text !in keys
  {
    if keys == [] then None
    else
      var init := keys[..|keys| - 1];
      assert keys == init + [keys[|keys| - 1]];
      var earlier := Lookup(init, text);
      if earlier.Some? then earlier
      else if keys[|keys| - 1] == text then Some(|keys| - 1) else None
  }

  predicate PowerOfTwo(n: nat)
    decreases n
  {
    n == 1 || (n > 0 && n % 2 == 0 && PowerOfTwo(n / 2))
  }

  lemma Doubled(n: nat)
    ensures PowerOfTwo(n) ==> n > 0 && PowerOfTwo(n * 2)
  {
    assert n * 2 / 2 == n;
  }

  lemma SixtyFour()
    ensures PowerOfTwo(64)
  {
    assert PowerOfTwo(4) && PowerOfTwo(16);
  }

  /** The slot `d` steps after `home`, around the end. For a power of two this is `(home + d) & (size - 1)`. */
  function At(home: nat, d: nat, size: nat): (slot: nat)
    requires home < size && d < size
    ensures slot < size
  {
    if home + d < size then home + d else home + d - size
  }

  /** Where the probe for `text` starts; for a power of two this is `hash & (size - 1)`. */
  function Home(hash: string -> nat, text: string, size: nat): (home: nat)
    requires size > 0
    ensures home < size
  {
    hash(text) % size
  }

  /** How far `slot` is from `home`. */
  function Distance(home: nat, slot: nat, size: nat): (d: nat)
    requires home < size && slot < size
    ensures d < size && At(home, d, size) == slot
  {
    if home <= slot then slot - home else slot + size - home
  }

  /**
   * The table of `keys`: every item sits in one slot, at the end of a run of slots that starts at its home and is
   * filled with older items.
   */
  ghost predicate Table(slots: seq<nat>, hash: string -> nat, keys: seq<string>) {
    && |slots| > 0
    && (forall p | 0 <= p < |slots| :: slots[p] <= |keys|)
    && (forall p, q | 0 <= p < q < |slots| && slots[p] != 0 :: slots[p] != slots[q])
    && (forall i | 0 <= i < |keys| :: Placed(slots, hash, keys[i], i))
  }

  ghost predicate Placed(slots: seq<nat>, hash: string -> nat, key: string, i: nat)
    requires |slots| > 0
  {
    exists d :: PlacedAt(slots, Home(hash, key, |slots|), i, d)
  }

  /** Item `i` is `d` steps from its home, and all slots on the way hold older items. */
  ghost predicate PlacedAt(slots: seq<nat>, home: nat, i: nat, d: nat)
    requires home < |slots|
  {
    d < |slots| && slots[At(home, d, |slots|)] == i + 1
    && forall e | 0 <= e < d :: 1 <= slots[At(home, e, |slots|)] <= i
  }

  ghost function UpTo(c: nat): (r: set<nat>)
    ensures |r| == c && forall k :: k in r <==> 1 <= k <= c
  {
    if c == 0 then {} else UpTo(c - 1) + {c}
  }

  lemma BoundedDistinct(s: seq<nat>, c: nat)
    requires NoRepeats(s) && forall i | 0 <= i < |s| :: 1 <= s[i] <= c
    ensures |s| <= c
  {
    SizeOfListed(s);
    var members := set k | k in s;
    assert members <= UpTo(c);
    SubsetSize(members, UpTo(c));
  }

  lemma {:induction false} SubsetSize<T>(a: set<T>, b: set<T>)
    requires a <= b
    ensures |a| <= |b|
    decreases a
  {
    if a != {} {
      var x :| x in a;
      SubsetSize(a - {x}, b - {x});
    }
  }

  /** A table with more slots than items has an empty slot, and every probe meets it. */
  lemma EmptySlot(slots: seq<nat>, hash: string -> nat, keys: seq<string>, home: nat)
    requires Table(slots, hash, keys) && |keys| < |slots| && home < |slots|
    ensures exists d :: 0 <= d < |slots| && slots[At(home, d, |slots|)] == 0
  {
    if forall p | 0 <= p < |slots| :: slots[p] != 0 { BoundedDistinct(slots, |keys|); }
    var p :| 0 <= p < |slots| && slots[p] == 0;
    assert slots[At(home, Distance(home, p, |slots|), |slots|)] == 0;
  }

  /** The first slot of a run that is empty or holds `text` settles the search. */
  lemma ProbeSettles(slots: seq<nat>, hash: string -> nat, keys: seq<string>, text: string, d: nat)
    requires Table(slots, hash, keys) && d < |slots|
    requires var home := Home(hash, text, |slots|);
      && (forall e | 0 <= e < d :: slots[At(home, e, |slots|)] != 0 && keys[slots[At(home, e, |slots|)] - 1] != text)
    ensures var s := slots[At(Home(hash, text, |slots|), d, |slots|)];
      && (s == 0 ==> Lookup(keys, text) == None)
      && (s != 0 && keys[s - 1] == text ==> Lookup(keys, text) == Some(s - 1))
  {
    hide Home, Lookup, At;
    var home := Home(hash, text, |slots|);
    var found := Lookup(keys, text);
    if found.Some? {
      var i := found.value;
      assert Placed(slots, hash, keys[i], i);
      var e :| PlacedAt(slots, home, i, e);
      assert slots[At(home, e, |slots|)] == i + 1;
    }
  }

  /** Placing a new item in the first empty slot of its run keeps the table. */
  lemma PlaceKeeps(slots: seq<nat>, hash: string -> nat, keys: seq<string>, text: string, d: nat)
    requires Table(slots, hash, keys) && d < |slots|
    requires var home := Home(hash, text, |slots|);
      && slots[At(home, d, |slots|)] == 0
      && (forall e | 0 <= e < d :: slots[At(home, e, |slots|)] != 0)
    ensures Table(slots[At(Home(hash, text, |slots|), d, |slots|) := |keys| + 1], hash, keys + [text])
  {
    hide Home;
    var home := Home(hash, text, |slots|);
    var next := slots[At(home, d, |slots|) := |keys| + 1];
    forall i | 0 <= i < |keys| + 1 ensures Placed(next, hash, (keys + [text])[i], i) {
      if i < |keys| {
        assert Placed(slots, hash, keys[i], i);
        var e :| PlacedAt(slots, Home(hash, keys[i], |slots|), i, e);
        assert PlacedAt(next, Home(hash, keys[i], |slots|), i, e);
      } else {
        assert PlacedAt(next, home, i, d);
      }
    }
  }

  lemma EmptyTable(slots: seq<nat>, hash: string -> nat)
    requires |slots| > 0 && forall p | 0 <= p < |slots| :: slots[p] == 0
    ensures Table(slots, hash, [])
  {
  }

  /** Writes the item into the first empty slot from the text's home slot on, going around. */
  method Place(slots: array<nat>, hash: string -> nat, ghost keys: seq<string>, text: string, item: nat)
    requires Table(slots[..], hash, keys) && |keys| < slots.Length && item == |keys|
    modifies slots
    ensures Table(slots[..], hash, keys + [text])
  {
    hide Table, Home;
    NotEmpty(slots[..], hash, keys);
    var home := Home(hash, text, slots.Length);
    EmptySlot(slots[..], hash, keys, home);
    var slot := home;
    ghost var d := 0;
    while slots[slot] != 0
      invariant d < slots.Length && slot == At(home, d, slots.Length)
      invariant forall e | 0 <= e < d :: slots[..][At(home, e, slots.Length)] != 0
      decreases slots.Length - d
    {
      slot := if slot + 1 == slots.Length then 0 else slot + 1;
      d := d + 1;
    }
    PlaceKeeps(slots[..], hash, keys, text, d);
    ghost var before: seq<nat> := slots[..];
    slots[slot] := item + 1;
    assert slots[..] == before[slot := item + 1];
  }

  lemma SlotsInRange(slots: seq<nat>, hash: string -> nat, keys: seq<string>)
    requires Table(slots, hash, keys)
    ensures forall p | 0 <= p < |slots| :: slots[p] <= |keys|
  {
  }

  lemma NothingIn(keys: seq<string>, text: string)
    requires keys == []
    ensures Lookup(keys, text) == None
  {
  }

  lemma NotEmpty(slots: seq<nat>, hash: string -> nat, keys: seq<string>)
    requires Table(slots, hash, keys)
    ensures |slots| > 0
  {
  }

  class Index {
    /** The real hash is FNV-1a; nothing depends on which one it is. */
    const hash: string -> nat
    var slots: array<nat>

    /** At most half full, and a power of two in size; no table at all means nothing is indexed. */
    ghost predicate Holds(keys: seq<string>)
      reads this, slots
    {
      if slots.Length == 0 then keys == []
      else PowerOfTwo(slots.Length) && 2 * |keys| <= slots.Length && Table(slots[..], hash, keys)
    }

    constructor (hash: string -> nat)
      ensures Holds([]) && this.hash == hash && fresh(slots)
    {
      this.hash := hash;
      slots := new nat[0];
    }

    /** jw__index_find: agrees with linear search over the keys. */
    method Find(keys: seq<string>, text: string) returns (r: Option<nat>)
      requires Holds(keys)
      ensures r == Lookup(keys, text)
    {
      hide Table, Lookup, PowerOfTwo, Home;
      NothingIn([], text);
      if slots.Length == 0 {
        return None;
      }
      var home := Home(hash, text, slots.Length);
      EmptySlot(slots[..], hash, keys, home);
      SlotsInRange(slots[..], hash, keys);
      var slot := home;
      ghost var d := 0;
      while slots[slot] != 0
        invariant d < slots.Length && slot == At(home, d, slots.Length)
        invariant forall e | 0 <= e < d ::
          slots[..][At(home, e, slots.Length)] != 0 && keys[slots[..][At(home, e, slots.Length)] - 1] != text
        decreases slots.Length - d
      {
        ProbeSettles(slots[..], hash, keys, text, d);
        if keys[slots[slot] - 1] == text {
          return Some(slots[slot] - 1);
        }
        slot := if slot + 1 == slots.Length then 0 else slot + 1;
        d := d + 1;
      }
      ProbeSettles(slots[..], hash, keys, text, d);
      return None;
    }

    method Rehash(keys: seq<string>, size: nat) returns (grown: array<nat>)
      requires 0 < size && |keys| < size
      ensures fresh(grown) && grown.Length == size && Table(grown[..], hash, keys)
    {
      hide Table;
      grown := new nat[size](_ => 0);
      EmptyTable(grown[..], hash);
      assert keys[..0] == [];
      for i := 0 to |keys|
        invariant Table(grown[..], hash, keys[..i])
      {
        Place(grown, hash, keys[..i], keys[i], i);
        assert keys[..i] + [keys[i]] == keys[..i + 1];
      }
      assert keys[..|keys|] == keys;
    }

    method GrownSize(count: nat) returns (size: nat)
      requires slots.Length == 0 || PowerOfTwo(slots.Length)
      ensures PowerOfTwo(size) && (count + 1) * 2 <= size
    {
      hide PowerOfTwo;
      SixtyFour();
      Doubled(slots.Length);
      size := if slots.Length == 0 then 64 else slots.Length * 2;
      while (count + 1) * 2 > size
        invariant PowerOfTwo(size)
        decreases (count + 1) * 2 - size
      {
        Doubled(size);
        size := size * 2;
      }
    }

    /** jw__index_put: the next item of the caller's array. */
    method Put(keys: seq<string>, text: string)
      requires Holds(keys)
      modifies this, slots
      ensures Holds(keys + [text]) && (slots == old(slots) || fresh(slots))
    {
      hide Table, PowerOfTwo;
      if (|keys| + 1) * 2 > slots.Length {
        var size := GrownSize(|keys|);
        slots := Rehash(keys, size);
      }
      Place(slots, hash, keys, text, |keys|);
    }
  }
}
