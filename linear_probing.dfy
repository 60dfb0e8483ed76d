/**
 * The linear-probing engine (`hashmap_lp`): one flat slot array; an entry
 * lives at the first usable slot at or after `hash % slots_count`, wrapping
 * around; delete leaves a tombstone; the table doubles and is rehashed
 * before an insert whenever `entries_count / slots_count` has reached 0.7.
 */
module LinearProbing {
  import opened Common
  import opened OpenAddressing

  /** Probe `t` looks `t` slots past the home slot `h % n` (the table reduces it modulo `n`). */
  function Linear(n: nat): (U64, nat) -> nat
    requires n > 0
  {
    (h: U64, t: nat) => h % n + t
  }

  /** Reduction of a position below `2n` modulo `n`: one subtraction at most. */
  lemma Wrap(x: nat, n: nat)
    requires 0 < n && x < 2 * n
    ensures x % n == if x < n then x else x - n
  {
    if x >= n {
      assert x == 1 * n + (x - n);
    }
  }

  /**
   * The walk of the C loops: probe 0 is the home slot `h % n`, each further
   * probe is the next slot, wrapping at `n`, and the walk is back home after
   * exactly `n` steps.
   */
  lemma LinearStep(n: nat, h: U64, t: nat)
    requires t < n
    ensures Idx(Linear(n), n, h, 0) == h % n
    ensures var i := Idx(Linear(n), n, h, t);
      && Idx(Linear(n), n, h, t + 1) == (if i + 1 == n then 0 else i + 1)
      && (Idx(Linear(n), n, h, t + 1) == h % n <==> t + 1 == n)
  {
    Wrap(h % n, n);
    Wrap(h % n + t, n);
    Wrap(h % n + t + 1, n);
  }

  /** The probe that reaches slot `i` from the home slot of `h`: linear probing visits every slot. */
  lemma LinearCovers(n: nat, h: U64, i: nat)
    requires i < n
    ensures var t := if i >= h % n then i - h % n else i + n - h % n;
      t < n && Idx(Linear(n), n, h, t) == i
  {
    var a := h % n;
    var t := if i >= a then i - a else i + n - a;
    Wrap(a + t, n);
  }

  /** While a slot is free, an insert finds one within one round of the table. */
  lemma LinearPlaceSome<V>(s: seq<Slot<U64, V>>, h: U64, key: U64)
    requires |s| > 0 && Count(s) < |s|
    ensures Place(s, Linear(|s|), h, key, 0, |s|).Some?
  {
    CountBound(s);
    var i :| 0 <= i < |s| && !s[i].Occupied?;
    LinearCovers(|s|, h, i);
  }

  /** While a slot is free, the rehash loop finds one within one round of the table. */
  lemma LinearFirstFreeSome<V>(s: seq<Slot<U64, V>>, h: U64)
    requires |s| > 0 && Count(s) < |s|
    ensures FirstFree(s, Linear(|s|), h, 0, |s|).Some?
  {
    CountBound(s);
    var i :| 0 <= i < |s| && !s[i].Occupied?;
    LinearCovers(|s|, h, i);
  }

  lemma {:induction false} LinearRehashFromSome<V>(prev: seq<Slot<U64, V>>, i: nat, acc: seq<Slot<U64, V>>)
    requires i <= |prev| && |acc| > 0
    requires Count(acc) + Count(prev[i..]) <= |acc|
    ensures RehashFrom(prev, i, acc, Linear(|acc|), |acc|).Some?
    decreases |prev| - i
  {
    if i < |prev| {
      assert prev[i..][0] == prev[i] && prev[i..][1..] == prev[i + 1..];
      if prev[i].Occupied? {
        LinearFirstFreeSome(acc, prev[i].hash);
        var t := FirstFree(acc, Linear(|acc|), prev[i].hash, 0, |acc|).value;
        var j := Idx(Linear(|acc|), |acc|, prev[i].hash, t);
        OccupantsUpdate(acc, j, prev[i]);
        LinearRehashFromSome(prev, i + 1, acc[j := prev[i]]);
      } else {
        LinearRehashFromSome(prev, i + 1, acc);
      }
    }
  }

  /** A table of `n` slots takes every live entry of a table with at most `n` of them. */
  lemma LinearRehashSome<V>(prev: seq<Slot<U64, V>>, n: nat)
    requires n > 0 && Count(prev) <= n
    ensures Rehash(prev, Linear(n), n, n).Some?
  {
    var acc: seq<Slot<U64, V>> := Empty(n);
    CountEmpty(acc);
    assert prev[0..] == prev;
    LinearRehashFromSome(prev, 0, acc);
  }

  /**
   * The table the load check at the top of every insert leaves: doubled and
   * rehashed once it is overloaded, else unchanged. Either way a slot is free.
   */
  function Grown<V>(s: seq<Slot<U64, V>>, entries: nat): (r: seq<Slot<U64, V>>)
    requires |s| > 0 && entries == Count(s)
    ensures |r| == if Overloaded(entries, |s|) then 2 * |s| else |s|
    ensures Count(r) == entries < |r|
  {
    CountBound(s);
    if Overloaded(entries, |s|) then
      LinearRehashSome(s, 2 * |s|);
      RehashKeepsEntries(s, Linear(2 * |s|), 2 * |s|, 2 * |s|);
      Rehash(s, Linear(2 * |s|), 2 * |s|, 2 * |s|).value
    else
      s
  }

  /** The slot an insert of `key` (hash `h`) writes in the grown table `g`. */
  function Target<V>(g: seq<Slot<U64, V>>, h: U64, key: U64): (j: nat)
    requires |g| > 0 && Count(g) < |g|
    ensures j < |g| && !Crowded(g[j], key)
  {
    LinearPlaceSome(g, h, key);
    Idx(Linear(|g|), |g|, h, Place(g, Linear(|g|), h, key, 0, |g|).value)
  }

  /**
   * Lookup is complete: a key held by a live slot is found, and with unique
   * keys it is found with that slot's value.
   */
  lemma LinearFound<V>(s: seq<Slot<U64, V>>, hashOf: U64 -> U64, key: U64, i: nat)
    requires |s| > 0 && Reachable(s, Linear(|s|)) && Cached(s, hashOf) && i < |s| && Hit(s[i], key)
    ensures Get(s, Linear(|s|), hashOf(key), key, |s|).Some?
    ensures Unique(s) ==> Get(s, Linear(|s|), hashOf(key), key, |s|) == Some(s[i].value)
  {
    LiveNotCutOff(s, Linear(|s|), key, |s|, i);
    LinearCovers(|s|, hashOf(key), i);
  }

  /** A lookup misses exactly when no live slot holds the key. */
  lemma LinearMissed<V>(s: seq<Slot<U64, V>>, hashOf: U64 -> U64, key: U64)
    requires |s| > 0 && Reachable(s, Linear(|s|)) && Cached(s, hashOf)
    ensures Get(s, Linear(|s|), hashOf(key), key, |s|).None? <==> forall i :: 0 <= i < |s| ==> !Hit(s[i], key)
  {
    if i :| 0 <= i < |s| && Hit(s[i], key) {
      LinearFound(s, hashOf, key, i);
    }
  }

  /**
   * The load check keeps the invariants, and keeps every key: each key is
   * found after it exactly when it was found before, and, with unique keys,
   * with the same value.
   */
  lemma GrownKeepsLookups<V>(s: seq<Slot<U64, V>>, entries: nat, hashOf: U64 -> U64, key: U64)
    requires |s| > 0 && entries == Count(s)
    requires Reachable(s, Linear(|s|)) && Cached(s, hashOf)
    ensures var g := Grown(s, entries);
      && Reachable(g, Linear(|g|)) && Cached(g, hashOf)
      && (NoReleased(s) ==> NoReleased(g))
      && (Unique(s) ==> Unique(g))
      && Get(g, Linear(|g|), hashOf(key), key, |g|).Some? == Get(s, Linear(|s|), hashOf(key), key, |s|).Some?
      && (Unique(s) ==> Get(g, Linear(|g|), hashOf(key), key, |g|) == Get(s, Linear(|s|), hashOf(key), key, |s|))
  {
    var g := Grown(s, entries);
    if Overloaded(entries, |s|) {
      CountBound(s);
      LinearRehashSome(s, 2 * |s|);
      RehashFacts(s, Linear(|g|), |g|, |g|, hashOf);
      if Unique(s) {
        UniqueTransfer(s, g);
      }
      LinearMissed(s, hashOf, key);
      LinearMissed(g, hashOf, key);
      if i :| 0 <= i < |s| && Hit(s[i], key) {
        KeysCarried(s, g, key, i);
        var i' :| 0 <= i' < |g| && g[i'] == s[i];
        LinearFound(s, hashOf, key, i);
        LinearFound(g, hashOf, key, i');
      } else {
        forall i' | 0 <= i' < |g| ensures !Hit(g[i'], key) {
          OccupantsMembers(g, g[i']);
          OccupantsMembers(s, g[i']);
        }
      }
    }
  }

  /**
   * Without tombstones an insert into a table with unique keys keeps its
   * keys unique and creates no tombstone.
   */
  lemma PutKeepsUnique<V>(g: seq<Slot<U64, V>>, hashOf: U64 -> U64, key: U64, v: V)
    requires |g| > 0 && Count(g) < |g|
    requires Reachable(g, Linear(|g|)) && Cached(g, hashOf)
    requires NoReleased(g) && Unique(g)
    ensures var s' := Put(g, Target(g, hashOf(key), key), hashOf(key), key, v);
      NoReleased(s') && Unique(s')
  {
    var n := |g|;
    var h := hashOf(key);
    var j := Target(g, h, key);
    var s' := Put(g, j, h, key, v);
    LinearPlaceSome(g, h, key);
    FoundPlacesOnLive(g, Linear(n), h, key, n);
    LinearMissed(g, hashOf, key);
    forall i, i2 | 0 <= i < n && 0 <= i2 < n && s'[i2].Occupied? && Hit(s'[i], s'[i2].key)
      ensures i == i2
    {
      if i != j && i2 != j {
        assert Hit(g[i], g[i2].key);
      }
    }
  }

  /**
   * What the walk and the write of an insert do to a table with a free
   * slot: the invariants hold after it, the table presents the map with
   * `key` set to `v`, a new entry is counted exactly when the slot written
   * was not live, and without tombstones that is exactly when `key` was new.
   */
  lemma PutFacts<V>(g: seq<Slot<U64, V>>, s': seq<Slot<U64, V>>, hashOf: U64 -> U64, key: U64, v: V, m: map<U64, V>)
    requires |g| > 0 && Count(g) < |g|
    requires Reachable(g, Linear(|g|)) && Cached(g, hashOf) && Presents(g, Linear(|g|), hashOf, |g|, m)
    requires s' == Put(g, Target(g, hashOf(key), key), hashOf(key), key, v)
    ensures var j := Target(g, hashOf(key), key);
      && |s'| == |g|
      && Count(s') == Count(g) + (if g[j].Occupied? then 0 else 1)
      && Reachable(s', Linear(|s'|)) && Cached(s', hashOf)
      && Presents(s', Linear(|s'|), hashOf, |s'|, m[key := v])
      && (key !in m ==> !g[j].Occupied?)
      && (NoReleased(g) ==> (g[j].Occupied? <==> key in m))
      && (NoReleased(g) ==> NoReleased(s'))
      && (NoReleased(g) && Unique(g) ==> Unique(s'))
  {
    var h := hashOf(key);
    LinearPlaceSome(g, h, key);
    WriteFacts(g, s', Linear(|g|), hashOf, key, v, |g|, m, Target(g, h, key));
    if NoReleased(g) && Unique(g) {
      PutKeepsUnique(g, hashOf, key, v);
    }
  }

  /**
   * The load check seen on the map a table presents: no key is gained or
   * lost, and with unique keys the map is unchanged.
   */
  lemma GrownView<V>(s: seq<Slot<U64, V>>, entries: nat, hashOf: U64 -> U64, m: map<U64, V>)
    requires |s| > 0 && entries == Count(s)
    requires Reachable(s, Linear(|s|)) && Cached(s, hashOf)
    requires Presents(s, Linear(|s|), hashOf, |s|, m)
    ensures var g := Grown(s, entries); var m' := View(g, Linear(|g|), hashOf, |g|);
      && Reachable(g, Linear(|g|)) && Cached(g, hashOf)
      && (NoReleased(s) ==> NoReleased(g)) && (Unique(s) ==> Unique(g))
      && m'.Keys == m.Keys && (Unique(s) ==> m' == m)
  {
    var g := Grown(s, entries);
    var m' := View(g, Linear(|g|), hashOf, |g|);
    GrownKeepsLookups(s, entries, hashOf, 0);
    forall k
      ensures k in m' <==> k in m
      ensures Unique(s) ==> Lookup(m', k) == Lookup(m, k)
    {
      GrownKeepsLookups(s, entries, hashOf, k);
      assert Lookup(m, k) == Get(s, Linear(|s|), hashOf(k), k, |s|);
      assert Lookup(m', k) == Get(g, Linear(|g|), hashOf(k), k, |g|);
    }
    if Unique(s) {
      LookupExtensional(m', m);
    }
  }

  /** The rehash loop of `resize_if_load_factor_exceeded`: every live slot, in slot order, moved into a fresh table of `n2` slots. */
  method RehashInto<V>(a: array<Slot<U64, V>>, n2: nat) returns (next: array<Slot<U64, V>>)
    requires n2 > 0 && Rehash(a[..], Linear(n2), n2, n2).Some?
    ensures fresh(next) && next[..] == Rehash(a[..], Linear(n2), n2, n2).value
  {
    ghost var rule := Linear(n2);
    next := new Slot<U64, V>[n2](_ => Vacant);
    assert next[..] == Empty<U64, V>(n2);
    var i := 0;
    while i < a.Length
      invariant 0 <= i <= a.Length && next.Length == n2 && fresh(next)
      invariant RehashFrom(a[..], i, next[..], rule, n2) == Rehash(a[..], rule, n2, n2)
    {
      if a[i].Occupied? {
        var idx := ProbeFree(next, a[i].hash);
        next[idx] := a[i];
      }
      i := i + 1;
    }
  }

  /**
   * `hashmap_lp_find_inner`: from the home slot of `h`, at most one round of
   * the table, stopping at a vacant slot or at the slot that holds `key`.
   */
  method FindInner<V>(a: array<Slot<U64, V>>, h: U64, key: U64) returns (r: Option<nat>)
    requires a.Length > 0
    ensures var scan := Scan(a[..], Linear(a.Length), h, key, 0, a.Length);
      && (r.Some? <==> scan.Match?)
      && (r.Some? ==> r.value == Idx(Linear(a.Length), a.Length, h, scan.t))
    ensures r.Some? ==> r.value < a.Length && Hit(a[r.value], key)
    ensures Get(a[..], Linear(a.Length), h, key, a.Length) == if r.Some? then Some(a[r.value].value) else None
  {
    var n := a.Length;
    var start := h % n;
    var idx := start;
    ghost var rule := Linear(n);
    ghost var t := 0;
    LinearStep(n, h, 0);
    while true
      invariant t < n && idx == Idx(rule, n, h, t)
      invariant Scan(a[..], rule, h, key, t, n) == Scan(a[..], rule, h, key, 0, n)
      decreases n - t
    {
      if a[idx].Vacant? {
        return None;
      }
      if a[idx].Occupied? && a[idx].key == key {
        return Some(idx);
      }
      LinearStep(n, h, t);
      idx := idx + 1;
      if idx == n {
        idx := 0;
      }
      t := t + 1;
      if idx == start {
        return None;
      }
    }
  }

  /** The walk of the rehash loop: from the home slot of `h` to the first slot that is not occupied. */
  method ProbeFree<V>(a: array<Slot<U64, V>>, h: U64) returns (idx: nat)
    requires a.Length > 0 && FirstFree(a[..], Linear(a.Length), h, 0, a.Length).Some?
    ensures idx == Idx(Linear(a.Length), a.Length, h, FirstFree(a[..], Linear(a.Length), h, 0, a.Length).value)
  {
    var n := a.Length;
    ghost var rule := Linear(n);
    ghost var t := 0;
    LinearStep(n, h, 0);
    idx := h % n;
    while a[idx].Occupied?
      invariant t <= FirstFree(a[..], rule, h, 0, n).value
      invariant idx == Idx(rule, n, h, t)
      decreases n - t
    {
      LinearStep(n, h, t);
      idx := idx + 1;
      if idx == n {
        idx := 0;
      }
      t := t + 1;
    }
  }

  /** The walk of the insert loop: from the home slot of `h` past the slots that hold other keys. */
  method ProbePlace<V>(a: array<Slot<U64, V>>, h: U64, key: U64) returns (idx: nat)
    requires a.Length > 0 && Place(a[..], Linear(a.Length), h, key, 0, a.Length).Some?
    ensures idx == Idx(Linear(a.Length), a.Length, h, Place(a[..], Linear(a.Length), h, key, 0, a.Length).value)
  {
    var n := a.Length;
    ghost var rule := Linear(n);
    ghost var t := 0;
    LinearStep(n, h, 0);
    idx := h % n;
    while a[idx].Occupied? && a[idx].key != key
      invariant t <= Place(a[..], rule, h, key, 0, n).value
      invariant idx == Idx(rule, n, h, t)
      decreases n - t
    {
      LinearStep(n, h, t);
      idx := idx + 1;
      if idx == n {
        idx := 0;
      }
      t := t + 1;
    }
  }

  /**
   * A linear-probing hash map from 64-bit keys to values of type `V`. The
   * ghost `contents` is the map the table presents; the ghost `freed` logs,
   * in order, every value handed to `value_free`.
   */
  class HashMap<V> {
    var slots: array<Slot<U64, V>>
    var entries: nat
    const hasher: U64 -> U64
    ghost var contents: map<U64, V>
    ghost var freed: seq<V>

    /**
     * `entries_count` counts the live slots, which cache their key's hash
     * and are reachable, and `contents` is what lookups in the slots find.
     */
    ghost predicate Valid()
      reads this, slots
    {
      && slots.Length >= 10
      && entries == Count(slots[..])
      && Cached(slots[..], hasher)
      && Reachable(slots[..], Linear(slots.Length))
      && Presents(slots[..], Linear(slots.Length), hasher, slots.Length, contents)
    }

    /** `hashmap_lp_new`: ten vacant slots and no entries. */
    constructor (hasher: U64 -> U64)
      ensures Valid() && fresh(slots)
      ensures slots[..] == Empty(10) && NoReleased(slots[..]) && Unique(slots[..])
      ensures entries == 0 && contents == map[] && freed == [] && this.hasher == hasher
    {
      this.hasher := hasher;
      slots := new Slot<U64, V>[10](_ => Vacant);
      entries := 0;
      contents := map[];
      freed := [];
      new;
      assert slots[..] == Empty(10);
      CountEmpty(slots[..]);
      ClearedFacts(slots[..], Linear(10), hasher, 10);
      assert Cleared(slots[..]) == slots[..];
    }

    /** `resize_if_load_factor_exceeded`: doubles and rehashes an overloaded table. */
    method ResizeIfLoadFactorExceeded()
      requires Valid()
      requires Overloaded(entries, slots.Length) ==> 2 * slots.Length < TWO32
      modifies this
      ensures Valid() && entries == old(entries) && freed == old(freed) && entries < slots.Length
      ensures slots[..] == Grown(old(slots[..]), old(entries))
      ensures contents.Keys == old(contents).Keys && (Unique(old(slots[..])) ==> contents == old(contents))
      ensures NoReleased(old(slots[..])) ==> NoReleased(slots[..])
      ensures Unique(old(slots[..])) ==> Unique(slots[..])
      ensures if Overloaded(old(entries), old(slots.Length)) then fresh(slots)
        else slots == old(slots) && contents == old(contents)
    {
      if 10 * entries < 7 * slots.Length {
        return;
      }
      var n2 := 2 * slots.Length;
      ghost var prev := slots[..];
      CountBound(prev);
      LinearRehashSome(prev, n2);
      var next := RehashInto(slots, n2);
      slots := next;
      assert slots[..] == Grown(prev, entries);
      GrownView(prev, entries, hasher, contents);
      contents := View(slots[..], Linear(n2), hasher, n2);
    }

    /** `hashmap_lp_find`: the value of the slot `hashmap_lp_find_inner` finds. */
    method Find(key: U64) returns (r: Option<V>)
      requires Valid()
      ensures r == Lookup(contents, key)
    {
      var i := FindInner(slots, hasher(key), key);
      if i.Some? {
        r := Some(slots[i.value].value);
      } else {
        r := None;
      }
    }

    /**
     * `hashmap_lp_insert`: the load check, then a walk from the home slot
     * past slots held by other keys; a slot holding `key` gets the new value
     * (the old one is freed), any other slot gets a new entry.
     */
    method Insert(key: U64, value: V)
      requires Valid()
      requires Overloaded(entries, slots.Length) ==> 2 * slots.Length < TWO32
      modifies this, slots
      ensures Valid()
      ensures var g := Grown(old(slots[..]), old(entries)); var j := Target(g, hasher(key), key);
        && slots[..] == Put(g, j, hasher(key), key, value)
        && freed == old(freed) + (if g[j].Occupied? then [g[j].value] else [])
      ensures slots.Length == if Overloaded(old(entries), old(slots.Length)) then 2 * old(slots.Length) else old(slots.Length)
      ensures contents.Keys == old(contents).Keys + {key} && contents[key] == value
      ensures !Overloaded(old(entries), old(slots.Length)) || Unique(old(slots[..])) ==>
        contents == old(contents)[key := value]
      ensures key !in old(contents) ==> entries == old(entries) + 1
      ensures NoReleased(old(slots[..])) ==> (entries == old(entries) <==> key in old(contents))
      ensures NoReleased(old(slots[..])) ==> NoReleased(slots[..]) && (Unique(old(slots[..])) ==> Unique(slots[..]))
      ensures if Overloaded(old(entries), old(slots.Length)) then fresh(slots) else slots == old(slots)
    {
      ghost var c0 := contents;
      ResizeIfLoadFactorExceeded();
      ghost var c1 := contents;
      WriteEntry(key, value);
      assert contents.Keys == c1.Keys + {key} == c0.Keys + {key};
    }

    /**
     * The walk and the write of `hashmap_lp_insert`, on a table the load
     * check has left a free slot in: the key maps to the new value and
     * nothing else changes.
     */
    method WriteEntry(key: U64, value: V)
      requires Valid() && entries < slots.Length
      modifies this`entries, this`freed, this`contents, slots
      ensures Valid()
      ensures var s := old(slots[..]); var j := Target(s, hasher(key), key);
        && slots[..] == Put(s, j, hasher(key), key, value)
        && entries == old(entries) + (if s[j].Occupied? then 0 else 1)
        && freed == old(freed) + (if s[j].Occupied? then [s[j].value] else [])
      ensures contents == old(contents)[key := value]
      ensures key !in old(contents) ==> entries == old(entries) + 1
      ensures NoReleased(old(slots[..])) ==> (entries == old(entries) <==> key in old(contents))
      ensures NoReleased(old(slots[..])) ==> NoReleased(slots[..])
      ensures NoReleased(old(slots[..])) && Unique(old(slots[..])) ==> Unique(slots[..])
    {
      ghost var g := slots[..];
      var h: U64 := hasher(key);
      LinearPlaceSome(g, h, key);
      var idx := ProbePlace(slots, h, key);
      assert idx == Target(g, h, key);
      if slots[idx].Occupied? {
        freed := freed + [slots[idx].value];
        slots[idx] := slots[idx].(value := value);
      } else {
        slots[idx] := Occupied(h, key, value);
        entries := entries + 1;
      }
      assert slots[..] == Put(g, idx, h, key, value);
      PutFacts(g, slots[..], hasher, key, value, contents);
      contents := contents[key := value];
    }

    /**
     * `hashmap_lp_delete`: frees the value of the slot a lookup finds and
     * turns that slot into a tombstone.
     */
    method Delete(key: U64) returns (found: bool)
      requires Valid()
      modifies this`entries, this`freed, this`contents, slots
      ensures Valid()
      ensures var s := old(slots[..]); var r := Scan(s, Linear(|s|), hasher(key), key, 0, |s|);
        && found == r.Match?
        && (found ==>
          var j := Idx(Linear(|s|), |s|, hasher(key), r.t);
          slots[..] == s[j := Released] && entries == old(entries) - 1 && freed == old(freed) + [s[j].value])
        && (!found ==> slots[..] == s && entries == old(entries) && freed == old(freed) && contents == old(contents))
      ensures found <==> key in old(contents)
      ensures contents - {key} == old(contents) - {key}
      ensures Unique(old(slots[..])) ==> contents == old(contents) - {key}
    {
      ghost var s := slots[..];
      var n := slots.Length;
      ghost var rule := Linear(n);
      assert Lookup(contents, key) == Get(s, rule, hasher(key), key, n);
      var i := FindInner(slots, hasher(key), key);
      if i.None? {
        return false;
      }
      var idx := i.value;
      ReleaseInvariants(s, rule, hasher, idx);
      ReleaseView(s, rule, hasher, idx, n, contents);
      freed := freed + [slots[idx].value];
      slots[idx] := Released;
      entries := entries - 1;
      contents := View(slots[..], rule, hasher, n);
      found := true;
    }

    /** `hashmap_lp_clear`: frees every live value, in slot order, and empties its slot. */
    method Clear()
      requires Valid()
      modifies this`entries, this`freed, this`contents, slots
      ensures Valid()
      ensures slots[..] == Cleared(old(slots[..])) && entries == 0 && contents == map[]
      ensures freed == old(freed) + LiveValues(old(slots[..])) && |freed| == |old(freed)| + old(entries)
    {
      ghost var s := slots[..];
      LiveValuesCount(s);
      ClearedFacts(s, Linear(|s|), hasher, |s|);
      var released := ClearSlots(slots);
      freed := freed + released;
      entries := 0;
      contents := map[];
    }

    /** The per-value loop of `hashmap_lp_free`: every live value, in slot order, goes to `value_free`. */
    method Free()
      requires Valid()
      modifies this`freed
      ensures freed == old(freed) + LiveValues(slots[..]) && |freed| == |old(freed)| + entries
    {
      LiveValuesCount(slots[..]);
      var i := 0;
      while i < slots.Length
        invariant 0 <= i <= slots.Length
        invariant freed == old(freed) + LiveValues(slots[..i])
      {
        LiveValuesStep(slots[..], i);
        if slots[i].Occupied? {
          freed := freed + [slots[i].value];
        }
        i := i + 1;
      }
      assert slots[..i] == slots[..];
    }
  }

  /** The insert test begins: 999 lands in its home slot of a fresh map. */
  method InsertFirst(hasher: U64 -> U64) returns (m: HashMap<nat>)
    ensures fresh(m) && fresh(m.slots) && m.Valid() && m.hasher == hasher
    ensures m.entries == 1 && m.slots.Length == 10 && m.contents == map[999 := 5]
    ensures m.slots[hasher(999) % 10] == Occupied(hasher(999), 999, 5)
    ensures NoReleased(m.slots[..]) && Unique(m.slots[..])
  {
    m := new HashMap(hasher);
    LinearStep(10, hasher(999), 0);
    m.Insert(999, 5);
  }

  /** A second insert of 999 overwrites the value in the same slot and adds no entry. */
  method InsertAgain(m: HashMap<nat>)
    requires m.Valid() && m.entries == 1 && m.slots.Length == 10 && m.contents == map[999 := 5]
    requires m.slots[m.hasher(999) % 10] == Occupied(m.hasher(999), 999, 5)
    requires NoReleased(m.slots[..]) && Unique(m.slots[..])
    modifies m, m.slots
    ensures m.Valid() && m.slots == old(m.slots)
    ensures m.entries == 1 && m.contents == map[999 := 10]
    ensures m.slots[m.hasher(999) % 10] == Occupied(m.hasher(999), 999, 10)
    ensures NoReleased(m.slots[..]) && Unique(m.slots[..])
  {
    LinearStep(10, m.hasher(999), 0);
    m.Insert(999, 10);
  }

  /** Keys 2 to 7 each add an entry, and the ten slots are kept: seven entries stay below the load limit. */
  method FillToLimit(m: HashMap<nat>)
    requires m.Valid() && m.entries == 1 && m.slots.Length == 10 && m.contents == map[999 := 10]
    requires NoReleased(m.slots[..]) && Unique(m.slots[..])
    modifies m, m.slots
    ensures m.Valid() && m.entries == 7 && m.slots == old(m.slots)
    ensures NoReleased(m.slots[..]) && Unique(m.slots[..])
    ensures forall k :: k in m.contents <==> k == 999 || 2 <= k < 8
    ensures m.contents[999] == 10 && forall k :: 2 <= k < 8 ==> m.contents[k] == 0
  {
    for i := 2 to 8
      invariant m.Valid() && m.slots == old(m.slots)
      invariant m.entries == i - 1 && m.slots.Length == 10
      invariant NoReleased(m.slots[..]) && Unique(m.slots[..])
      invariant forall k :: k in m.contents <==> k == 999 || 2 <= k < i
      invariant m.contents[999] == 10 && forall k :: 2 <= k < i ==> m.contents[k] == 0
    {
      ghost var c := m.contents;
      assert !Overloaded(m.entries, m.slots.Length);
      m.Insert(i, 0);
      assert m.contents == c[i := 0];
    }
  }

  /** The end of the insert test: with seven entries in ten slots, inserting 8 doubles the table to twenty. */
  method InsertEighth(m: HashMap<nat>)
    requires m.Valid() && m.entries == 7 && m.slots.Length == 10
    requires NoReleased(m.slots[..]) && Unique(m.slots[..])
    requires forall k :: k in m.contents <==> k == 999 || 2 <= k < 8
    requires m.contents[999] == 10 && forall k :: 2 <= k < 8 ==> m.contents[k] == 0
    modifies m, m.slots
    ensures m.Valid() && m.entries == 8 && m.slots.Length == 20
    ensures m.contents == old(m.contents)[8 := 0]
  {
    m.Insert(8, 0);
  }

  /**
   * The insert test: 999 in its home slot, overwritten in place; keys 2 to 7
   * fill the ten slots up to the load limit; key 8 doubles the table.
   */
  method InsertScenario(hasher: U64 -> U64) returns (m: HashMap<nat>)
    ensures m.Valid() && m.entries == 8 && m.slots.Length == 20
    ensures forall k :: k in m.contents <==> k == 999 || 2 <= k <= 8
    ensures m.contents[999] == 10 && forall k :: 2 <= k <= 8 ==> m.contents[k] == 0
  {
    m := InsertFirst(hasher);
    InsertAgain(m);
    FillToLimit(m);
    InsertEighth(m);
  }

  /** The set-up of the find test: 666 and 777 inserted into a fresh map. */
  method FindSetUp(hasher: U64 -> U64) returns (m: HashMap<nat>)
    ensures fresh(m) && fresh(m.slots) && m.Valid() && m.entries == 1 && m.slots.Length == 10
    ensures m.contents == map[666 := 5]
  {
    m := new HashMap(hasher);
    m.Insert(666, 5);
  }

  /** The find test: after inserting 666 and 777, 777 is found and 6666 is not. */
  method FindScenario(hasher: U64 -> U64) returns (found: Option<nat>, missing: Option<nat>)
    ensures found == Some(10) && missing == None
  {
    var m := FindSetUp(hasher);
    m.Insert(777, 10);
    found := m.Find(777);
    missing := m.Find(6666);
  }

  /** The delete test begins: 555 inserted into a fresh map. */
  method DeleteFirst(hasher: U64 -> U64) returns (m: HashMap<nat>)
    ensures fresh(m) && fresh(m.slots) && m.Valid() && m.hasher == hasher
    ensures m.entries == 1 && m.slots.Length == 10 && m.contents == map[555 := 0]
    ensures m.slots[hasher(555) % 10] == Occupied(hasher(555), 555, 0)
    ensures forall i :: 0 <= i < 10 && i != hasher(555) % 10 ==> m.slots[i].Vacant?
  {
    m := new HashMap(hasher);
    LinearStep(10, hasher(555), 0);
    m.Insert(555, 0);
  }

  /** The set-up of the delete test: 777 joins 555, in its own home slot. */
  method DeleteSetUp(hasher: U64 -> U64) returns (m: HashMap<nat>)
    requires hasher(555) % 10 != hasher(777) % 10
    ensures fresh(m) && fresh(m.slots) && m.Valid() && m.hasher == hasher
    ensures m.entries == 2 && m.slots.Length == 10 && m.contents == map[555 := 0, 777 := 0]
    ensures m.slots[hasher(777) % 10] == Occupied(hasher(777), 777, 0)
    ensures NoReleased(m.slots[..]) && Unique(m.slots[..])
  {
    m := DeleteFirst(hasher);
    ghost var s := m.slots[..];
    LinearStep(10, hasher(777), 0);
    assert !Overloaded(1, 10) && Grown(s, 1) == s;
    assert Place(s, Linear(10), hasher(777), 777, 0, 10) == Some(0);
    m.Insert(777, 0);
  }

  /** The first delete of the delete test: 777 is found in its home slot, which becomes a tombstone. */
  method DeleteHome(m: HashMap<nat>) returns (found: bool)
    requires m.Valid() && m.entries == 2 && m.slots.Length == 10 && m.contents == map[555 := 0, 777 := 0]
    requires m.slots[m.hasher(777) % 10] == Occupied(m.hasher(777), 777, 0)
    requires NoReleased(m.slots[..]) && Unique(m.slots[..])
    modifies m, m.slots
    ensures found && m.Valid() && m.entries == 1 && m.contents == map[555 := 0]
    ensures m.slots == old(m.slots) && m.slots[m.hasher(777) % 10].Released?
  {
    LinearStep(10, m.hasher(777), 0);
    found := m.Delete(777);
  }

  /**
   * The delete test: deleting 777 releases its home slot, a second delete
   * of 777 and a delete of 888 fail, and one entry is left.
   */
  method DeleteScenario(hasher: U64 -> U64) returns (first: bool, again: bool, absent: bool, m: HashMap<nat>)
    requires hasher(555) % 10 != hasher(777) % 10
    ensures first && !again && !absent
    ensures m.Valid() && m.entries == 1 && m.slots[hasher(777) % 10].Released?
  {
    m := DeleteSetUp(hasher);
    first := DeleteHome(m);
    again := m.Delete(777);
    assert m.contents == map[555 := 0];
    absent := m.Delete(888);
  }
}
