/**
 * The slot state machine and the probe-sequence algorithms shared by the
 * linear-probing, quadratic-probing and double-hashing engines.
 *
 * A probe rule maps a cached hash `h` and a probe number `t` to a raw
 * position; the table reduces it modulo its slot count. Each engine supplies
 * its own rule (its cached hash type `H` is `U64` for one hash, a pair for
 * double hashing). Lookup (`Scan`), insertion (`Place`) and rehash
 * (`FirstFree`, `RehashFrom`) are spec functions over the slot sequence; the
 * engines' methods are proved to compute them.
 */
module OpenAddressing {
  import opened Common

  /**
   * One storage cell. `Vacant` (never used since the last clear or resize)
   * stops a lookup; `Released` (a tombstone) is skipped by a lookup but
   * reused by an insert.
   */
  datatype Slot<H, V> = Vacant | Occupied(hash: H, key: U64, value: V) | Released

  /**
   * The 0.7 load check of the linear- and quadratic-probing inserts,
   * `1. * entries / slots >= 0.7`, holds. With both counts
   * below 2^32 the double division is far finer than the gap between
   * `entries / slots` and 0.7, so the test is exactly `10 * entries >= 7 * slots`.
   */
  predicate Overloaded(entries: nat, n: nat) {
    10 * entries >= 7 * n
  }

  /** Slot index examined by probe number `t` in a table of `n` slots. */
  function Idx<H>(rule: (H, nat) -> nat, n: nat, h: H, t: nat): (i: nat)
    requires n > 0
    ensures i < n
  {
    rule(h, t) % n
  }

  /** The slot holds `key`. */
  predicate Hit<H, V>(x: Slot<H, V>, key: U64) {
    x.Occupied? && x.key == key
  }

  /** The slot holds another key: an insert of `key` must probe on. */
  predicate Crowded<H, V>(x: Slot<H, V>, key: U64) {
    x.Occupied? && x.key != key
  }

  /** A lookup of `key` moves past the slot. */
  predicate Passable<H, V>(x: Slot<H, V>, key: U64) {
    x.Released? || Crowded(x, key)
  }

  /** Where a lookup stops: at the probe number of a hit, of a vacant slot, or after the bound. */
  datatype Stop = Match(t: nat) | Hole(t: nat) | Exhausted

  /**
   * The lookup loop: examines probes `t`, `t + 1`, ..., `bound - 1` and stops
   * at the first slot that holds `key` or is vacant.
   */
  function Scan<H, V>(s: seq<Slot<H, V>>, rule: (H, nat) -> nat, h: H, key: U64, t: nat, bound: nat): (r: Stop)
    requires |s| > 0
    ensures r.Match? ==> t <= r.t < bound && Hit(s[Idx(rule, |s|, h, r.t)], key)
    ensures r.Hole? ==> t <= r.t < bound && s[Idx(rule, |s|, h, r.t)].Vacant?
    ensures r.Exhausted? || r.Match? || r.Hole?
    ensures forall u :: t <= u < (if r.Exhausted? then bound else r.t) ==> Passable(s[Idx(rule, |s|, h, u)], key)
    decreases bound - t
  {
    if t >= bound then Exhausted
    else
      var x := s[Idx(rule, |s|, h, t)];
      if x.Vacant? then Hole(t)
      else if Hit(x, key) then Match(t)
      else Scan(s, rule, h, key, t + 1, bound)
  }

  /** The value a lookup of `key` (cached hash `h`) returns within `bound` probes. */
  function Get<H, V>(s: seq<Slot<H, V>>, rule: (H, nat) -> nat, h: H, key: U64, bound: nat): (r: Option<V>)
    requires |s| > 0
    ensures r.Some? ==> exists i :: 0 <= i < |s| && Hit(s[i], key) && s[i].value == r.value
  {
    match Scan(s, rule, h, key, 0, bound)
    case Match(t) => Some(s[Idx(rule, |s|, h, t)].value)
    case _ => None
  }

  /**
   * The insert loop: the first probe in `t .. bound - 1` whose slot is not
   * occupied, or is occupied by `key` itself.
   */
  function Place<H, V>(s: seq<Slot<H, V>>, rule: (H, nat) -> nat, h: H, key: U64, t: nat, bound: nat): (r: Option<nat>)
    requires |s| > 0
    ensures r.Some? ==> t <= r.value < bound && !Crowded(s[Idx(rule, |s|, h, r.value)], key)
    ensures forall u :: t <= u < (if r.None? then bound else r.value) ==> Crowded(s[Idx(rule, |s|, h, u)], key)
    decreases bound - t
  {
    if t >= bound then None
    else if Crowded(s[Idx(rule, |s|, h, t)], key) then Place(s, rule, h, key, t + 1, bound)
    else Some(t)
  }

  /** The rehash loop: the first probe in `t .. reach - 1` whose slot is not occupied. */
  function FirstFree<H, V>(s: seq<Slot<H, V>>, rule: (H, nat) -> nat, h: H, t: nat, reach: nat): (r: Option<nat>)
    requires |s| > 0
    ensures r.Some? ==> t <= r.value < reach && !s[Idx(rule, |s|, h, r.value)].Occupied?
    ensures forall u :: t <= u < (if r.None? then reach else r.value) ==> s[Idx(rule, |s|, h, u)].Occupied?
    decreases reach - t
  {
    if t >= reach then None
    else if s[Idx(rule, |s|, h, t)].Occupied? then FirstFree(s, rule, h, t + 1, reach)
    else Some(t)
  }

  /**
   * What an insert writes into the slot `j` that `Place` chose: a hit only
   * gets the new value, any other slot becomes occupied by the new entry.
   */
  function Put<H, V>(s: seq<Slot<H, V>>, j: nat, h: H, key: U64, v: V): (r: seq<Slot<H, V>>)
    requires j < |s|
    ensures |r| == |s| && r[j] == Occupied(if s[j].Occupied? then s[j].hash else h, if s[j].Occupied? then s[j].key else key, v)
    ensures forall i :: 0 <= i < |s| && i != j ==> r[i] == s[i]
  {
    if s[j].Occupied? then s[j := s[j].(value := v)] else s[j := Occupied(h, key, v)]
  }

  /** The table a clear leaves: every occupied slot vacant, tombstones kept. */
  function Cleared<H, V>(s: seq<Slot<H, V>>): (r: seq<Slot<H, V>>)
    ensures |r| == |s|
    ensures forall i :: 0 <= i < |s| ==> r[i] == (if s[i].Occupied? then Vacant else s[i])
  {
    seq(|s|, i requires 0 <= i < |s| => if s[i].Occupied? then Vacant else s[i])
  }

  /** The keys of the occupied slots. */
  ghost function Keys<H, V>(s: seq<Slot<H, V>>): set<U64> {
    set i | 0 <= i < |s| && s[i].Occupied? :: s[i].key
  }

  /** The key-value map `m` gives, for every key, what a lookup in the table returns. */
  ghost predicate Presents<H, V>(s: seq<Slot<H, V>>, rule: (H, nat) -> nat, hashOf: U64 -> H, bound: nat, m: map<U64, V>)
    requires |s| > 0
  {
    forall k {:trigger Lookup(m, k)} :: Lookup(m, k) == Get(s, rule, hashOf(k), k, bound)
  }

  /** Every table presents a map: the keys a lookup finds, with the values it returns. */
  lemma PresentsSome<H, V>(s: seq<Slot<H, V>>, rule: (H, nat) -> nat, hashOf: U64 -> H, bound: nat)
    requires |s| > 0
    ensures exists m :: Presents(s, rule, hashOf, bound, m)
  {
    var m := map k | k in Keys(s) && Get(s, rule, hashOf(k), k, bound).Some? :: Get(s, rule, hashOf(k), k, bound).value;
    assert forall k :: Get(s, rule, hashOf(k), k, bound).Some? ==> k in Keys(s);
    assert Presents(s, rule, hashOf, bound, m);
  }

  /** The key-value map a table presents. */
  ghost function View<H, V>(s: seq<Slot<H, V>>, rule: (H, nat) -> nat, hashOf: U64 -> H, bound: nat): (m: map<U64, V>)
    requires |s| > 0
    ensures Presents(s, rule, hashOf, bound, m)
  {
    PresentsSome(s, rule, hashOf, bound);
    var m :| Presents(s, rule, hashOf, bound, m);
    m
  }

  /** A table presents one map only. */
  lemma PresentsUnique<H, V>(s: seq<Slot<H, V>>, rule: (H, nat) -> nat, hashOf: U64 -> H, bound: nat, m: map<U64, V>, m': map<U64, V>)
    requires |s| > 0 && Presents(s, rule, hashOf, bound, m) && Presents(s, rule, hashOf, bound, m')
    ensures m == m'
  {
    LookupExtensional(m, m');
  }

  /** The occupied slots, as a multiset: the live entries of the table. */
  ghost function Occupants<H, V>(s: seq<Slot<H, V>>): multiset<Slot<H, V>> {
    if s == [] then multiset{} else Single(s[0]) + Occupants(s[1..])
  }

  ghost function Single<H, V>(x: Slot<H, V>): multiset<Slot<H, V>> {
    if x.Occupied? then multiset{x} else multiset{}
  }

  /** The number of occupied slots, which every engine keeps in `entries_count`. */
  ghost function Count<H, V>(s: seq<Slot<H, V>>): nat {
    |Occupants(s)|
  }

  /** The values of the occupied slots in slot order: what clear and free hand to `value_free`. */
  function LiveValues<H, V>(s: seq<Slot<H, V>>): seq<V> {
    if s == [] then [] else (if s[0].Occupied? then [s[0].value] else []) + LiveValues(s[1..])
  }

  /** Every occupied slot caches the hash of its key. */
  ghost predicate Cached<H, V>(s: seq<Slot<H, V>>, hashOf: U64 -> H) {
    forall i :: 0 <= i < |s| && s[i].Occupied? ==> s[i].hash == hashOf(s[i].key)
  }

  predicate NoReleased<H, V>(s: seq<Slot<H, V>>) {
    forall i :: 0 <= i < |s| ==> !s[i].Released?
  }

  /** No key is held by two occupied slots. */
  ghost predicate Unique<H, V>(s: seq<Slot<H, V>>) {
    forall i, j :: 0 <= i < |s| && 0 <= j < |s| && s[j].Occupied? && Hit(s[i], s[j].key) ==> i == j
  }

  /**
   * Every occupied slot lies on its own probe sequence after probes that are
   * all non-vacant: a vacant slot never cuts a live entry off from its home.
   */
  ghost predicate Reachable<H, V>(s: seq<Slot<H, V>>, rule: (H, nat) -> nat) {
    |s| > 0 &&
    forall i :: 0 <= i < |s| && s[i].Occupied? ==>
      exists t: nat :: Idx(rule, |s|, s[i].hash, t) == i &&
        forall u: nat :: u < t ==> !s[Idx(rule, |s|, s[i].hash, u)].Vacant?
  }

  /** Rehash: each occupied slot of `prev[i..]`, in index order, into the first free slot of its sequence. */
  function RehashFrom<H, V>(prev: seq<Slot<H, V>>, i: nat, acc: seq<Slot<H, V>>, rule: (H, nat) -> nat, reach: nat): (r: Option<seq<Slot<H, V>>>)
    requires i <= |prev| && |acc| > 0
    ensures r.Some? ==> |r.value| == |acc|
    decreases |prev| - i
  {
    if i == |prev| then Some(acc)
    else if !prev[i].Occupied? then RehashFrom(prev, i + 1, acc, rule, reach)
    else match FirstFree(acc, rule, prev[i].hash, 0, reach)
      case None => None
      case Some(t) => RehashFrom(prev, i + 1, acc[Idx(rule, |acc|, prev[i].hash, t) := prev[i]], rule, reach)
  }

  /** A freshly allocated (zeroed) table: `n` vacant slots. */
  function Empty<H, V>(n: nat): (r: seq<Slot<H, V>>)
    ensures |r| == n && forall i :: 0 <= i < n ==> r[i].Vacant?
  {
    seq(n, _ => Vacant)
  }

  /** A resize into a fresh table of `n` vacant slots. */
  function Rehash<H, V>(prev: seq<Slot<H, V>>, rule: (H, nat) -> nat, n: nat, reach: nat): (r: Option<seq<Slot<H, V>>>)
    requires n > 0
    ensures r.Some? ==> |r.value| == n
  {
    RehashFrom(prev, 0, Empty(n), rule, reach)
  }

  // ---------------------------------------------------------------------
  // Counting and collecting the live entries
  // ---------------------------------------------------------------------

  lemma {:induction false} OccupantsConcat<H, V>(a: seq<Slot<H, V>>, b: seq<Slot<H, V>>)
    ensures Occupants(a + b) == Occupants(a) + Occupants(b)
  {
    if a != [] {
      assert (a + b)[1..] == a[1..] + b;
      OccupantsConcat(a[1..], b);
    } else {
      assert a + b == b;
    }
  }

  lemma {:induction false} LiveValuesConcat<H, V>(a: seq<Slot<H, V>>, b: seq<Slot<H, V>>)
    ensures LiveValues(a + b) == LiveValues(a) + LiveValues(b)
  {
    if a != [] {
      assert (a + b)[1..] == a[1..] + b;
      LiveValuesConcat(a[1..], b);
    } else {
      assert a + b == b;
    }
  }

  /** The values collected from the first `i + 1` slots: those of the first `i`, then slot `i`'s if it is live. */
  lemma LiveValuesStep<H, V>(s: seq<Slot<H, V>>, i: nat)
    requires i < |s|
    ensures LiveValues(s[..i + 1]) == LiveValues(s[..i]) + (if s[i].Occupied? then [s[i].value] else [])
  {
    assert s[..i + 1] == s[..i] + [s[i]];
    LiveValuesConcat(s[..i], [s[i]]);
    assert [s[i]][1..] == [];
  }

  lemma OccupantsSplit<H, V>(s: seq<Slot<H, V>>, j: nat)
    requires j < |s|
    ensures Occupants(s) == Occupants(s[..j]) + Single(s[j]) + Occupants(s[j + 1..])
  {
    assert s == s[..j] + s[j..];
    OccupantsConcat(s[..j], s[j..]);
    assert s[j..][0] == s[j] && s[j..][1..] == s[j + 1..];
  }

  /** Writing one slot changes the live entries by exactly that slot. */
  lemma OccupantsUpdate<H, V>(s: seq<Slot<H, V>>, j: nat, x: Slot<H, V>)
    requires j < |s|
    ensures Occupants(s[j := x]) == Occupants(s) - Single(s[j]) + Single(x)
  {
    var s' := s[j := x];
    OccupantsSplit(s, j);
    OccupantsSplit(s', j);
    assert s'[..j] == s[..j] && s'[j + 1..] == s[j + 1..];
  }

  lemma {:induction false} CountBound<H, V>(s: seq<Slot<H, V>>)
    ensures Count(s) <= |s|
    ensures Count(s) == |s| <==> forall i :: 0 <= i < |s| ==> s[i].Occupied?
  {
    if s != [] {
      CountBound(s[1..]);
      assert forall i :: 1 <= i < |s| ==> s[i] == s[1..][i - 1];
    }
  }

  lemma {:induction false} CountEmpty<H, V>(s: seq<Slot<H, V>>)
    ensures Count(s) == 0 <==> forall i :: 0 <= i < |s| ==> !s[i].Occupied?
  {
    if s != [] {
      CountEmpty(s[1..]);
      assert forall i :: 1 <= i < |s| ==> s[i] == s[1..][i - 1];
    }
  }

  /** Every live slot is in `Occupants`, and only those. */
  lemma {:induction false} OccupantsMembers<H, V>(s: seq<Slot<H, V>>, x: Slot<H, V>)
    ensures x in Occupants(s) <==> x.Occupied? && x in s
  {
    if s != [] {
      OccupantsMembers(s[1..], x);
      assert s == [s[0]] + s[1..];
    }
  }

  // ---------------------------------------------------------------------
  // Lookup after a write
  // ---------------------------------------------------------------------

  /** A write that keeps the changed slot passable for `key` does not change a lookup of `key`. */
  lemma {:induction false} ScanPassableWrite<H, V>(s: seq<Slot<H, V>>, s': seq<Slot<H, V>>, j: nat, rule: (H, nat) -> nat, h: H, key: U64, t: nat, bound: nat)
    requires |s| == |s'| > 0 && j < |s|
    requires forall i :: 0 <= i < |s| && i != j ==> s'[i] == s[i]
    requires Passable(s[j], key) && Passable(s'[j], key)
    ensures Scan(s', rule, h, key, t, bound) == Scan(s, rule, h, key, t, bound)
    decreases bound - t
  {
    if t < bound {
      ScanPassableWrite(s, s', j, rule, h, key, t + 1, bound);
    }
  }

  /** A write to a vacant slot that a lookup never reaches does not change the lookup. */
  lemma {:induction false} ScanVacantWrite<H, V>(s: seq<Slot<H, V>>, s': seq<Slot<H, V>>, j: nat, rule: (H, nat) -> nat, h: H, key: U64, t: nat, bound: nat)
    requires |s| == |s'| > 0 && j < |s|
    requires forall i :: 0 <= i < |s| && i != j ==> s'[i] == s[i]
    requires s[j].Vacant? && !Scan(s, rule, h, key, t, bound).Hole?
    ensures Scan(s', rule, h, key, t, bound) == Scan(s, rule, h, key, t, bound)
    decreases bound - t
  {
    if t < bound && !Hit(s[Idx(rule, |s|, h, t)], key) {
      ScanVacantWrite(s, s', j, rule, h, key, t + 1, bound);
    }
  }

  /** A scan that passes every probe before a hit at probe `m` stops there. */
  lemma {:induction false} ScanReaches<H, V>(s: seq<Slot<H, V>>, rule: (H, nat) -> nat, h: H, key: U64, t: nat, m: nat, bound: nat)
    requires |s| > 0 && t <= m < bound
    requires forall u :: t <= u < m ==> Passable(s[Idx(rule, |s|, h, u)], key)
    requires Hit(s[Idx(rule, |s|, h, m)], key)
    ensures Scan(s, rule, h, key, t, bound) == Match(m)
    decreases m - t
  {
    if t < m {
      ScanReaches(s, rule, h, key, t + 1, m, bound);
    }
  }

  /**
   * Completeness of lookup: when every live entry is reachable, a lookup of
   * a key that some slot holds (with its cached hash) never stops at a
   * vacant slot.
   */
  lemma LiveNotCutOff<H, V>(s: seq<Slot<H, V>>, rule: (H, nat) -> nat, key: U64, bound: nat, i: nat)
    requires Reachable(s, rule) && i < |s| && Hit(s[i], key)
    ensures !Scan(s, rule, s[i].hash, key, 0, bound).Hole?
  {
    var t: nat :| Idx(rule, |s|, s[i].hash, t) == i &&
      forall u: nat :: u < t ==> !s[Idx(rule, |s|, s[i].hash, u)].Vacant?;
  }

  /** Round trip: after the insert writes the slot `Place` chose, a lookup of the key finds the new value. */
  lemma PlaceThenGet<H, V>(s: seq<Slot<H, V>>, rule: (H, nat) -> nat, h: H, key: U64, v: V, bound: nat)
    requires |s| > 0 && Place(s, rule, h, key, 0, bound).Some?
    ensures var j := Idx(rule, |s|, h, Place(s, rule, h, key, 0, bound).value);
      Get(Put(s, j, h, key, v), rule, h, key, bound) == Some(v)
  {
    var t := Place(s, rule, h, key, 0, bound).value;
    var j := Idx(rule, |s|, h, t);
    var s' := Put(s, j, h, key, v);
    forall u | 0 <= u < t ensures Passable(s'[Idx(rule, |s|, h, u)], key) {
      assert Crowded(s[Idx(rule, |s|, h, u)], key);
    }
    ScanReaches(s', rule, h, key, 0, t, bound);
  }

  /**
   * An insert leaves the lookup of every other key unchanged, provided live
   * entries are reachable and cache their key's hash.
   */
  lemma PutKeepsOthers<H, V>(s: seq<Slot<H, V>>, rule: (H, nat) -> nat, hashOf: U64 -> H, key: U64, v: V, bound: nat, other: U64)
    requires Reachable(s, rule) && Cached(s, hashOf)
    requires Place(s, rule, hashOf(key), key, 0, bound).Some?
    requires other != key
    ensures var j := Idx(rule, |s|, hashOf(key), Place(s, rule, hashOf(key), key, 0, bound).value);
      Get(Put(s, j, hashOf(key), key, v), rule, hashOf(other), other, bound) == Get(s, rule, hashOf(other), other, bound)
  {
    var h := hashOf(key);
    var j := Idx(rule, |s|, h, Place(s, rule, h, key, 0, bound).value);
    var s' := Put(s, j, h, key, v);
    var h' := hashOf(other);
    if !s[j].Vacant? {
      ScanPassableWrite(s, s', j, rule, h', other, 0, bound);
    } else if i :| 0 <= i < |s| && Hit(s[i], other) {
      LiveNotCutOff(s, rule, other, bound, i);
      ScanVacantWrite(s, s', j, rule, h', other, 0, bound);
    } else {
      assert forall i :: 0 <= i < |s'| ==> !Hit(s'[i], other);
    }
  }

  /**
   * An insert seen on the map a table presents: the key now maps to the new
   * value and nothing else changes.
   */
  lemma PutView<H, V>(s: seq<Slot<H, V>>, rule: (H, nat) -> nat, hashOf: U64 -> H, key: U64, v: V, bound: nat, m: map<U64, V>)
    requires |s| > 0 && Reachable(s, rule) && Cached(s, hashOf)
    requires Place(s, rule, hashOf(key), key, 0, bound).Some?
    requires Presents(s, rule, hashOf, bound, m)
    ensures var j := Idx(rule, |s|, hashOf(key), Place(s, rule, hashOf(key), key, 0, bound).value);
      Presents(Put(s, j, hashOf(key), key, v), rule, hashOf, bound, m[key := v])
  {
    var h := hashOf(key);
    var j := Idx(rule, |s|, h, Place(s, rule, h, key, 0, bound).value);
    var s' := Put(s, j, h, key, v);
    PlaceThenGet(s, rule, h, key, v, bound);
    forall k ensures Lookup(m[key := v], k) == Get(s', rule, hashOf(k), k, bound) {
      if k != key {
        PutKeepsOthers(s, rule, hashOf, key, v, bound, k);
        assert Lookup(m, k) == Get(s, rule, hashOf(k), k, bound);
      }
    }
  }

  /**
   * The slot an insert writes is live only when the key was present, with
   * the value the map gave it, and, without tombstones, it is live whenever
   * the key was present.
   */
  lemma PutSlot<H, V>(s: seq<Slot<H, V>>, rule: (H, nat) -> nat, hashOf: U64 -> H, key: U64, bound: nat, m: map<U64, V>)
    requires |s| > 0 && Place(s, rule, hashOf(key), key, 0, bound).Some?
    requires Presents(s, rule, hashOf, bound, m)
    ensures var j := Idx(rule, |s|, hashOf(key), Place(s, rule, hashOf(key), key, 0, bound).value);
      && (s[j].Occupied? ==> key in m && m[key] == s[j].value)
      && (NoReleased(s) && key in m ==> s[j].Occupied?)
  {
    var h := hashOf(key);
    PlaceOnLive(s, rule, h, key, bound);
    FoundPlacesOnLive(s, rule, h, key, bound);
    assert Lookup(m, key) == Get(s, rule, h, key, bound);
  }

  // ---------------------------------------------------------------------
  // The reachability invariant
  // ---------------------------------------------------------------------

  /**
   * Occupying the first non-occupied slot of a probe sequence keeps every
   * live entry reachable.
   */
  lemma ReachableAfterOccupy<H, V>(s: seq<Slot<H, V>>, rule: (H, nat) -> nat, h: H, t: nat, x: Slot<H, V>)
    requires Reachable(s, rule)
    requires forall u: nat :: u < t ==> s[Idx(rule, |s|, h, u)].Occupied?
    requires !s[Idx(rule, |s|, h, t)].Occupied?
    requires x.Occupied? && x.hash == h
    ensures Reachable(s[Idx(rule, |s|, h, t) := x], rule)
  {
    var j := Idx(rule, |s|, h, t);
    var s' := s[j := x];
    forall i | 0 <= i < |s'| && s'[i].Occupied?
      ensures exists w: nat :: (Idx(rule, |s'|, s'[i].hash, w) == i &&
        forall u: nat :: u < w ==> !s'[Idx(rule, |s'|, s'[i].hash, u)].Vacant?)
    {
      if i == j {
        forall u: nat | u < t ensures !s'[Idx(rule, |s'|, h, u)].Vacant? {
          assert s[Idx(rule, |s|, h, u)].Occupied?;
        }
      } else {
        var w: nat :| Idx(rule, |s|, s[i].hash, w) == i &&
          forall u: nat :: u < w ==> !s[Idx(rule, |s|, s[i].hash, u)].Vacant?;
        assert forall u: nat :: u < w ==> !s'[Idx(rule, |s'|, s'[i].hash, u)].Vacant?;
      }
    }
  }

  /**
   * A write that makes no slot vacant and only changes the value of, or
   * releases, a live entry keeps every live entry reachable.
   */
  lemma ReachableAfterWrite<H, V>(s: seq<Slot<H, V>>, rule: (H, nat) -> nat, j: nat, x: Slot<H, V>)
    requires Reachable(s, rule) && j < |s| && s[j].Occupied?
    requires x.Released? || (x.Occupied? && x.hash == s[j].hash)
    ensures Reachable(s[j := x], rule)
  {
    var s' := s[j := x];
    forall i | 0 <= i < |s'| && s'[i].Occupied?
      ensures exists w: nat :: (Idx(rule, |s'|, s'[i].hash, w) == i &&
        forall u: nat :: u < w ==> !s'[Idx(rule, |s'|, s'[i].hash, u)].Vacant?)
    {
      var w: nat :| Idx(rule, |s|, s[i].hash, w) == i &&
        forall u: nat :: u < w ==> !s[Idx(rule, |s|, s[i].hash, u)].Vacant?;
      assert forall u: nat :: u < w ==> !s'[Idx(rule, |s'|, s'[i].hash, u)].Vacant?;
    }
  }

  /** Insert keeps the invariants: reachability, cached hashes, and the live-entry count. */
  lemma PutInvariants<H, V>(s: seq<Slot<H, V>>, rule: (H, nat) -> nat, hashOf: U64 -> H, key: U64, v: V, bound: nat)
    requires Reachable(s, rule) && Cached(s, hashOf)
    requires Place(s, rule, hashOf(key), key, 0, bound).Some?
    ensures var j := Idx(rule, |s|, hashOf(key), Place(s, rule, hashOf(key), key, 0, bound).value);
      var s' := Put(s, j, hashOf(key), key, v);
      && Reachable(s', rule) && Cached(s', hashOf)
      && Count(s') == Count(s) + (if s[j].Occupied? then 0 else 1)
  {
    var h := hashOf(key);
    var t := Place(s, rule, h, key, 0, bound).value;
    var j := Idx(rule, |s|, h, t);
    var s' := Put(s, j, h, key, v);
    PutCount(s, j, h, key, v);
    if s[j].Occupied? {
      ReachableAfterWrite(s, rule, j, s'[j]);
    } else {
      ReachableAfterOccupy(s, rule, h, t, s'[j]);
    }
  }

  /**
   * The write of an insert, as a whole: the table it leaves keeps the
   * invariants, presents the map with `key` set to `v`, and counts one more
   * entry exactly when the slot written was not live; a live slot written
   * held `key`, with the value the map had for it.
   */
  lemma WriteFacts<H, V>(g: seq<Slot<H, V>>, s': seq<Slot<H, V>>, rule: (H, nat) -> nat, hashOf: U64 -> H, key: U64, v: V, bound: nat, m: map<U64, V>, j: nat)
    requires |g| > 0 && Reachable(g, rule) && Cached(g, hashOf) && Presents(g, rule, hashOf, bound, m)
    requires Place(g, rule, hashOf(key), key, 0, bound).Some?
    requires j == Idx(rule, |g|, hashOf(key), Place(g, rule, hashOf(key), key, 0, bound).value)
    requires s' == Put(g, j, hashOf(key), key, v)
    ensures |s'| == |g| && Count(s') == Count(g) + (if g[j].Occupied? then 0 else 1)
    ensures Reachable(s', rule) && Cached(s', hashOf) && Presents(s', rule, hashOf, bound, m[key := v])
    ensures g[j].Occupied? ==> key in m && m[key] == g[j].value
    ensures NoReleased(g) && key in m ==> g[j].Occupied?
  {
    PutView(g, rule, hashOf, key, v, bound, m);
    PutSlot(g, rule, hashOf, key, bound, m);
    PutInvariants(g, rule, hashOf, key, v, bound);
  }

  lemma PutCount<H, V>(s: seq<Slot<H, V>>, j: nat, h: H, key: U64, v: V)
    requires j < |s|
    ensures Count(Put(s, j, h, key, v)) == Count(s) + (if s[j].Occupied? then 0 else 1)
  {
    var s' := Put(s, j, h, key, v);
    assert s' == s[j := s'[j]];
    OccupantsUpdate(s, j, s'[j]);
    OccupantsMembers(s, s[j]);
    var a := Occupants(s) - Single(s[j]);
    assert |a| == |Occupants(s)| - |Single(s[j])|;
  }

  // ---------------------------------------------------------------------
  // Rehash
  // ---------------------------------------------------------------------

  /** Rehash carries every live entry of `prev[i..]`, and nothing else, into `acc`. */
  lemma {:induction false} RehashFromOccupants<H, V>(prev: seq<Slot<H, V>>, i: nat, acc: seq<Slot<H, V>>, rule: (H, nat) -> nat, reach: nat)
    requires i <= |prev| && |acc| > 0
    requires RehashFrom(prev, i, acc, rule, reach).Some?
    ensures Occupants(RehashFrom(prev, i, acc, rule, reach).value) == Occupants(acc) + Occupants(prev[i..])
    decreases |prev| - i
  {
    if i < |prev| {
      assert prev[i..][0] == prev[i] && prev[i..][1..] == prev[i + 1..];
      if !prev[i].Occupied? {
        RehashFromOccupants(prev, i + 1, acc, rule, reach);
      } else {
        var t := FirstFree(acc, rule, prev[i].hash, 0, reach).value;
        var j := Idx(rule, |acc|, prev[i].hash, t);
        OccupantsUpdate(acc, j, prev[i]);
        RehashFromOccupants(prev, i + 1, acc[j := prev[i]], rule, reach);
      }
    }
  }

  /**
   * Rehash drops tombstones, and the entries it places stay reachable and
   * keep their cached hashes.
   */
  lemma {:induction false} RehashFromShape<H, V>(prev: seq<Slot<H, V>>, i: nat, acc: seq<Slot<H, V>>, rule: (H, nat) -> nat, reach: nat, hashOf: U64 -> H)
    requires i <= |prev| && |acc| > 0
    requires RehashFrom(prev, i, acc, rule, reach).Some?
    requires Reachable(acc, rule) && NoReleased(acc)
    requires Cached(acc, hashOf) && Cached(prev, hashOf)
    ensures var r := RehashFrom(prev, i, acc, rule, reach).value;
      Reachable(r, rule) && NoReleased(r) && Cached(r, hashOf)
    decreases |prev| - i
  {
    if i < |prev| {
      if !prev[i].Occupied? {
        RehashFromShape(prev, i + 1, acc, rule, reach, hashOf);
      } else {
        var t := FirstFree(acc, rule, prev[i].hash, 0, reach).value;
        var j := Idx(rule, |acc|, prev[i].hash, t);
        ReachableAfterOccupy(acc, rule, prev[i].hash, t, prev[i]);
        RehashFromShape(prev, i + 1, acc[j := prev[i]], rule, reach, hashOf);
      }
    }
  }

  /** Rehash into `n` fresh slots keeps exactly the live entries: their multiset and count are unchanged. */
  lemma RehashKeepsEntries<H, V>(prev: seq<Slot<H, V>>, rule: (H, nat) -> nat, n: nat, reach: nat)
    requires n > 0 && Rehash(prev, rule, n, reach).Some?
    ensures var r := Rehash(prev, rule, n, reach).value;
      Occupants(r) == Occupants(prev) && Count(r) == Count(prev)
  {
    var acc: seq<Slot<H, V>> := Empty(n);
    CountEmpty(acc);
    assert prev[0..] == prev;
    RehashFromOccupants(prev, 0, acc, rule, reach);
  }

  /** Rehash keeps the live entries and leaves a table without tombstones whose entries are reachable. */
  lemma RehashFacts<H, V>(prev: seq<Slot<H, V>>, rule: (H, nat) -> nat, n: nat, reach: nat, hashOf: U64 -> H)
    requires n > 0 && Rehash(prev, rule, n, reach).Some? && Cached(prev, hashOf)
    ensures var r := Rehash(prev, rule, n, reach).value;
      && Occupants(r) == Occupants(prev) && Count(r) == Count(prev)
      && Reachable(r, rule) && NoReleased(r) && Cached(r, hashOf)
  {
    RehashKeepsEntries(prev, rule, n, reach);
    RehashFromShape(prev, 0, Empty(n), rule, reach, hashOf);
  }

  // ---------------------------------------------------------------------
  // Overwrite or add, delete, clear
  // ---------------------------------------------------------------------

  /** An insert probes past every slot held by another key and stops at the first that is not. */
  lemma {:induction false} PlaceReaches<H, V>(s: seq<Slot<H, V>>, rule: (H, nat) -> nat, h: H, key: U64, t: nat, m: nat, bound: nat)
    requires |s| > 0 && t <= m < bound
    requires forall u :: t <= u < m ==> Crowded(s[Idx(rule, |s|, h, u)], key)
    requires !Crowded(s[Idx(rule, |s|, h, m)], key)
    ensures Place(s, rule, h, key, t, bound) == Some(m)
    decreases m - t
  {
    if t < m {
      PlaceReaches(s, rule, h, key, t + 1, m, bound);
    }
  }

  /**
   * An insert that lands on a live slot overwrites the entry a lookup of the
   * key finds; so an insert of a key that a lookup does not find adds a new
   * entry.
   */
  lemma PlaceOnLive<H, V>(s: seq<Slot<H, V>>, rule: (H, nat) -> nat, h: H, key: U64, bound: nat)
    requires |s| > 0 && Place(s, rule, h, key, 0, bound).Some?
    ensures var j := Idx(rule, |s|, h, Place(s, rule, h, key, 0, bound).value);
      s[j].Occupied? ==> Get(s, rule, h, key, bound) == Some(s[j].value)
  {
    var t := Place(s, rule, h, key, 0, bound).value;
    if s[Idx(rule, |s|, h, t)].Occupied? {
      ScanReaches(s, rule, h, key, 0, t, bound);
    }
  }

  /**
   * Without tombstones the converse holds too: an insert of a key that a
   * lookup finds lands on that very slot and overwrites it.
   */
  lemma FoundPlacesOnLive<H, V>(s: seq<Slot<H, V>>, rule: (H, nat) -> nat, h: H, key: U64, bound: nat)
    requires |s| > 0
    ensures NoReleased(s) && Get(s, rule, h, key, bound).Some? ==>
      && Place(s, rule, h, key, 0, bound).Some?
      && var j := Idx(rule, |s|, h, Place(s, rule, h, key, 0, bound).value);
        Hit(s[j], key) && Get(s, rule, h, key, bound) == Some(s[j].value)
  {
    if NoReleased(s) && Get(s, rule, h, key, bound).Some? {
      var m := Scan(s, rule, h, key, 0, bound).t;
      PlaceReaches(s, rule, h, key, 0, m, bound);
    }
  }

  /** Delete releases a live slot: the invariants hold after it and one live entry is gone. */
  lemma ReleaseInvariants<H, V>(s: seq<Slot<H, V>>, rule: (H, nat) -> nat, hashOf: U64 -> H, j: nat)
    requires Reachable(s, rule) && Cached(s, hashOf) && j < |s| && s[j].Occupied?
    ensures var s' := s[j := Released];
      Reachable(s', rule) && Cached(s', hashOf) && Count(s') == Count(s) - 1
  {
    ReachableAfterWrite(s, rule, j, Released);
    OccupantsUpdate(s, j, Released);
    OccupantsMembers(s, s[j]);
    assert |Occupants(s) - Single(s[j])| == |Occupants(s)| - 1;
  }

  /**
   * Releasing a live slot changes the lookup of no other key, and, when keys
   * are unique, the released key is no longer found.
   */
  lemma ReleaseLookups<H, V>(s: seq<Slot<H, V>>, rule: (H, nat) -> nat, hashOf: U64 -> H, j: nat, bound: nat)
    requires j < |s| && s[j].Occupied?
    ensures var s' := s[j := Released];
      && (forall k :: k != s[j].key ==> Get(s', rule, hashOf(k), k, bound) == Get(s, rule, hashOf(k), k, bound))
      && (Unique(s) ==> forall h :: Get(s', rule, h, s[j].key, bound) == None)
  {
    var s' := s[j := Released];
    forall k | k != s[j].key
      ensures Get(s', rule, hashOf(k), k, bound) == Get(s, rule, hashOf(k), k, bound)
    {
      ScanPassableWrite(s, s', j, rule, hashOf(k), k, 0, bound);
    }
  }

  /** The map a table presents after a delete: only the deleted key can change, and with unique keys it is gone. */
  lemma ReleaseView<H, V>(s: seq<Slot<H, V>>, rule: (H, nat) -> nat, hashOf: U64 -> H, j: nat, bound: nat, m: map<U64, V>)
    requires j < |s| && s[j].Occupied? && Presents(s, rule, hashOf, bound, m)
    ensures var m' := View(s[j := Released], rule, hashOf, bound); var key := s[j].key;
      m' - {key} == m - {key} && (Unique(s) ==> m' == m - {key})
  {
    var s' := s[j := Released];
    var key := s[j].key;
    var m' := View(s', rule, hashOf, bound);
    ReleaseLookups(s, rule, hashOf, j, bound);
    forall k ensures Lookup(m' - {key}, k) == Lookup(m - {key}, k) {
      if k != key {
        assert Lookup(m', k) == Get(s', rule, hashOf(k), k, bound);
        assert Lookup(m, k) == Get(s, rule, hashOf(k), k, bound);
      }
    }
    LookupExtensional(m' - {key}, m - {key});
    if Unique(s) {
      forall k ensures Lookup(m', k) == Lookup(m - {key}, k) {
        assert Lookup(m', k) == Get(s', rule, hashOf(k), k, bound);
      }
      LookupExtensional(m', m - {key});
    }
  }

  /** After a clear nothing is live, so every lookup misses, and nothing is cut off. */
  lemma ClearedFacts<H, V>(s: seq<Slot<H, V>>, rule: (H, nat) -> nat, hashOf: U64 -> H, bound: nat)
    requires |s| > 0
    ensures var s' := Cleared(s);
      && Count(s') == 0 && Reachable(s', rule) && Cached(s', hashOf)
      && (forall h, k :: Get(s', rule, h, k, bound) == None)
      && Presents(s', rule, hashOf, bound, map[])
  {
    CountEmpty(Cleared(s));
  }

  /** Clear and free hand `value_free` one value per live entry. */
  lemma {:induction false} LiveValuesCount<H, V>(s: seq<Slot<H, V>>)
    ensures |LiveValues(s)| == Count(s)
  {
    if s != [] {
      LiveValuesCount(s[1..]);
    }
  }

  // ---------------------------------------------------------------------
  // Unique keys
  // ---------------------------------------------------------------------

  /** With unique keys no live entry occurs twice among the occupants. */
  lemma {:induction false} UniqueMultiplicity<H, V>(s: seq<Slot<H, V>>, x: Slot<H, V>)
    requires Unique(s)
    ensures Occupants(s)[x] <= 1
  {
    if s != [] {
      var tail := s[1..];
      assert Unique(tail) by {
        forall i, j | 0 <= i < |tail| && 0 <= j < |tail| && tail[j].Occupied? && Hit(tail[i], tail[j].key)
          ensures i == j
        {
          assert s[i + 1] == tail[i] && s[j + 1] == tail[j];
        }
      }
      UniqueMultiplicity(tail, x);
      if s[0] == x && x.Occupied? {
        forall k | 0 <= k < |tail| ensures tail[k] != x {
          assert s[k + 1] == tail[k];
        }
        OccupantsMembers(tail, x);
      }
    }
  }

  /** Two distinct slots holding the same live entry give it multiplicity two. */
  lemma PairMultiplicity<H, V>(s: seq<Slot<H, V>>, i: nat, j: nat)
    requires i < |s| && j < |s|
    ensures i != j && s[i] == s[j] && s[i].Occupied? ==> Occupants(s)[s[i]] >= 2
  {
    if i < j && s[i] == s[j] && s[i].Occupied? {
      OccupantsSplit(s, j);
      assert s[..j][i] == s[i];
      OccupantsMembers(s[..j], s[i]);
    } else if j < i && s[i] == s[j] && s[i].Occupied? {
      OccupantsSplit(s, i);
      assert s[..i][j] == s[j];
      OccupantsMembers(s[..i], s[j]);
    }
  }

  /** Unique keys depend only on the live entries, so a rehash keeps them unique. */
  lemma UniqueTransfer<H, V>(s: seq<Slot<H, V>>, s': seq<Slot<H, V>>)
    requires Unique(s) && Occupants(s') == Occupants(s)
    ensures Unique(s')
  {
    forall i, j | 0 <= i < |s'| && 0 <= j < |s'| && s'[j].Occupied? && Hit(s'[i], s'[j].key)
      ensures i == j
    {
      OccupantsMembers(s', s'[i]);
      OccupantsMembers(s', s'[j]);
      OccupantsMembers(s, s'[i]);
      OccupantsMembers(s, s'[j]);
      var a :| 0 <= a < |s| && s[a] == s'[i];
      var b :| 0 <= b < |s| && s[b] == s'[j];
      assert s'[i] == s'[j];
      UniqueMultiplicity(s, s'[i]);
      PairMultiplicity(s', i, j);
    }
  }

  /** Tables with the same live entries hold the same keys. */
  lemma KeysCarried<H, V>(s: seq<Slot<H, V>>, s': seq<Slot<H, V>>, key: U64, i: nat)
    requires Occupants(s') == Occupants(s) && i < |s| && Hit(s[i], key)
    ensures exists i' :: 0 <= i' < |s'| && s'[i'] == s[i]
  {
    OccupantsMembers(s, s[i]);
    OccupantsMembers(s', s[i]);
  }

  /**
   * The loop of `clear`, shared by the three engines: every occupied slot,
   * in slot order, hands its value to `value_free` and becomes vacant;
   * tombstones stay. The values handed over are returned, in that order.
   */
  method ClearSlots<H, V>(a: array<Slot<H, V>>) returns (released: seq<V>)
    modifies a
    ensures a[..] == Cleared(old(a[..])) && released == LiveValues(old(a[..]))
  {
    ghost var s := a[..];
    released := [];
    var i := 0;
    while i < a.Length
      invariant 0 <= i <= a.Length
      invariant a[..i] == Cleared(s)[..i] && a[i..] == s[i..]
      invariant released == LiveValues(s[..i])
    {
      LiveValuesStep(s, i);
      if a[i].Occupied? {
        released := released + [a[i].value];
        a[i] := Vacant;
      }
      i := i + 1;
    }
    assert a[..] == a[..i];
    assert s[..i] == s && Cleared(s)[..i] == Cleared(s);
  }
}
