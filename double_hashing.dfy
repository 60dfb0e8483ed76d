/**
 * The double-hashing engine (`hashmap_dh`): one flat slot array; a key has
 * two hashes, and its probe `i` looks at `(hash1 + hash2 * i) % slots_count`,
 * the sum taken in 64-bit arithmetic; lookups and inserts give up after
 * `distance_limit = floor(log2 slots_count)` probes; an insert that gives up
 * doubles and rehashes the table and starts over; delete leaves a
 * tombstone.
 *
 * As in the quadratic-probing engine, the rehash loop ignores the probe
 * bound and never checks that it finds a free slot, so the model reports a
 * resize that cannot end as `Diverges` and one that would wrap the 64-bit
 * slot counter as `Overflows`.
 */
module DoubleHashing {
  import opened Common
  import opened OpenAddressing

  /** The two cached hashes of a key: the start and the stride of its probe sequence. */
  type Hashes = (U64, U64)

  /** The pair of hashers of a map, applied to one key. */
  function Both(hasher1: U64 -> U64, hasher2: U64 -> U64): U64 -> Hashes {
    (k: U64) => (hasher1(k), hasher2(k))
  }

  /** Probe `t` of a key with hashes `h`: `hash1 + hash2 * t` in `uint64_t` arithmetic. */
  function Stride(): (Hashes, nat) -> nat {
    (h: Hashes, t: nat) => (h.0 + h.1 * t) % TWO64
  }

  /**
   * The load check `100 * entries_count / slots_count >= 70` of the insert,
   * in `uint64_t` arithmetic: the product wraps at 2^64 and the division
   * truncates.
   */
  predicate Exceeds(entries: nat, n: nat): (b: bool)
    requires n > 0
    ensures b <==> (100 * entries) % TWO64 >= 70 * n
  {
    QuotientAtLeast((100 * entries) % TWO64, n, 70);
    (100 * entries) % TWO64 / n >= 70
  }

  /** Truncating division reaches `c` exactly when the dividend reaches `c` times the divisor. */
  lemma QuotientAtLeast(x: nat, n: nat, c: nat)
    requires n > 0
    ensures x / n >= c <==> x >= c * n
  {
    var q := x / n;
    assert q * n <= x < q * n + n;
    if q >= c {
      MultiplyMonotone(c, q, n);
    } else {
      MultiplyMonotone(q + 1, c, n);
    }
  }

  /** Until the product wraps, the load check is exactly `10 * entries >= 7 * n`, the 0.7 of the other engines. */
  lemma ExceedsExact(entries: nat, n: nat)
    requires n > 0 && 100 * entries < TWO64
    ensures Exceeds(entries, n) <==> Overloaded(entries, n)
  {
    QuotientAtLeast(100 * entries, n, 70);
  }

  /**
   * `resize_map`: every live slot moved, in slot order, to the first free
   * slot of its probe sequence in a table twice as large. The C loop counter
   * `j` wraps at 2^64, and so does the probe position, so a rehash that finds
   * no free slot within 2^64 probes never ends. Doubling a 64-bit
   * `slots_count` of 2^63 or more wraps.
   */
  function Grow<V>(s: seq<Slot<Hashes, V>>): (r: Outcome<seq<Slot<Hashes, V>>>)
    requires |s| > 0
    ensures r.Overflows? <==> 2 * |s| >= TWO64
    ensures r.Done? ==> |r.value| == 2 * |s| < TWO64
  {
    if 2 * |s| >= TWO64 then Overflows
    else match Rehash(s, Stride(), 2 * |s|, TWO64)
      case None => Diverges
      case Some(g) => Done(g)
  }

  /**
   * The retry loop of `hashmap_dh_insert`: within `floor(log2 n)` probes the
   * key takes the first slot that is not held by another key; when there is
   * none the table grows and the key is tried again.
   */
  function Settle<V>(s: seq<Slot<Hashes, V>>, h: Hashes, key: U64, v: V): (r: Outcome<seq<Slot<Hashes, V>>>)
    requires |s| > 0
    ensures r.Done? ==> |r.value| >= |s|
    decreases TWO64 - |s|
  {
    match Place(s, Stride(), h, key, 0, Log2(|s|))
    case Some(t) => Done(Put(s, Idx(Stride(), |s|, h, t), h, key, v))
    case None =>
      match Grow(s)
      case Done(g) => Settle(g, h, key, v)
      case Diverges => Diverges
      case Overflows => Overflows
  }

  /** `hashmap_dh_insert`: the load check, then the retry loop. */
  function Inserted<V>(s: seq<Slot<Hashes, V>>, entries: nat, h: Hashes, key: U64, v: V): (r: Outcome<seq<Slot<Hashes, V>>>)
    requires |s| > 0
    ensures !Exceeds(entries, |s|) ==> r == Settle(s, h, key, v)
    ensures Exceeds(entries, |s|) && Grow(s).Done? ==> r == Settle(Grow(s).value, h, key, v)
    ensures Exceeds(entries, |s|) && !Grow(s).Done? ==> r.Overflows? == Grow(s).Overflows? && !r.Done?
  {
    if Exceeds(entries, |s|) then
      match Grow(s)
      case Done(g) => Settle(g, h, key, v)
      case Diverges => Diverges
      case Overflows => Overflows
    else
      Settle(s, h, key, v)
  }

  /** The first probe is the home slot `hash1 % n`, and each next probe adds the stride once more. */
  lemma StrideStep(n: nat, h: Hashes, t: nat)
    requires n > 0
    ensures Idx(Stride(), n, h, 0) == h.0 % n
    ensures Idx(Stride(), n, h, t) == (h.0 + h.1 * t) % TWO64 % n
  {
  }

  /** The probes of a key repeat after 2^64 steps: `hash2 * 2^64` vanishes in `uint64_t` arithmetic. */
  lemma StridePeriod(n: nat, h: Hashes, t: nat)
    requires n > 0
    ensures Idx(Stride(), n, h, t + TWO64) == Idx(Stride(), n, h, t)
  {
    var x := h.0 + h.1 * t;
    assert h.0 + h.1 * (t + TWO64) == x + h.1 * TWO64;
    ModShift(x, h.1, TWO64);
  }

  /**
   * A rehash that finds no free slot in one 2^64-probe period finds none
   * at any probe: `Diverges` is exactly the `resize_map` loop that never ends.
   */
  lemma {:induction false} StrideNeverFree<V>(s: seq<Slot<Hashes, V>>, h: Hashes, t: nat)
    requires |s| > 0 && FirstFree(s, Stride(), h, 0, TWO64).None?
    ensures s[Idx(Stride(), |s|, h, t)].Occupied?
    decreases t
  {
    if t >= TWO64 {
      StrideNeverFree(s, h, t - TWO64);
      StridePeriod(|s|, h, t - TWO64);
    }
  }

  /**
   * `find_inner`: probes `0 .. limit - 1` from the home slot of `h`,
   * stopping at a vacant slot or at the slot that holds `key`.
   */
  method FindInner<V>(a: array<Slot<Hashes, V>>, limit: nat, h: Hashes, key: U64) returns (r: Option<nat>)
    requires a.Length > 0
    ensures var scan := Scan(a[..], Stride(), h, key, 0, limit);
      && (r.Some? <==> scan.Match?)
      && (r.Some? ==> r.value == Idx(Stride(), a.Length, h, scan.t))
    ensures r.Some? ==> r.value < a.Length && Hit(a[r.value], key)
    ensures Get(a[..], Stride(), h, key, limit) == if r.Some? then Some(a[r.value].value) else None
  {
    var n := a.Length;
    var idx := h.0 % n;
    StrideStep(n, h, 0);
    var i := 1;
    while i <= limit
      invariant 1 <= i <= limit + 1 || (limit == 0 && i == 1)
      invariant idx == Idx(Stride(), n, h, i - 1)
      invariant Scan(a[..], Stride(), h, key, i - 1, limit) == Scan(a[..], Stride(), h, key, 0, limit)
    {
      if a[idx].Vacant? {
        return None;
      }
      if a[idx].Occupied? && a[idx].key == key {
        return Some(idx);
      }
      StrideStep(n, h, i);
      idx := (h.0 + h.1 * i) % TWO64 % n;
      i := i + 1;
    }
    return None;
  }

  /**
   * One round of the insert's probe loop: probes `0 .. limit - 1` for a slot
   * that is not occupied or holds `key`; `None` sends the insert to
   * `resize_map`.
   */
  method ProbePlace<V>(a: array<Slot<Hashes, V>>, limit: nat, h: Hashes, key: U64) returns (r: Option<nat>)
    requires a.Length > 0
    ensures r.Some? == Place(a[..], Stride(), h, key, 0, limit).Some?
    ensures r.Some? ==> r.value == Idx(Stride(), a.Length, h, Place(a[..], Stride(), h, key, 0, limit).value)
  {
    var n := a.Length;
    var idx := h.0 % n;
    StrideStep(n, h, 0);
    var i := 1;
    while i <= limit
      invariant 1 <= i <= limit + 1 || (limit == 0 && i == 1)
      invariant idx == Idx(Stride(), n, h, i - 1)
      invariant Place(a[..], Stride(), h, key, i - 1, limit) == Place(a[..], Stride(), h, key, 0, limit)
    {
      if !a[idx].Occupied? || a[idx].key == key {
        return Some(idx);
      }
      StrideStep(n, h, i);
      idx := (h.0 + h.1 * i) % TWO64 % n;
      i := i + 1;
    }
    return None;
  }

  /**
   * The inner loop of `resize_map`: the first probe of `h` whose slot is not
   * occupied, among the 2^64 probes after which the C loop repeats itself.
   */
  method ProbeFree<V>(a: array<Slot<Hashes, V>>, h: Hashes) returns (r: Option<nat>)
    requires a.Length > 0
    ensures r.Some? == FirstFree(a[..], Stride(), h, 0, TWO64).Some?
    ensures r.Some? ==> r.value == Idx(Stride(), a.Length, h, FirstFree(a[..], Stride(), h, 0, TWO64).value)
  {
    var n := a.Length;
    var idx := h.0 % n;
    StrideStep(n, h, 0);
    var j := 1;
    while a[idx].Occupied?
      invariant 1 <= j <= TWO64
      invariant idx == Idx(Stride(), n, h, j - 1)
      invariant FirstFree(a[..], Stride(), h, j - 1, TWO64) == FirstFree(a[..], Stride(), h, 0, TWO64)
      decreases TWO64 - j
    {
      if j == TWO64 {
        return None;
      }
      StrideStep(n, h, j);
      idx := (h.0 + h.1 * j) % TWO64 % n;
      j := j + 1;
    }
    return Some(idx);
  }

  /** The rehash loop of `resize_map`: every live slot, in slot order, moved into a fresh table of `n2` slots. */
  method RehashInto<V>(a: array<Slot<Hashes, V>>, n2: nat) returns (next: Option<array<Slot<Hashes, V>>>)
    requires n2 > 0
    ensures next.Some? == Rehash(a[..], Stride(), n2, TWO64).Some?
    ensures next.Some? ==> fresh(next.value) && next.value[..] == Rehash(a[..], Stride(), n2, TWO64).value
  {
    var table := new Slot<Hashes, V>[n2](_ => Vacant);
    assert table[..] == Empty<Hashes, V>(n2);
    var i := 0;
    while i < a.Length
      invariant 0 <= i <= a.Length && table.Length == n2
      invariant RehashFrom(a[..], i, table[..], Stride(), TWO64) == Rehash(a[..], Stride(), n2, TWO64)
    {
      if a[i].Occupied? {
        var idx := ProbeFree(table, a[i].hash);
        if idx.None? {
          return None;
        }
        table[idx.value] := a[i];
      }
      i := i + 1;
    }
    return Some(table);
  }

  /**
   * A double-hashing hash map from 64-bit keys to values of type `V`. The
   * ghost `contents` is the map the table presents to lookups bounded by
   * `distance_limit`; the ghost `freed` logs, in order, every value handed
   * to `value_free`.
   */
  class HashMap<V> {
    var slots: array<Slot<Hashes, V>>
    var entries: nat
    var limit: nat
    const hasher1: U64 -> U64
    const hasher2: U64 -> U64
    ghost var contents: map<U64, V>
    ghost var freed: seq<V>

    /**
     * `slots_count` fits its 64-bit field, `distance_limit` is its
     * floor-log2, `entries_count` counts the live slots, which cache both
     * hashes of their key and are reachable, and `contents` is what bounded
     * lookups find.
     */
    ghost predicate Valid()
      reads this, slots
    {
      && 10 <= slots.Length < TWO64
      && limit == Log2(slots.Length)
      && entries == Count(slots[..])
      && Cached(slots[..], Both(hasher1, hasher2))
      && Reachable(slots[..], Stride())
      && Presents(slots[..], Stride(), Both(hasher1, hasher2), limit, contents)
    }

    /** `hashmap_dh_new`: ten vacant slots, no entries and a probe bound of 3. */
    constructor (hasher1: U64 -> U64, hasher2: U64 -> U64)
      ensures Valid() && fresh(slots)
      ensures slots[..] == Empty(10) && limit == 3
      ensures entries == 0 && contents == map[] && freed == []
      ensures this.hasher1 == hasher1 && this.hasher2 == hasher2
    {
      this.hasher1 := hasher1;
      this.hasher2 := hasher2;
      slots := new Slot<Hashes, V>[10](_ => Vacant);
      entries := 0;
      limit := Log2(10);
      contents := map[];
      freed := [];
      new;
      Log2OfTen();
      assert slots[..] == Empty(10);
      CountEmpty(slots[..]);
      ClearedFacts(slots[..], Stride(), Both(hasher1, hasher2), 3);
      assert Cleared(slots[..]) == slots[..];
    }

    /**
     * `resize_map`: on `Done` the table has doubled, holds the same live
     * entries and its probe bound has grown by one; otherwise nothing has
     * changed (the C code would wrap the slot counter or loop forever).
     */
    method ResizeMap() returns (r: Outcome<()>)
      requires Valid()
      modifies this
      ensures Valid() && entries == old(entries) && freed == old(freed)
      ensures var g := Grow(old(slots[..]));
        && r.Done? == g.Done? && r.Overflows? == g.Overflows?
        && (r.Done? ==> slots[..] == g.value)
      ensures r.Done? ==> fresh(slots) && slots.Length == 2 * old(slots.Length) && limit == old(limit) + 1
      ensures !r.Done? ==> unchanged(this)
    {
      var n := slots.Length;
      var n2 := 2 * n;
      if n2 >= TWO64 {
        return Overflows;
      }
      var next := RehashInto(slots, n2);
      if next.None? {
        return Diverges;
      }
      ghost var prev := slots[..];
      slots := next.value;
      limit := Log2(n2);
      Log2Double(n);
      RehashFacts(prev, Stride(), n2, TWO64, Both(hasher1, hasher2));
      contents := View(slots[..], Stride(), Both(hasher1, hasher2), limit);
      r := Done(());
    }

    /** `hashmap_dh_find`: the value of the slot `find_inner` finds. */
    method Find(key: U64) returns (r: Option<V>)
      requires Valid()
      ensures r == Lookup(contents, key)
    {
      var i := FindInner(slots, limit, (hasher1(key), hasher2(key)), key);
      if i.Some? {
        r := Some(slots[i.value].value);
      } else {
        r := None;
      }
    }

    /**
     * `hashmap_dh_insert`: the load check, then the retry loop. On `Done`
     * the key maps to the new value and, when no resize happened, nothing
     * else changed; the count grows by one unless a value was replaced, and
     * then that one value was freed.
     */
    method Insert(key: U64, value: V) returns (r: Outcome<()>)
      requires Valid()
      modifies this, slots
      ensures Valid() && (slots == old(slots) || fresh(slots))
      ensures var i := Inserted(old(slots[..]), old(entries), (hasher1(key), hasher2(key)), key, value);
        && r.Done? == i.Done? && r.Overflows? == i.Overflows?
        && (r.Done? ==> slots[..] == i.value)
      ensures r.Done? ==> key in contents && contents[key] == value
      ensures r.Done? && slots == old(slots) ==> contents == old(contents)[key := value]
      ensures r.Done? && slots == old(slots) && key !in old(contents) ==> entries == old(entries) + 1
      ensures r.Done? ==>
        || (entries == old(entries) + 1 && freed == old(freed))
        || (entries == old(entries) && |freed| == |old(freed)| + 1)
      ensures r.Done? && slots == old(slots) ==>
        || (entries == old(entries) + 1 && freed == old(freed))
        || (entries == old(entries) && key in old(contents) && freed == old(freed) + [old(contents)[key]])
      ensures r.Done? && slots == old(slots) && NoReleased(old(slots[..])) ==>
        (entries == old(entries) <==> key in old(contents))
      ensures !r.Done? ==> entries == old(entries) && freed == old(freed)
    {
      if (100 * entries) % TWO64 / slots.Length >= 70 {
        r := ResizeMap();
        if !r.Done? {
          return;
        }
      }
      r := Retry(key, value);
    }

    /** The `while (1)` loop of `hashmap_dh_insert`: probe, and on failure resize and try again. */
    method Retry(key: U64, value: V) returns (r: Outcome<()>)
      requires Valid()
      modifies this, slots
      ensures Valid() && (slots == old(slots) || fresh(slots))
      ensures var i := Settle(old(slots[..]), (hasher1(key), hasher2(key)), key, value);
        && r.Done? == i.Done? && r.Overflows? == i.Overflows?
        && (r.Done? ==> slots[..] == i.value)
      ensures r.Done? ==> key in contents && contents[key] == value
      ensures r.Done? && slots == old(slots) ==> contents == old(contents)[key := value]
      ensures r.Done? && slots == old(slots) && key !in old(contents) ==> entries == old(entries) + 1
      ensures r.Done? ==>
        || (entries == old(entries) + 1 && freed == old(freed))
        || (entries == old(entries) && |freed| == |old(freed)| + 1)
      ensures r.Done? && slots == old(slots) ==>
        || (entries == old(entries) + 1 && freed == old(freed))
        || (entries == old(entries) && key in old(contents) && freed == old(freed) + [old(contents)[key]])
      ensures r.Done? && slots == old(slots) && NoReleased(old(slots[..])) ==>
        (entries == old(entries) <==> key in old(contents))
      ensures !r.Done? ==> entries == old(entries) && freed == old(freed)
    {
      var p := Locate(key, value);
      match p
      case Done(idx) =>
        ghost var c := contents;
        WriteEntry(key, value, idx);
        assert contents == c[key := value];
        r := Done(());
      case Diverges =>
        r := Diverges;
      case Overflows =>
        r := Overflows;
    }

    /**
     * The probing and resizing of the `while (1)` loop of `hashmap_dh_insert`,
     * up to the write: the slot the key takes in the final table, or the
     * failure that ends the loop.
     */
    method Locate(key: U64, value: V) returns (p: Outcome<nat>)
      requires Valid()
      modifies this
      ensures Valid() && (slots == old(slots) || fresh(slots))
      ensures entries == old(entries) && freed == old(freed)
      ensures slots == old(slots) ==> contents == old(contents) && slots[..] == old(slots[..])
      ensures var h := (hasher1(key), hasher2(key)); var i := Settle(old(slots[..]), h, key, value);
        && p.Done? == i.Done? && p.Overflows? == i.Overflows?
        && (p.Done? ==>
          && Place(slots[..], Stride(), h, key, 0, limit).Some?
          && p.value == Idx(Stride(), slots.Length, h, Place(slots[..], Stride(), h, key, 0, limit).value)
          && i.value == Put(slots[..], p.value, h, key, value))
    {
      var h: Hashes := (hasher1(key), hasher2(key));
      ghost var goal := Settle(slots[..], h, key, value);
      while true
        invariant Valid() && (slots == old(slots) || fresh(slots))
        invariant Settle(slots[..], h, key, value) == goal
        invariant entries == old(entries) && freed == old(freed)
        invariant slots == old(slots) ==> contents == old(contents) && slots[..] == old(slots[..])
        decreases TWO64 - slots.Length
      {
        var q := ProbePlace(slots, limit, h, key);
        if q.Some? {
          return Done(q.value);
        }
        var g := ResizeMap();
        if !g.Done? {
          return if g.Diverges? then Diverges else Overflows;
        }
      }
    }

    /**
     * The write of `hashmap_dh_insert` into the slot its probe loop chose:
     * the key maps to the new value and nothing else changes; a replaced
     * value is the one the key had.
     */
    method WriteEntry(key: U64, value: V, idx: nat)
      requires Valid()
      requires Place(slots[..], Stride(), (hasher1(key), hasher2(key)), key, 0, limit).Some?
      requires idx == Idx(Stride(), slots.Length, (hasher1(key), hasher2(key)),
        Place(slots[..], Stride(), (hasher1(key), hasher2(key)), key, 0, limit).value)
      modifies this`entries, this`freed, this`contents, slots
      ensures Valid()
      ensures slots[..] == Put(old(slots[..]), idx, (hasher1(key), hasher2(key)), key, value)
      ensures contents == old(contents)[key := value]
      ensures key !in old(contents) ==> entries == old(entries) + 1
      ensures NoReleased(old(slots[..])) ==> (entries == old(entries) <==> key in old(contents))
      ensures || (entries == old(entries) + 1 && freed == old(freed))
        || (entries == old(entries) && key in old(contents) && freed == old(freed) + [old(contents)[key]])
    {
      ghost var g := slots[..];
      ghost var hashOf := Both(hasher1, hasher2);
      var h: Hashes := (hasher1(key), hasher2(key));
      assert h == hashOf(key);
      if slots[idx].Occupied? {
        freed := freed + [slots[idx].value];
        slots[idx] := slots[idx].(value := value);
      } else {
        slots[idx] := Occupied(h, key, value);
        entries := entries + 1;
      }
      assert slots[..] == Put(g, idx, h, key, value);
      WriteFacts(g, slots[..], Stride(), hashOf, key, value, limit, contents, idx);
      contents := contents[key := value];
    }

    /**
     * `hashmap_dh_delete`: frees the value of the slot a lookup finds and
     * turns that slot into a tombstone.
     */
    method Delete(key: U64) returns (found: bool)
      requires Valid()
      modifies this`entries, this`freed, this`contents, slots
      ensures Valid()
      ensures var s := old(slots[..]); var r := Scan(s, Stride(), (hasher1(key), hasher2(key)), key, 0, limit);
        && found == r.Match?
        && (found ==>
          var j := Idx(Stride(), |s|, (hasher1(key), hasher2(key)), r.t);
          slots[..] == s[j := Released] && entries == old(entries) - 1 && freed == old(freed) + [s[j].value])
        && (!found ==> slots[..] == s && entries == old(entries) && freed == old(freed) && contents == old(contents))
      ensures found <==> key in old(contents)
      ensures contents - {key} == old(contents) - {key}
      ensures Unique(old(slots[..])) ==> contents == old(contents) - {key}
    {
      ghost var s := slots[..];
      ghost var hashOf := Both(hasher1, hasher2);
      assert Lookup(contents, key) == Get(s, Stride(), hashOf(key), key, limit);
      var i := FindInner(slots, limit, (hasher1(key), hasher2(key)), key);
      if i.None? {
        return false;
      }
      var idx := i.value;
      ReleaseInvariants(s, Stride(), hashOf, idx);
      ReleaseView(s, Stride(), hashOf, idx, limit, contents);
      freed := freed + [slots[idx].value];
      slots[idx] := Released;
      entries := entries - 1;
      contents := View(slots[..], Stride(), hashOf, limit);
      found := true;
    }

    /** `hashmap_dh_clear`: frees every live value, in slot order, and empties its slot. */
    method Clear()
      requires Valid()
      modifies this`entries, this`freed, this`contents, slots
      ensures Valid()
      ensures slots[..] == Cleared(old(slots[..])) && entries == 0 && contents == map[]
      ensures freed == old(freed) + LiveValues(old(slots[..])) && |freed| == |old(freed)| + old(entries)
    {
      ghost var s := slots[..];
      LiveValuesCount(s);
      ClearedFacts(s, Stride(), Both(hasher1, hasher2), limit);
      var released := ClearSlots(slots);
      freed := freed + released;
      entries := 0;
      contents := map[];
    }

    /** The per-value loop of `hashmap_dh_free`: every live value, in slot order, goes to `value_free`. */
    method Free()
      requires Valid()
      modifies this`freed
      ensures freed == old(freed) + LiveValues(slots[..]) && |freed| == |old(freed)| + entries
    {
      LiveValuesCount(slots[..]);
      var i := 0;
      while i < slots.Length
        invariant 0 <= i <= slots.Length
        invariant freed == old(freed) + LiveValues(slots[..i])
      {
        LiveValuesStep(slots[..], i);
        if slots[i].Occupied? {
          freed := freed + [slots[i].value];
        }
        i := i + 1;
      }
      assert slots[..i] == slots[..];
    }
  }

  /**
   * An insert that needs no resize writes the key into the first of its
   * `floor(log2 n)` probes that no other key holds.
   */
  lemma InsertedAt<V>(s: seq<Slot<Hashes, V>>, entries: nat, h: Hashes, key: U64, v: V, m: nat)
    requires |s| > 0 && !Exceeds(entries, |s|) && m < Log2(|s|)
    requires forall u :: 0 <= u < m ==> Crowded(s[Idx(Stride(), |s|, h, u)], key)
    requires !Crowded(s[Idx(Stride(), |s|, h, m)], key)
    ensures Inserted(s, entries, h, key, v) == Done(Put(s, Idx(Stride(), |s|, h, m), h, key, v))
  {
    PlaceReaches(s, Stride(), h, key, 0, m, Log2(|s|));
  }

  /** `fake_hasher` of the tests: every key hashes to 1. */
  function FakeHasher1(key: U64): U64 { 1 }

  /** `fake_hasher2` of the tests: every key strides by 2. */
  function FakeHasher2(key: U64): U64 { 2 }

  /**
   * With the constant hashes (1, 2), probe `t` is slot `2t + 1` of the ten
   * or twenty slots of the tests, while that is inside the table.
   */
  lemma FakeProbe(n: nat, t: nat)
    requires n == 10 || n == 20
    requires 2 * t + 1 < n
    ensures Idx(Stride(), n, (1, 2), t) == 2 * t + 1
  {
    StrideStep(n, (1, 2), t);
  }

  /**
   * The table the resize test builds with the constant hashes (1, 2): keys
   * `1 .. c` in slots `1, 3, ..., 2c - 1`, each holding its own key as value.
   */
  function Stacked(n: nat, c: nat): (r: seq<Slot<Hashes, nat>>)
    requires n < TWO64
    ensures |r| == n
    ensures forall j :: 0 <= j < n ==> (r[j].Occupied? <==> j % 2 == 1 && j / 2 < c)
  {
    seq(n, j requires 0 <= j < n => if j % 2 == 1 && j / 2 < c then Occupied((1, 2), j / 2 + 1, j / 2 + 1) else Vacant)
  }

  /** The `c + 1`-th key of the resize test lands in slot `2c + 1`, its `c`-th probe. */
  lemma StackedInsert(c: nat)
    requires c < 3
    ensures Inserted(Stacked(10, c), c, (1, 2), c + 1, c + 1) == Done(Stacked(10, c + 1))
    ensures Count(Stacked(10, c + 1)) == Count(Stacked(10, c)) + 1
  {
    Log2OfTen();
    var s := Stacked(10, c);
    forall u | 0 <= u < c
      ensures Crowded(s[Idx(Stride(), 10, (1, 2), u)], c + 1)
    {
      FakeProbe(10, u);
    }
    FakeProbe(10, c);
    InsertedAt(s, c, (1, 2), c + 1, c + 1, c);
    PutCount(s, 2 * c + 1, (1, 2), c + 1, c + 1);
    assert Put(s, 2 * c + 1, (1, 2), c + 1, c + 1) == Stacked(10, c + 1);
  }

  /** The key of the resize test that rests in slot `2c + 1` of a grown table is the `c + 1`-th: its first `c` probes are taken. */
  lemma StackedFirstFree(c: nat)
    requires c < 9
    ensures FirstFree(Stacked(20, c), Stride(), (1, 2), 0, TWO64) == Some(c)
  {
    var acc := Stacked(20, c);
    forall u | 0 <= u <= c
      ensures Idx(Stride(), 20, (1, 2), u) == 2 * u + 1
    {
      FakeProbe(20, u);
    }
    var f := FirstFree(acc, Stride(), (1, 2), 0, TWO64);
    assert !acc[Idx(Stride(), 20, (1, 2), c)].Occupied?;
  }

  /** How many keys of the resize test's ten-slot table the rehash has moved once it reaches slot `i`. */
  function Moved(i: nat): (c: nat)
    ensures c <= 3 && c <= i / 2
  {
    if i / 2 < 3 then i / 2 else 3
  }

  /**
   * The rehash of the resize test, from slot `i` of the full ten-slot
   * table on: the keys in slots `1, 3, 5` keep their order and land in
   * slots `1, 3, 5` of the twenty-slot table.
   */
  lemma {:induction false} StackedRehashFrom(i: nat)
    requires i <= 10
    ensures RehashFrom(Stacked(10, 3), i, Stacked(20, Moved(i)), Stride(), TWO64) == Some(Stacked(20, 3))
    decreases 10 - i
  {
    if i < 10 {
      StackedRehashFrom(i + 1);
      StackedStep(i);
    }
  }

  /** Slot `i` of the resize test's ten-slot table is either moved or passed over. */
  lemma StackedStep(i: nat)
    requires i < 10
    ensures RehashFrom(Stacked(10, 3), i, Stacked(20, Moved(i)), Stride(), TWO64)
         == RehashFrom(Stacked(10, 3), i + 1, Stacked(20, Moved(i + 1)), Stride(), TWO64)
  {
    var c := Moved(i);
    if i % 2 == 1 && i / 2 < 3 {
      assert i == 2 * c + 1 && Moved(i + 1) == c + 1;
      StackedMove(c);
    } else {
      assert Moved(i + 1) == c;
      StackedSkip(i, c);
    }
  }

  /** One step of the rehash of the resize test: key `c + 1`, in slot `2c + 1` of ten, moves to slot `2c + 1` of twenty. */
  lemma StackedMove(c: nat)
    requires c < 3
    ensures RehashFrom(Stacked(10, 3), 2 * c + 1, Stacked(20, c), Stride(), TWO64)
         == RehashFrom(Stacked(10, 3), 2 * c + 2, Stacked(20, c + 1), Stride(), TWO64)
  {
    var prev := Stacked(10, 3);
    var acc := Stacked(20, c);
    assert prev[2 * c + 1] == Occupied((1, 2), c + 1, c + 1);
    StackedFirstFree(c);
    FakeProbe(20, c);
    assert acc[2 * c + 1 := prev[2 * c + 1]] == Stacked(20, c + 1);
  }

  /** A slot of the resize test's ten-slot table that holds no key is passed over by the rehash. */
  lemma StackedSkip(i: nat, c: nat)
    requires i < 10 && !(i % 2 == 1 && i / 2 < 3)
    ensures RehashFrom(Stacked(10, 3), i, Stacked(20, c), Stride(), TWO64)
         == RehashFrom(Stacked(10, 3), i + 1, Stacked(20, c), Stride(), TWO64)
  {
    assert !Stacked(10, 3)[i].Occupied?;
  }

  /** In the grown table of the resize test, the insert of key 4 passes its first three probes and stops at slot 7. */
  lemma StackedPlace()
    ensures var p := Place(Stacked(20, 3), Stride(), (1, 2), 4, 0, 4);
      p == Some(3) && Idx(Stride(), 20, (1, 2), p.value) == 7
  {
    var g := Stacked(20, 3);
    forall u | 0 <= u < 3
      ensures Crowded(g[Idx(Stride(), 20, (1, 2), u)], 4)
    {
      FakeProbe(20, u);
    }
    FakeProbe(20, 3);
    PlaceReaches(g, Stride(), (1, 2), 4, 0, 3, 4);
  }

  /** In the grown table of the resize test, key 4 passes slots 1, 3 and 5 and takes slot 7, its fourth probe. */
  lemma StackedSettle()
    ensures Settle(Stacked(20, 3), (1, 2), 4, 4) == Done(Stacked(20, 4))
    ensures Count(Stacked(20, 4)) == Count(Stacked(20, 3)) + 1
  {
    Log2OfTen();
    var g := Stacked(20, 3);
    StackedPlace();
    PutCount(g, 7, (1, 2), 4, 4);
    StackedPut();
  }

  /** Key 4 written into slot 7 completes the resize test's table of four keys. */
  lemma StackedPut()
    ensures Put(Stacked(20, 3), 7, (1, 2), 4, 4) == Stacked(20, 4)
  {
    var r := Put(Stacked(20, 3), 7, (1, 2), 4, 4);
    forall j | 0 <= j < 20
      ensures r[j] == Stacked(20, 4)[j]
    {
    }
  }

  /**
   * The end of the resize test: the fourth key finds its three probes of
   * the ten-slot table taken, so the table doubles, and in twenty slots with
   * four probes it takes slot 7.
   */
  lemma StackedResize()
    ensures Inserted(Stacked(10, 3), 3, (1, 2), 4, 4) == Done(Stacked(20, 4))
    ensures Count(Stacked(20, 4)) == Count(Stacked(10, 3)) + 1
  {
    Log2OfTen();
    var s := Stacked(10, 3);
    forall u | 0 <= u < 3
      ensures Crowded(s[Idx(Stride(), 10, (1, 2), u)], 4)
    {
      FakeProbe(10, u);
    }
    assert Place(s, Stride(), (1, 2), 4, 0, 3).None?;
    StackedRehashFrom(0);
    assert Moved(0) == 0;
    assert Empty<Hashes, nat>(20) == Stacked(20, 0);
    RehashKeepsEntries(s, Stride(), 20, TWO64);
    assert Grow(s) == Done(Stacked(20, 3));
    StackedSettle();
  }

  /** In the grown table of the resize test, a bounded lookup of each key `1 .. 4` finds its own value. */
  lemma StackedFind(k: U64)
    requires 1 <= k <= 4
    ensures Get(Stacked(20, 4), Stride(), (1, 2), k, 4) == Some(k)
  {
    var s := Stacked(20, 4);
    forall u | 0 <= u < k
      ensures Idx(Stride(), 20, (1, 2), u) == 2 * u + 1
    {
      FakeProbe(20, u);
    }
    ScanReaches(s, Stride(), (1, 2), k, 0, k - 1, 4);
  }

  /** The insert test, first step: in an empty table 999 takes slot 1, its home slot `1 % 10`. */
  lemma FakeFirst()
    ensures var t := Empty<Hashes, nat>(10)[1 := Occupied((1, 2), 999, 5)];
      Inserted(Empty(10), 0, (1, 2), 999, 5) == Done(t) && Count(t) == 1
  {
    Log2OfTen();
    var e := Empty<Hashes, nat>(10);
    FakeProbe(10, 0);
    InsertedAt(e, 0, (1, 2), 999, 5, 0);
    CountEmpty(e);
    PutCount(e, 1, (1, 2), 999, 5);
  }

  /** The insert test, second step: inserting 999 again overwrites its value in slot 1 and adds no entry. */
  lemma FakeOverwrite()
    ensures var t := Empty<Hashes, nat>(10)[1 := Occupied((1, 2), 999, 5)];
      var t' := Empty<Hashes, nat>(10)[1 := Occupied((1, 2), 999, 10)];
      Inserted(t, 1, (1, 2), 999, 10) == Done(t') && Count(t') == Count(t)
  {
    Log2OfTen();
    var t := Empty<Hashes, nat>(10)[1 := Occupied((1, 2), 999, 5)];
    FakeProbe(10, 0);
    InsertedAt(t, 1, (1, 2), 999, 10, 0);
    PutCount(t, 1, (1, 2), 999, 10);
    assert Put(t, 1, (1, 2), 999, 10) == Empty<Hashes, nat>(10)[1 := Occupied((1, 2), 999, 10)];
  }

  /** The insert test, last step: 777 finds slot 1 held by 999 and takes slot 3, one stride of 2 further. */
  lemma FakeSecond()
    ensures var t := Empty<Hashes, nat>(10)[1 := Occupied((1, 2), 999, 10)];
      var t' := t[3 := Occupied((1, 2), 777, 15)];
      Inserted(t, 1, (1, 2), 777, 15) == Done(t') && Count(t') == Count(t) + 1
  {
    Log2OfTen();
    var t := Empty<Hashes, nat>(10)[1 := Occupied((1, 2), 999, 10)];
    FakeProbe(10, 0);
    FakeProbe(10, 1);
    InsertedAt(t, 1, (1, 2), 777, 15, 1);
    PutCount(t, 3, (1, 2), 777, 15);
  }

  /** The constructor test: ten vacant slots, no entries and a probe bound of 3. */
  method ConstructScenario(hasher1: U64 -> U64, hasher2: U64 -> U64) returns (m: HashMap<nat>)
    ensures m.Valid() && m.slots.Length == 10 && m.entries == 0 && m.limit == 3
    ensures forall i :: 0 <= i < m.slots.Length ==> m.slots[i].Vacant?
  {
    m := new HashMap(hasher1, hasher2);
  }

  /** The insert test begins: with constant hashes (1, 2), 999 lands in slot 1. */
  method FakeInsertFirst() returns (m: HashMap<nat>)
    ensures fresh(m) && fresh(m.slots) && m.Valid()
    ensures m.hasher1 == FakeHasher1 && m.hasher2 == FakeHasher2
    ensures m.entries == 1 && m.slots[..] == Empty<Hashes, nat>(10)[1 := Occupied((1, 2), 999, 5)]
  {
    m := new HashMap(FakeHasher1, FakeHasher2);
    FakeFirst();
    var r := m.Insert(999, 5);
  }

  /** Inserting 999 again changes its value to 10 in the same slot and keeps one entry. */
  method FakeInsertAgain(m: HashMap<nat>)
    requires m.Valid() && m.hasher1 == FakeHasher1 && m.hasher2 == FakeHasher2
    requires m.entries == 1 && m.slots[..] == Empty<Hashes, nat>(10)[1 := Occupied((1, 2), 999, 5)]
    modifies m, m.slots
    ensures m.Valid() && (m.slots == old(m.slots) || fresh(m.slots))
    ensures m.hasher1 == FakeHasher1 && m.hasher2 == FakeHasher2
    ensures m.entries == 1 && m.slots[..] == Empty<Hashes, nat>(10)[1 := Occupied((1, 2), 999, 10)]
  {
    FakeOverwrite();
    assert m.hasher1(999) == 1 && m.hasher2(999) == 2;
    var r := m.Insert(999, 10);
  }

  /**
   * The insert test: 999 lands in slot 1, is overwritten there, and 777,
   * whose home slot is taken, lands in slot 3; two entries in ten slots.
   */
  method FakeInsertScenario() returns (m: HashMap<nat>)
    ensures m.Valid() && m.entries == 2 && m.slots.Length == 10
    ensures m.slots[1] == Occupied((1, 2), 999, 10) && m.slots[3] == Occupied((1, 2), 777, 15)
  {
    m := FakeInsertFirst();
    FakeInsertAgain(m);
    FakeSecond();
    var r := m.Insert(777, 15);
  }

  /** The resize test, first loop: keys 1, 2 and 3 each add an entry and the ten slots are kept. */
  method FakeFillThree() returns (m: HashMap<nat>)
    ensures fresh(m) && fresh(m.slots) && m.Valid()
    ensures m.hasher1 == FakeHasher1 && m.hasher2 == FakeHasher2
    ensures m.entries == 3 && m.slots[..] == Stacked(10, 3)
  {
    m := new HashMap(FakeHasher1, FakeHasher2);
    assert m.slots[..] == Stacked(10, 0);
    for i := 1 to 4
      invariant fresh(m) && fresh(m.slots) && m.Valid()
      invariant m.hasher1 == FakeHasher1 && m.hasher2 == FakeHasher2
      invariant m.entries == i - 1 && m.slots[..] == Stacked(10, i - 1)
    {
      StackedInsert(i - 1);
      var r := m.Insert(i, i);
      assert m.slots.Length == 10;
    }
  }

  /** The fourth key of the resize test doubles the table to twenty slots with a probe bound of 4. */
  method FakeInsertFourth(m: HashMap<nat>)
    requires m.Valid() && m.hasher1 == FakeHasher1 && m.hasher2 == FakeHasher2
    requires m.entries == 3 && m.slots[..] == Stacked(10, 3)
    modifies m, m.slots
    ensures m.Valid() && m.hasher1 == FakeHasher1 && m.hasher2 == FakeHasher2
    ensures m.entries == 4 && m.slots[..] == Stacked(20, 4) && m.limit == 4
  {
    StackedResize();
    var r := m.Insert(4, 4);
    Log2OfTen();
  }

  /** After the resize test's four inserts, a find of key `k` returns its value `k`. */
  method FakeFind(m: HashMap<nat>, k: U64) returns (v: Option<nat>)
    requires m.Valid() && m.hasher1 == FakeHasher1 && m.hasher2 == FakeHasher2
    requires m.slots[..] == Stacked(20, 4) && m.limit == 4 && 1 <= k <= 4
    ensures v == Some(k)
  {
    StackedFind(k);
    assert Both(m.hasher1, m.hasher2)(k) == (1, 2);
    v := m.Find(k);
  }

  /**
   * The resize test: keys 1 to 3 keep the ten slots; key 4 finds its three
   * probes taken, the table doubles to twenty slots with a probe bound of 4,
   * and every key is still found with its value.
   */
  method FakeResizeScenario() returns (m: HashMap<nat>, found: seq<Option<nat>>)
    ensures m.Valid() && m.entries == 4 && m.slots.Length == 20 && m.limit == 4
    ensures found == [Some(1), Some(2), Some(3), Some(4)]
  {
    m := FakeFillThree();
    FakeInsertFourth(m);
    var one := FakeFind(m, 1);
    var two := FakeFind(m, 2);
    var three := FakeFind(m, 3);
    var four := FakeFind(m, 4);
    found := [one, two, three, four];
  }
}
