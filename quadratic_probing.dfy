/**
 * The quadratic-probing engine (`hashmap_qp`): one flat slot array; probe
 * `i` of a key looks at `(hash % slots_count + i + i*i) % slots_count`;
 * lookups and inserts give up after `distance_limit = floor(log2
 * slots_count)` probes; an insert that gives up doubles and rehashes the
 * table and starts over; delete leaves a tombstone.
 *
 * The rehash loop of `resize_map` ignores the probe bound, and the C code
 * never checks that it finds a free slot, so an entry can land where no
 * lookup reaches it and a resize, or the insert retry loop, need not
 * terminate. The model therefore states what lookups find in terms of the
 * table each operation leaves, and reports a resize that cannot end as
 * `Diverges` and one that would wrap the 32-bit slot counter as `Overflows`.
 */
module QuadraticProbing {
  import opened Common
  import opened OpenAddressing

  /**
   * Probe `t` from the home slot `h % n`: the offset `C1 * t + C2 * t * t`
   * with `C1 = C2 = 1`, added in `size_t` arithmetic (modulo 2^64).
   */
  function Quad(n: nat): (U64, nat) -> nat
    requires n > 0
  {
    (h: U64, t: nat) => (h % n + t + t * t) % TWO64
  }

  /** The probes of a key repeat after 2^64 steps: the offset grows by a multiple of 2^64. */
  lemma QuadPeriod(n: nat, h: U64, t: nat)
    requires n > 0
    ensures Idx(Quad(n), n, h, t + TWO64) == Idx(Quad(n), n, h, t)
  {
    var u := t + TWO64;
    var x := h % n + t + t * t;
    assert u * u == t * t + (2 * t + TWO64) * TWO64;
    assert h % n + u + u * u == x + (1 + 2 * t + TWO64) * TWO64;
    ModShift(x, 1 + 2 * t + TWO64, TWO64);
  }

  /**
   * A rehash that finds no free slot in one 2^64-probe period finds none
   * at any probe: `Diverges` is exactly the `resize_map` loop that never ends.
   */
  lemma {:induction false} QuadNeverFree<V>(s: seq<Slot<U64, V>>, h: U64, t: nat)
    requires |s| > 0 && FirstFree(s, Quad(|s|), h, 0, TWO64).None?
    ensures s[Idx(Quad(|s|), |s|, h, t)].Occupied?
    decreases t
  {
    if t >= TWO64 {
      QuadNeverFree(s, h, t - TWO64);
      QuadPeriod(|s|, h, t - TWO64);
    }
  }

  /** The offset `t + t*t = t * (t + 1)` of every probe is even. */
  lemma {:induction false} EvenOffset(t: nat)
    ensures (t + t * t) % 2 == 0
  {
    if t > 0 {
      EvenOffset(t - 1);
      assert t * t == (t - 1) * (t - 1) + 2 * t - 1;
    }
  }

  lemma EvenSum(a: nat, b: nat)
    requires b % 2 == 0
    ensures (a + b) % 2 == a % 2
  {
  }

  /** Reducing modulo an even slot count keeps the parity of a position. */
  lemma EvenModulus(x: nat, n: nat)
    requires n > 0 && n % 2 == 0
    ensures x % n % 2 == x % 2
  {
    var k := x / n;
    var m := n / 2;
    assert x == n * k + x % n;
    assert n * k == 2 * (m * k);
  }

  /**
   * Until the 64-bit sum wraps, the probes of a key in a table with an even
   * slot count (every table after the first resize) all have the parity of
   * its home slot: the sequence never reaches half of the slots, which is
   * why a rehash or an insert can fail to find a free one.
   */
  lemma ProbesKeepParity(n: nat, h: U64, t: nat)
    requires n > 0 && n % 2 == 0 && h % n + t + t * t < TWO64
    ensures Idx(Quad(n), n, h, t) % 2 == (h % n) % 2
  {
    var offset := t + t * t;
    var x := h % n + offset;
    QuadNoWrap(n, h, t);
    EvenOffset(t);
    EvenModulus(x, n);
    EvenSum(h % n, offset);
  }

  /** Before the 64-bit sum wraps, probe `t` is the plain sum reduced modulo `n`. */
  lemma QuadNoWrap(n: nat, h: U64, t: nat)
    requires n > 0 && h % n + t + t * t < TWO64
    ensures Idx(Quad(n), n, h, t) == (h % n + (t + t * t)) % n
  {
    var x := h % n + t + t * t;
    assert Quad(n)(h, t) == x % TWO64 == x;
  }

  /**
   * `resize_map`: every live slot moved, in slot order, to the first free
   * slot of its probe sequence in a table twice as large. The C loop counter
   * `j` wraps at 2^64, and so does the probe position, so a rehash that finds
   * no free slot within 2^64 probes never ends. Doubling a 32-bit
   * `slots_count` of 2^31 or more wraps.
   */
  function Grow<V>(s: seq<Slot<U64, V>>): (r: Outcome<seq<Slot<U64, V>>>)
    requires |s| > 0
    ensures r.Overflows? <==> 2 * |s| >= TWO32
    ensures r.Done? ==> |r.value| == 2 * |s| < TWO32
  {
    if 2 * |s| >= TWO32 then Overflows
    else match Rehash(s, Quad(2 * |s|), 2 * |s|, TWO64)
      case None => Diverges
      case Some(g) => Done(g)
  }

  /**
   * The retry loop of `hashmap_qp_insert`: within `floor(log2 n)` probes the
   * key takes the first slot that is not held by another key; when there is
   * none the table grows and the key is tried again.
   */
  function Settle<V>(s: seq<Slot<U64, V>>, h: U64, key: U64, v: V): (r: Outcome<seq<Slot<U64, V>>>)
    requires |s| > 0
    ensures r.Done? ==> |r.value| >= |s|
    decreases TWO32 - |s|
  {
    match Place(s, Quad(|s|), h, key, 0, Log2(|s|))
    case Some(t) => Done(Put(s, Idx(Quad(|s|), |s|, h, t), h, key, v))
    case None =>
      match Grow(s)
      case Done(g) => Settle(g, h, key, v)
      case Diverges => Diverges
      case Overflows => Overflows
  }

  /** `hashmap_qp_insert`: the load check, then the retry loop. */
  function Inserted<V>(s: seq<Slot<U64, V>>, entries: nat, h: U64, key: U64, v: V): (r: Outcome<seq<Slot<U64, V>>>)
    requires |s| > 0
    ensures !Overloaded(entries, |s|) ==> r == Settle(s, h, key, v)
    ensures Overloaded(entries, |s|) && Grow(s).Done? ==> r == Settle(Grow(s).value, h, key, v)
    ensures Overloaded(entries, |s|) && !Grow(s).Done? ==> r.Overflows? == Grow(s).Overflows? && !r.Done?
  {
    if Overloaded(entries, |s|) then
      match Grow(s)
      case Done(g) => Settle(g, h, key, v)
      case Diverges => Diverges
      case Overflows => Overflows
    else
      Settle(s, h, key, v)
  }

  /**
   * `hashmap_qp_find_inner`: probes `0 .. limit - 1` from the home slot of
   * `h`, stopping at a vacant slot or at the slot that holds `key`.
   */
  method FindInner<V>(a: array<Slot<U64, V>>, limit: nat, h: U64, key: U64) returns (r: Option<nat>)
    requires a.Length > 0
    ensures var scan := Scan(a[..], Quad(a.Length), h, key, 0, limit);
      && (r.Some? <==> scan.Match?)
      && (r.Some? ==> r.value == Idx(Quad(a.Length), a.Length, h, scan.t))
    ensures r.Some? ==> r.value < a.Length && Hit(a[r.value], key)
    ensures Get(a[..], Quad(a.Length), h, key, limit) == if r.Some? then Some(a[r.value].value) else None
  {
    var n := a.Length;
    var home := h % n;
    var i := 0;
    while i < limit
      invariant i <= limit
      invariant Scan(a[..], Quad(n), h, key, i, limit) == Scan(a[..], Quad(n), h, key, 0, limit)
    {
      var idx := (home + i + i * i) % TWO64 % n;
      assert idx == Idx(Quad(n), n, h, i);
      if a[idx].Vacant? {
        return None;
      }
      if a[idx].Occupied? && a[idx].key == key {
        return Some(idx);
      }
      i := i + 1;
    }
    return None;
  }

  /**
   * One round of the insert's probe loop: probes `0 .. limit - 1` (the C
   * `do`-`while` always makes the first) for a slot that is not occupied or
   * holds `key`; `None` sends the insert to `resize_map`.
   */
  method ProbePlace<V>(a: array<Slot<U64, V>>, limit: nat, h: U64, key: U64) returns (r: Option<nat>)
    requires a.Length > 0 && limit >= 1
    ensures r.Some? == Place(a[..], Quad(a.Length), h, key, 0, limit).Some?
    ensures r.Some? ==> r.value == Idx(Quad(a.Length), a.Length, h, Place(a[..], Quad(a.Length), h, key, 0, limit).value)
  {
    var n := a.Length;
    var home := h % n;
    var i := 0;
    while true
      invariant i < limit
      invariant Place(a[..], Quad(n), h, key, i, limit) == Place(a[..], Quad(n), h, key, 0, limit)
      decreases limit - i
    {
      var idx := (home + i + i * i) % TWO64 % n;
      assert idx == Idx(Quad(n), n, h, i);
      if !a[idx].Occupied? || a[idx].key == key {
        return Some(idx);
      }
      i := i + 1;
      if i >= limit {
        return None;
      }
    }
  }

  /**
   * The inner loop of `resize_map`: the first probe of `h` whose slot is not
   * occupied, among the 2^64 probes after which the C loop repeats itself.
   */
  method ProbeFree<V>(a: array<Slot<U64, V>>, h: U64) returns (r: Option<nat>)
    requires a.Length > 0
    ensures r.Some? == FirstFree(a[..], Quad(a.Length), h, 0, TWO64).Some?
    ensures r.Some? ==> r.value == Idx(Quad(a.Length), a.Length, h, FirstFree(a[..], Quad(a.Length), h, 0, TWO64).value)
  {
    var n := a.Length;
    var home := h % n;
    var j := 0;
    while true
      invariant j < TWO64
      invariant FirstFree(a[..], Quad(n), h, j, TWO64) == FirstFree(a[..], Quad(n), h, 0, TWO64)
      decreases TWO64 - j
    {
      var idx := (home + j + j * j) % TWO64 % n;
      assert idx == Idx(Quad(n), n, h, j);
      if !a[idx].Occupied? {
        return Some(idx);
      }
      j := j + 1;
      if j == TWO64 {
        return None;
      }
    }
  }

  /** The rehash loop of `resize_map`: every live slot, in slot order, moved into a fresh table of `n2` slots. */
  method RehashInto<V>(a: array<Slot<U64, V>>, n2: nat) returns (next: Option<array<Slot<U64, V>>>)
    requires n2 > 0
    ensures next.Some? == Rehash(a[..], Quad(n2), n2, TWO64).Some?
    ensures next.Some? ==> fresh(next.value) && next.value[..] == Rehash(a[..], Quad(n2), n2, TWO64).value
  {
    ghost var rule := Quad(n2);
    var table := new Slot<U64, V>[n2](_ => Vacant);
    assert table[..] == Empty<U64, V>(n2);
    var i := 0;
    while i < a.Length
      invariant 0 <= i <= a.Length && table.Length == n2
      invariant RehashFrom(a[..], i, table[..], rule, TWO64) == Rehash(a[..], rule, n2, TWO64)
    {
      if a[i].Occupied? {
        var idx := ProbeFree(table, a[i].hash);
        if idx.None? {
          return None;
        }
        table[idx.value] := a[i];
      }
      i := i + 1;
    }
    return Some(table);
  }

  /**
   * A quadratic-probing hash map from 64-bit keys to values of type `V`.
   * The ghost `contents` is the map the table presents to lookups bounded by
   * `distance_limit`; the ghost `freed` logs, in order, every value handed
   * to `value_free`.
   */
  class HashMap<V> {
    var slots: array<Slot<U64, V>>
    var entries: nat
    var limit: nat
    const hasher: U64 -> U64
    ghost var contents: map<U64, V>
    ghost var freed: seq<V>

    /**
     * `slots_count` fits its 32-bit field, `distance_limit` is its floor-log2,
     * `entries_count` counts the live slots, which cache their key's hash and
     * are reachable, and `contents` is what bounded lookups find.
     */
    ghost predicate Valid()
      reads this, slots
    {
      && 10 <= slots.Length < TWO32
      && limit == Log2(slots.Length)
      && entries == Count(slots[..])
      && Cached(slots[..], hasher)
      && Reachable(slots[..], Quad(slots.Length))
      && Presents(slots[..], Quad(slots.Length), hasher, limit, contents)
    }

    /** `hashmap_qp_new`: ten vacant slots, no entries and a probe bound of 3. */
    constructor (hasher: U64 -> U64)
      ensures Valid() && fresh(slots)
      ensures slots[..] == Empty(10) && limit == 3
      ensures entries == 0 && contents == map[] && freed == [] && this.hasher == hasher
    {
      this.hasher := hasher;
      slots := new Slot<U64, V>[10](_ => Vacant);
      entries := 0;
      limit := Log2(10);
      contents := map[];
      freed := [];
      new;
      Log2OfTen();
      assert slots[..] == Empty(10);
      CountEmpty(slots[..]);
      ClearedFacts(slots[..], Quad(10), hasher, 3);
      assert Cleared(slots[..]) == slots[..];
    }

    /**
     * `resize_map`: on `Done` the table has doubled, holds the same live
     * entries and its probe bound has grown by one; otherwise nothing has
     * changed (the C code would wrap the slot counter or loop forever).
     */
    method ResizeMap() returns (r: Outcome<()>)
      requires Valid()
      modifies this
      ensures Valid() && entries == old(entries) && freed == old(freed)
      ensures var g := Grow(old(slots[..]));
        && r.Done? == g.Done? && r.Overflows? == g.Overflows?
        && (r.Done? ==> slots[..] == g.value)
      ensures r.Done? ==> fresh(slots) && slots.Length == 2 * old(slots.Length) && limit == old(limit) + 1
      ensures !r.Done? ==> unchanged(this)
    {
      var n := slots.Length;
      var n2 := 2 * n;
      if n2 >= TWO32 {
        return Overflows;
      }
      var next := RehashInto(slots, n2);
      if next.None? {
        return Diverges;
      }
      ghost var prev := slots[..];
      slots := next.value;
      limit := Log2(n2);
      Log2Double(n);
      RehashFacts(prev, Quad(n2), n2, TWO64, hasher);
      contents := View(slots[..], Quad(n2), hasher, limit);
      r := Done(());
    }

    /** `hashmap_qp_find`: the value of the slot `hashmap_qp_find_inner` finds. */
    method Find(key: U64) returns (r: Option<V>)
      requires Valid()
      ensures r == Lookup(contents, key)
    {
      var i := FindInner(slots, limit, hasher(key), key);
      if i.Some? {
        r := Some(slots[i.value].value);
      } else {
        r := None;
      }
    }

    /**
     * `hashmap_qp_insert`: the load check, then the retry loop. On `Done`
     * the key maps to the new value and, when no resize happened, nothing
     * else changed; the count grows by one unless a value was replaced, and
     * then that one value was freed.
     */
    method Insert(key: U64, value: V) returns (r: Outcome<()>)
      requires Valid()
      modifies this, slots
      ensures Valid() && (slots == old(slots) || fresh(slots))
      ensures var i := Inserted(old(slots[..]), old(entries), hasher(key), key, value);
        && r.Done? == i.Done? && r.Overflows? == i.Overflows?
        && (r.Done? ==> slots[..] == i.value)
      ensures r.Done? ==> key in contents && contents[key] == value
      ensures r.Done? && slots == old(slots) ==> contents == old(contents)[key := value]
      ensures r.Done? && slots == old(slots) && key !in old(contents) ==> entries == old(entries) + 1
      ensures r.Done? ==>
        || (entries == old(entries) + 1 && freed == old(freed))
        || (entries == old(entries) && |freed| == |old(freed)| + 1)
      ensures r.Done? && slots == old(slots) ==>
        || (entries == old(entries) + 1 && freed == old(freed))
        || (entries == old(entries) && key in old(contents) && freed == old(freed) + [old(contents)[key]])
      ensures r.Done? && slots == old(slots) && NoReleased(old(slots[..])) ==>
        (entries == old(entries) <==> key in old(contents))
      ensures !r.Done? ==> entries == old(entries) && freed == old(freed)
    {
      if 10 * entries >= 7 * slots.Length {
        r := ResizeMap();
        if !r.Done? {
          return;
        }
      }
      r := Retry(key, value);
    }

    /** The `while (1)` loop of `hashmap_qp_insert`: probe, and on failure resize and try again. */
    method Retry(key: U64, value: V) returns (r: Outcome<()>)
      requires Valid()
      modifies this, slots
      ensures Valid() && (slots == old(slots) || fresh(slots))
      ensures var i := Settle(old(slots[..]), hasher(key), key, value);
        && r.Done? == i.Done? && r.Overflows? == i.Overflows?
        && (r.Done? ==> slots[..] == i.value)
      ensures r.Done? ==> key in contents && contents[key] == value
      ensures r.Done? && slots == old(slots) ==> contents == old(contents)[key := value]
      ensures r.Done? && slots == old(slots) && key !in old(contents) ==> entries == old(entries) + 1
      ensures r.Done? ==>
        || (entries == old(entries) + 1 && freed == old(freed))
        || (entries == old(entries) && |freed| == |old(freed)| + 1)
      ensures r.Done? && slots == old(slots) ==>
        || (entries == old(entries) + 1 && freed == old(freed))
        || (entries == old(entries) && key in old(contents) && freed == old(freed) + [old(contents)[key]])
      ensures r.Done? && slots == old(slots) && NoReleased(old(slots[..])) ==>
        (entries == old(entries) <==> key in old(contents))
      ensures !r.Done? ==> entries == old(entries) && freed == old(freed)
    {
      var p := Locate(key, value);
      match p
      case Done(idx) =>
        ghost var c := contents;
        WriteEntry(key, value, idx);
        assert contents == c[key := value];
        r := Done(());
      case Diverges =>
        r := Diverges;
      case Overflows =>
        r := Overflows;
    }

    /**
     * The probing and resizing of the `while (1)` loop of `hashmap_qp_insert`,
     * up to the write: the slot the key takes in the final table, or the
     * failure that ends the loop.
     */
    method Locate(key: U64, value: V) returns (p: Outcome<nat>)
      requires Valid()
      modifies this
      ensures Valid() && (slots == old(slots) || fresh(slots))
      ensures entries == old(entries) && freed == old(freed)
      ensures slots == old(slots) ==> contents == old(contents) && slots[..] == old(slots[..])
      ensures var h := hasher(key); var i := Settle(old(slots[..]), h, key, value);
        && p.Done? == i.Done? && p.Overflows? == i.Overflows?
        && (p.Done? ==>
          && Place(slots[..], Quad(slots.Length), h, key, 0, limit).Some?
          && p.value == Idx(Quad(slots.Length), slots.Length, h, Place(slots[..], Quad(slots.Length), h, key, 0, limit).value)
          && i.value == Put(slots[..], p.value, h, key, value))
    {
      var h: U64 := hasher(key);
      ghost var goal := Settle(slots[..], h, key, value);
      while true
        invariant Valid() && (slots == old(slots) || fresh(slots))
        invariant Settle(slots[..], h, key, value) == goal
        invariant entries == old(entries) && freed == old(freed)
        invariant slots == old(slots) ==> contents == old(contents) && slots[..] == old(slots[..])
        decreases TWO32 - slots.Length
      {
        var q := ProbePlace(slots, limit, h, key);
        if q.Some? {
          return Done(q.value);
        }
        var g := ResizeMap();
        if !g.Done? {
          return if g.Diverges? then Diverges else Overflows;
        }
      }
    }

    /**
     * The write of `hashmap_qp_insert` into the slot its probe loop chose:
     * the key maps to the new value and nothing else changes; a replaced
     * value is the one the key had.
     */
    method WriteEntry(key: U64, value: V, idx: nat)
      requires Valid()
      requires Place(slots[..], Quad(slots.Length), hasher(key), key, 0, limit).Some?
      requires idx == Idx(Quad(slots.Length), slots.Length, hasher(key), Place(slots[..], Quad(slots.Length), hasher(key), key, 0, limit).value)
      modifies this`entries, this`freed, this`contents, slots
      ensures Valid()
      ensures slots[..] == Put(old(slots[..]), idx, hasher(key), key, value)
      ensures contents == old(contents)[key := value]
      ensures key !in old(contents) ==> entries == old(entries) + 1
      ensures NoReleased(old(slots[..])) ==> (entries == old(entries) <==> key in old(contents))
      ensures (entries == old(entries) + 1 && freed == old(freed))
        || (entries == old(entries) && key in old(contents) && freed == old(freed) + [old(contents)[key]])
    {
      ghost var g := slots[..];
      var h: U64 := hasher(key);
      if slots[idx].Occupied? {
        freed := freed + [slots[idx].value];
        slots[idx] := slots[idx].(value := value);
      } else {
        slots[idx] := Occupied(h, key, value);
        entries := entries + 1;
      }
      assert slots[..] == Put(g, idx, h, key, value);
      WriteFacts(g, slots[..], Quad(|g|), hasher, key, value, limit, contents, idx);
      contents := contents[key := value];
    }

    /**
     * `hashmap_qp_delete`: frees the value of the slot a lookup finds and
     * turns that slot into a tombstone.
     */
    method Delete(key: U64) returns (found: bool)
      requires Valid()
      modifies this`entries, this`freed, this`contents, slots
      ensures Valid()
      ensures var s := old(slots[..]); var r := Scan(s, Quad(|s|), hasher(key), key, 0, limit);
        && found == r.Match?
        && (found ==>
          var j := Idx(Quad(|s|), |s|, hasher(key), r.t);
          slots[..] == s[j := Released] && entries == old(entries) - 1 && freed == old(freed) + [s[j].value])
        && (!found ==> slots[..] == s && entries == old(entries) && freed == old(freed) && contents == old(contents))
      ensures found <==> key in old(contents)
      ensures contents - {key} == old(contents) - {key}
      ensures Unique(old(slots[..])) ==> contents == old(contents) - {key}
    {
      ghost var s := slots[..];
      ghost var rule := Quad(slots.Length);
      assert Lookup(contents, key) == Get(s, rule, hasher(key), key, limit);
      var i := FindInner(slots, limit, hasher(key), key);
      if i.None? {
        return false;
      }
      var idx := i.value;
      ReleaseInvariants(s, rule, hasher, idx);
      ReleaseView(s, rule, hasher, idx, limit, contents);
      freed := freed + [slots[idx].value];
      slots[idx] := Released;
      entries := entries - 1;
      contents := View(slots[..], rule, hasher, limit);
      found := true;
    }

    /** `hashmap_qp_clear`: frees every live value, in slot order, and empties its slot. */
    method Clear()
      requires Valid()
      modifies this`entries, this`freed, this`contents, slots
      ensures Valid()
      ensures slots[..] == Cleared(old(slots[..])) && entries == 0 && contents == map[]
      ensures freed == old(freed) + LiveValues(old(slots[..])) && |freed| == |old(freed)| + old(entries)
    {
      ghost var s := slots[..];
      LiveValuesCount(s);
      ClearedFacts(s, Quad(|s|), hasher, limit);
      var released := ClearSlots(slots);
      freed := freed + released;
      entries := 0;
      contents := map[];
    }

    /** The per-value loop of `hashmap_qp_free`: every live value, in slot order, goes to `value_free`. */
    method Free()
      requires Valid()
      modifies this`freed
      ensures freed == old(freed) + LiveValues(slots[..]) && |freed| == |old(freed)| + entries
    {
      LiveValuesCount(slots[..]);
      var i := 0;
      while i < slots.Length
        invariant 0 <= i <= slots.Length
        invariant freed == old(freed) + LiveValues(slots[..i])
      {
        LiveValuesStep(slots[..], i);
        if slots[i].Occupied? {
          freed := freed + [slots[i].value];
        }
        i := i + 1;
      }
      assert slots[..i] == slots[..];
    }
  }
}
