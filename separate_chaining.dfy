/**
 * The separate-chaining engine (`hashmap_sc`): an array of buckets, each a
 * growable buffer of entries. A key lives in bucket `hash % buckets_count`,
 * a new key is appended at the end of its bucket, and a delete fills the
 * gap with the bucket's last entry. When the entries reach three per
 * bucket, inserting a new key first doubles the bucket array, splitting
 * each bucket `i` in place between `i` and `i + buckets_count`.
 *
 * Buckets are values: the `size` live entries of a buffer are the sequence
 * `entries`, and `capacity` is the length of the buffer, 0 while it is
 * unallocated.
 */
module SeparateChaining {
  import opened Common

  /** An entry of a bucket: the cached hash of its key, the key and the value. */
  datatype Entry<V> = Entry(hash: U64, key: U64, value: V)

  /** A bucket: its live entries `buffer[0 .. size - 1]` and the capacity of its buffer. */
  datatype Bucket<V> = Bucket(entries: seq<Entry<V>>, capacity: nat)

  /**
   * The append of `insert` and of the resize loop: an unallocated buffer
   * (whose size is 0) gets room for one entry, a full one doubles, and the
   * entry goes at index `size`.
   */
  function Append<V>(b: Bucket<V>, e: Entry<V>): (r: Bucket<V>)
    ensures r.entries == b.entries + [e]
    ensures |b.entries| <= b.capacity ==> |r.entries| <= r.capacity
    ensures r.capacity >= b.capacity
    ensures r.capacity != b.capacity ==> b.capacity == 0 || |b.entries| == b.capacity
  {
    if b.capacity == 0 then Bucket(b.entries + [e], 1)
    else if |b.entries| == b.capacity then Bucket(b.entries + [e], 2 * b.capacity)
    else Bucket(b.entries + [e], b.capacity)
  }

  /** Appends `es` one by one, in order, as the resize loop does to a new bucket. */
  function AppendAll<V>(b: Bucket<V>, es: seq<Entry<V>>): (r: Bucket<V>)
    requires |b.entries| <= b.capacity
    ensures r.entries == b.entries + es && |r.entries| <= r.capacity
    decreases |es|
  {
    if es == [] then b
    else Append(AppendAll(b, es[..|es| - 1]), es[|es| - 1])
  }

  /**
   * The compaction of `delete` and of the resize loop: the last entry
   * moves into position `j` and the size shrinks by one.
   */
  function SwapRemove<V>(es: seq<Entry<V>>, j: nat): (r: seq<Entry<V>>)
    requires j < |es|
    ensures |r| == |es| - 1
    ensures multiset(r) + multiset{es[j]} == multiset(es)
    ensures forall k :: 0 <= k < |r| && k != j ==> r[k] == es[k]
    ensures j < |r| ==> r[j] == es[|es| - 1]
  {
    var last := |es| - 1;
    assert es == es[..last] + [es[last]];
    var r := es[j := es[last]][..last];
    assert j < last ==> r == es[..last][j := es[last]];
    r
  }

  /** The bucket search of `find_inner` and `delete`: the first position holding `key`. */
  function Position<V>(es: seq<Entry<V>>, key: U64): (r: Option<nat>)
    ensures r.Some? ==> r.value < |es| && es[r.value].key == key
    ensures forall k :: 0 <= k < |es| && (r.None? || k < r.value) ==> es[k].key != key
  {
    if es == [] then None
    else if es[0].key == key then Some(0)
    else match Position(es[1..], key)
      case None => None
      case Some(p) => Some(p + 1)
  }

  /**
   * The inner loop of the resize over bucket `i`, from position `j` on,
   * exactly as written: an entry whose hash picks bucket `i` in the doubled
   * array stays and the loop moves on; any other entry is taken out by
   * swap-with-last, appended to `moved`, and position `j` is examined again.
   * The result is the bucket left behind and the entries moved out, in order.
   */
  function Partition<V>(es: seq<Entry<V>>, j: nat, n2: nat, i: nat, moved: seq<Entry<V>>): (r: (seq<Entry<V>>, seq<Entry<V>>))
    requires n2 > 0 && j <= |es|
    ensures |r.0| + |r.1| == |es| + |moved| && j <= |r.0| && |moved| <= |r.1|
    ensures r.0[..j] == es[..j] && r.1[..|moved|] == moved
    decreases |es| - j
  {
    if j == |es| then (es, moved)
    else if es[j].hash % n2 == i then Partition(es, j + 1, n2, i, moved)
    else
      var rest := SwapRemove(es, j);
      assert rest[..j] == es[..j];
      assert (moved + [es[j]])[..|moved|] == moved;
      Partition(rest, j, n2, i, moved + [es[j]])
  }

  /**
   * The split keeps every entry, in one part or the other: the first part
   * holds the entries whose hash picks bucket `i` of `n2`, the second the
   * others, provided the positions already passed and the entries already
   * moved are of those kinds.
   */
  lemma {:induction false} PartitionParts<V>(es: seq<Entry<V>>, j: nat, n2: nat, i: nat, moved: seq<Entry<V>>)
    requires n2 > 0 && j <= |es|
    requires forall k :: 0 <= k < j ==> es[k].hash % n2 == i
    requires forall k :: 0 <= k < |moved| ==> moved[k].hash % n2 != i
    ensures var r := Partition(es, j, n2, i, moved);
      && multiset(r.0) + multiset(r.1) == multiset(es) + multiset(moved)
      && (forall k :: 0 <= k < |r.0| ==> r.0[k].hash % n2 == i)
      && (forall k :: 0 <= k < |r.1| ==> r.1[k].hash % n2 != i)
    decreases |es| - j
  {
    if j == |es| {
    } else if es[j].hash % n2 == i {
      PartitionParts(es, j + 1, n2, i, moved);
    } else {
      var rest := SwapRemove(es, j);
      PartitionParts(rest, j, n2, i, moved + [es[j]]);
      assert multiset(moved + [es[j]]) == multiset(moved) + multiset{es[j]};
    }
  }

  /**
   * The split of old bucket `i` of `n`: the bucket left at `i`, with its
   * buffer, and the new bucket `i + n` the moved entries are appended to.
   */
  function Split<V>(bk: Bucket<V>, n: nat, i: nat): (r: (Bucket<V>, Bucket<V>))
    requires n > 0
    ensures |r.0.entries| + |r.1.entries| == |bk.entries|
    ensures r.0.capacity == bk.capacity && |r.1.entries| <= r.1.capacity
  {
    (Stays(bk, n, i), Moves(bk, n, i))
  }

  /** The bucket left at `i` by the split: the entries that stay, in the old buffer. */
  function Stays<V>(bk: Bucket<V>, n: nat, i: nat): Bucket<V>
    requires n > 0
  {
    Bucket(Partition(bk.entries, 0, 2 * n, i, []).0, bk.capacity)
  }

  /** The new bucket `i + n`: the moved entries appended, in order, to an unallocated buffer. */
  function Moves<V>(bk: Bucket<V>, n: nat, i: nat): Bucket<V>
    requires n > 0
  {
    AppendAll(Bucket([], 0), Partition(bk.entries, 0, 2 * n, i, []).1)
  }

  /**
   * `resize_if_load_factor_exceeded` once it decides to grow: bucket `k`
   * keeps the entries that stay and bucket `k + n` receives, in order, the
   * ones moved out of bucket `k`.
   */
  function Grown<V>(bs: seq<Bucket<V>>): (r: seq<Bucket<V>>)
    requires |bs| > 0
    ensures |r| == 2 * |bs|
  {
    var n := |bs|;
    seq(2 * n, k requires 0 <= k < 2 * n =>
      if k < n then Stays(bs[k], n, k) else Moves(bs[k - n], n, k - n))
  }

  /** The load check `1. * entries / buckets < 3`, exact in integers for 32-bit counts: grow at three entries per bucket. */
  predicate Overloaded(entries: nat, n: nat) {
    entries >= 3 * n
  }

  /** `hashmap_sc_insert` on the bucket array: overwrite in place when the key is present; otherwise grow if overloaded and append. */
  function Inserted<V>(bs: seq<Bucket<V>>, entries: nat, h: U64, key: U64, v: V): (r: seq<Bucket<V>>)
    requires |bs| > 0
    ensures |r| == if Position(bs[h % |bs|].entries, key).None? && Overloaded(entries, |bs|) then 2 * |bs| else |bs|
    ensures |r| == |bs| ==> forall k :: 0 <= k < |bs| && k != h % |bs| ==> r[k] == bs[k]
  {
    var b := h % |bs|;
    match Position(bs[b].entries, key)
    case Some(j) =>
      var es := bs[b].entries;
      bs[b := Bucket(es[j := es[j].(value := v)], bs[b].capacity)]
    case None =>
      var g := if Overloaded(entries, |bs|) then Grown(bs) else bs;
      var b' := h % |g|;
      g[b' := Append(g[b'], Entry(h, key, v))]
  }

  /** `hashmap_sc_delete` on the bucket array: the entry holding the key is replaced by its bucket's last. */
  function Deleted<V>(bs: seq<Bucket<V>>, h: U64, key: U64): (r: seq<Bucket<V>>)
    requires |bs| > 0
    ensures |r| == |bs| && r[h % |bs|].capacity == bs[h % |bs|].capacity
    ensures forall k :: 0 <= k < |bs| && k != h % |bs| ==> r[k] == bs[k]
  {
    var b := h % |bs|;
    match Position(bs[b].entries, key)
    case Some(j) => bs[b := Bucket(SwapRemove(bs[b].entries, j), bs[b].capacity)]
    case None => bs
  }

  /** The number of entries over all buckets: the sum of the bucket sizes. */
  function Size<V>(bs: seq<Bucket<V>>): nat {
    if bs == [] then 0 else Size(bs[..|bs| - 1]) + |bs[|bs| - 1].entries|
  }

  /** The values of a bucket, in buffer order. */
  function EntryValues<V>(es: seq<Entry<V>>): (r: seq<V>)
    ensures |r| == |es| && forall j :: 0 <= j < |es| ==> r[j] == es[j].value
  {
    seq(|es|, j requires 0 <= j < |es| => es[j].value)
  }

  /** The values of all buckets, in the order `clear` and `free` hand them to `value_free`. */
  function Values<V>(bs: seq<Bucket<V>>): seq<V> {
    if bs == [] then [] else Values(bs[..|bs| - 1]) + EntryValues(bs[|bs| - 1].entries)
  }

  /** No two entries of a bucket share a key. */
  predicate Distinct<V>(es: seq<Entry<V>>) {
    forall p, q :: 0 <= p < q < |es| ==> es[p].key != es[q].key
  }

  /** Every entry of `es` has a hash that picks bucket `b` of `n` buckets. */
  predicate AllPick<V>(es: seq<Entry<V>>, n: nat, b: nat)
    requires n > 0
  {
    forall j :: 0 <= j < |es| ==> es[j].hash % n == b
  }

  /** Every entry caches the hash of its key. */
  ghost predicate Hashed<V>(es: seq<Entry<V>>, hashOf: U64 -> U64) {
    forall j :: 0 <= j < |es| ==> es[j].hash == hashOf(es[j].key)
  }

  /** Every entry is a pair of the map `m`. */
  ghost predicate Belongs<V>(es: seq<Entry<V>>, m: map<U64, V>) {
    forall j :: 0 <= j < |es| ==> es[j].key in m && m[es[j].key] == es[j].value
  }

  /**
   * Bucket `b` of `n` is in order: its size is within its capacity, its keys
   * are distinct, and each entry caches its hash, sits in the bucket that
   * hash picks and is a pair of `m`.
   */
  ghost predicate Sound<V>(bk: Bucket<V>, hashOf: U64 -> U64, m: map<U64, V>, n: nat, b: nat)
    requires n > 0
  {
    && |bk.entries| <= bk.capacity
    && Distinct(bk.entries)
    && AllPick(bk.entries, n, b)
    && Hashed(bk.entries, hashOf)
    && Belongs(bk.entries, m)
  }

  /** The search of the bucket the hash of `key` picks finds it. */
  ghost predicate Found<V>(bs: seq<Bucket<V>>, hashOf: U64 -> U64, key: U64)
    requires |bs| > 0
  {
    Position(bs[hashOf(key) % |bs|].entries, key).Some?
  }

  /**
   * The bucket array holds exactly the map `m`: every bucket is sound and
   * every key of `m` is found in the bucket its hash picks.
   */
  ghost predicate Chained<V>(bs: seq<Bucket<V>>, hashOf: U64 -> U64, m: map<U64, V>) {
    && |bs| > 0
    && (forall b :: 0 <= b < |bs| ==> Sound(bs[b], hashOf, m, |bs|, b))
    && (forall k {:trigger Found(bs, hashOf, k)} :: k in m ==> Found(bs, hashOf, k))
  }

  // Multiset facts behind the distinct-keys invariant.

  /** An entry found at two positions of a sequence counts twice in its multiset. */
  lemma TwiceCounted<V>(s: seq<Entry<V>>, p: nat, q: nat)
    requires p < q < |s| && s[p] == s[q]
    ensures multiset(s)[s[p]] >= 2
  {
    assert s == s[..q] + s[q..];
    assert s[..q][p] == s[p];
    assert s[q..][0] == s[q];
    assert multiset(s) == multiset(s[..q]) + multiset(s[q..]);
  }

  /** An entry that counts twice in the multiset of a sequence is found at two positions. */
  lemma TwoPositions<V>(s: seq<Entry<V>>, x: Entry<V>)
    requires multiset(s)[x] >= 2
    ensures exists p, q :: 0 <= p < q < |s| && s[p] == x && s[q] == x
  {
    assert x in multiset(s);
    var p :| 0 <= p < |s| && s[p] == x;
    assert s == s[..p] + [s[p]] + s[p + 1..];
    assert multiset(s) == multiset(s[..p]) + multiset{x} + multiset(s[p + 1..]);
    if x in multiset(s[..p]) {
      var q :| 0 <= q < p && s[..p][q] == x;
      assert s[q] == x;
    } else {
      assert x in multiset(s[p + 1..]);
      var q :| 0 <= q < |s| - p - 1 && s[p + 1..][q] == x;
      assert s[p + 1 + q] == x;
    }
  }

  /** A sub-multiset of a bucket with distinct keys has distinct keys, whatever its order. */
  lemma DistinctSub<V>(a: seq<Entry<V>>, b: seq<Entry<V>>)
    requires multiset(a) <= multiset(b) && Distinct(b)
    ensures Distinct(a)
  {
    forall p, q | 0 <= p < q < |a|
      ensures a[p].key != a[q].key
    {
      if a[p] == a[q] {
        TwiceCounted(a, p, q);
        TwoPositions(b, a[p]);
      } else {
        assert a[p] in multiset(b) && a[q] in multiset(b);
        var p' :| 0 <= p' < |b| && b[p'] == a[p];
        var q' :| 0 <= q' < |b| && b[q'] == a[q];
        assert p' != q';
      }
    }
  }

  /** In a bucket with distinct keys, the search finds exactly the position holding the key. */
  lemma PositionAt<V>(es: seq<Entry<V>>, p: nat)
    requires p < |es| && Distinct(es)
    ensures Position(es, es[p].key) == Some(p)
  {
  }

  /** The search finds a key that some entry of the bucket holds. */
  lemma PositionOf<V>(es: seq<Entry<V>>, x: Entry<V>)
    requires x in multiset(es)
    ensures Position(es, x.key).Some?
  {
    var p :| 0 <= p < |es| && es[p] == x;
  }

  /**
   * What a lookup in the map gives is what the search of the bucket the
   * key's hash picks gives.
   */
  lemma ChainedLookup<V>(bs: seq<Bucket<V>>, hashOf: U64 -> U64, m: map<U64, V>, k: U64)
    requires Chained(bs, hashOf, m)
    ensures var es := bs[hashOf(k) % |bs|].entries;
      Lookup(m, k) == if Position(es, k).Some? then Some(es[Position(es, k).value].value) else None
  {
    var i := hashOf(k) % |bs|;
    assert Sound(bs[i], hashOf, m, |bs|, i);
    assert k in m ==> Found(bs, hashOf, k);
  }

  // Sizes.

  lemma {:induction false} SizeUpdate<V>(bs: seq<Bucket<V>>, b: nat, x: Bucket<V>)
    requires b < |bs|
    ensures Size(bs[b := x]) + |bs[b].entries| == Size(bs) + |x.entries|
    decreases |bs|
  {
    var last := |bs| - 1;
    if b < last {
      SizeUpdate(bs[..last], b, x);
      assert bs[b := x][..last] == bs[..last][b := x];
    } else {
      assert bs[b := x][..last] == bs[..last];
    }
  }

  lemma {:induction false} SizeConcat<V>(a: seq<Bucket<V>>, c: seq<Bucket<V>>)
    ensures Size(a + c) == Size(a) + Size(c)
    decreases |c|
  {
    if c == [] {
      assert a + c == a;
    } else {
      var last := |c| - 1;
      SizeConcat(a, c[..last]);
      assert (a + c)[..|a + c| - 1] == a + c[..last];
    }
  }

  /** Two bucket arrays whose buckets pair up, size for size, with those of `bs` hold as many entries as `bs`. */
  lemma {:induction false} SizePaired<V>(a: seq<Bucket<V>>, c: seq<Bucket<V>>, bs: seq<Bucket<V>>)
    requires |a| == |c| == |bs|
    requires forall k :: 0 <= k < |bs| ==> |a[k].entries| + |c[k].entries| == |bs[k].entries|
    ensures Size(a) + Size(c) == Size(bs)
    decreases |bs|
  {
    if bs != [] {
      var last := |bs| - 1;
      SizePaired(a[..last], c[..last], bs[..last]);
    }
  }

  /** The values of the first `i + 1` buckets are those of the first `i`, then those of bucket `i`. */
  lemma ValuesStep<V>(bs: seq<Bucket<V>>, i: nat)
    requires i < |bs|
    ensures Values(bs[..i + 1]) == Values(bs[..i]) + EntryValues(bs[i].entries)
  {
    assert bs[..i + 1][..i] == bs[..i];
  }

  lemma {:induction false} ValuesSize<V>(bs: seq<Bucket<V>>)
    ensures |Values(bs)| == Size(bs)
    decreases |bs|
  {
    if bs != [] {
      ValuesSize(bs[..|bs| - 1]);
    }
  }

  // The resize.

  /** The hash of an entry of bucket `i` picks bucket `i` or `i + n` once the array doubles. */
  lemma ModDouble(h: nat, n: nat)
    requires n > 0
    ensures h % (2 * n) == h % n || h % (2 * n) == h % n + n
  {
    Halves(h, n);
    var q: nat := h / (2 * n);
    var r: nat := h % (2 * n);
    if r < n {
      ModUnique(h, n, 2 * q, r);
    } else {
      ModUnique(h, n, 2 * q + 1, r - n);
    }
  }

  /** Euclidean division by `2n`, read as division by `n`. */
  lemma Halves(h: nat, n: nat)
    requires n > 0
    ensures var q, r := h / (2 * n), h % (2 * n);
      && 0 <= q && 0 <= r < 2 * n
      && h == (2 * q) * n + r && (r >= n ==> h == (2 * q + 1) * n + (r - n))
  {
    var m := 2 * n;
    var q, r := h / m, h % m;
    assert h == q * m + r && 0 <= r < m;
    if q < 0 {
      MultiplyMonotone(1, -q, m);
      assert false;
    }
    assert q * m == (2 * q) * n;
  }

  /** What the split of bucket `k` leaves in bucket `k` and puts into bucket `k + n`. */
  lemma GrownBucket<V>(bs: seq<Bucket<V>>, k: nat)
    requires k < |bs|
    ensures var n := |bs|; var g := Grown(bs); var part := Partition(bs[k].entries, 0, 2 * n, k, []);
      && g[k] == Bucket(part.0, bs[k].capacity)
      && g[k + n].entries == part.1 && |part.1| <= g[k + n].capacity
  {
    var n := |bs|;
    var g := Grown(bs);
    var part := Partition(bs[k].entries, 0, 2 * n, k, []);
    assert g[k] == Stays(bs[k], n, k) && g[k + n] == Moves(bs[k], n, k);
    assert g[k] == Bucket(part.0, bs[k].capacity);
    var hi := AppendAll(Bucket([], 0), part.1);
    assert g[k + n] == hi;
    assert hi.entries == [] + part.1 == part.1;
  }

  /** Buckets `k` and `k + n` of the doubled array, as the split of old bucket `k` leaves them. */
  lemma GrownPair<V>(bs: seq<Bucket<V>>, k: nat)
    requires k < |bs|
    ensures Split(bs[k], |bs|, k) == (Grown(bs)[k], Grown(bs)[k + |bs|])
  {
  }

  /** The two halves of a split together are as long as the bucket split. */
  lemma PartitionSizes<V>(es: seq<Entry<V>>, n2: nat, k: nat)
    requires n2 > 0
    ensures var part := Partition(es, 0, n2, k, []); |part.0| + |part.1| == |es|
  {
    var part := Partition(es, 0, n2, k, []);
    PartitionParts(es, 0, n2, k, []);
    var none: seq<Entry<V>> := [];
    assert multiset(none) == multiset{};
    assert multiset(part.0) + multiset(part.1) == multiset(es);
    assert |multiset(part.0) + multiset(part.1)| == |multiset(part.0)| + |multiset(part.1)|;
  }

  /** The two halves of a split are parts of the bucket split. */
  lemma PartsOf<V>(es: seq<Entry<V>>, n2: nat, k: nat)
    requires n2 > 0
    ensures var part := Partition(es, 0, n2, k, []);
      multiset(part.0) <= multiset(es) && multiset(part.1) <= multiset(es)
  {
    var part := Partition(es, 0, n2, k, []);
    PartitionParts(es, 0, n2, k, []);
    assert multiset(part.0) + multiset(part.1) == multiset(es);
  }

  /** Splitting bucket `k` keeps its entries, distinct and within capacity, and sends each to the bucket its hash picks in the doubled array. */
  lemma GrownSplit<V>(bs: seq<Bucket<V>>, k: nat)
    requires k < |bs| && Distinct(bs[k].entries) && AllPick(bs[k].entries, |bs|, k)
    requires |bs[k].entries| <= bs[k].capacity
    ensures var n := |bs|; var g := Grown(bs); var es := bs[k].entries;
      && multiset(g[k].entries) + multiset(g[k + n].entries) == multiset(es)
      && Distinct(g[k].entries) && Distinct(g[k + n].entries)
      && |g[k].entries| <= g[k].capacity && |g[k + n].entries| <= g[k + n].capacity
      && AllPick(g[k].entries, 2 * n, k) && AllPick(g[k + n].entries, 2 * n, k + n)
  {
    PartsSplit(bs[k].entries, |bs|, k);
    GrownBucket(bs, k);
  }

  /** The two parts of a split bucket: its entries shared out, distinct, each part in the bucket its hashes pick. */
  lemma PartsSplit<V>(es: seq<Entry<V>>, n: nat, k: nat)
    requires n > 0 && Distinct(es) && AllPick(es, n, k)
    ensures var part := Partition(es, 0, 2 * n, k, []);
      && multiset(part.0) + multiset(part.1) == multiset(es)
      && Distinct(part.0) && Distinct(part.1) && |part.0| <= |es|
      && AllPick(part.0, 2 * n, k) && AllPick(part.1, 2 * n, k + n)
  {
    var part := Partition(es, 0, 2 * n, k, []);
    PartitionParts(es, 0, 2 * n, k, []);
    PartsOf(es, 2 * n, k);
    DistinctSub(part.0, es);
    DistinctSub(part.1, es);
    forall j | 0 <= j < |part.1|
      ensures part.1[j].hash % (2 * n) == k + n
    {
      assert part.1[j] in multiset(es);
      var p :| 0 <= p < |es| && es[p] == part.1[j];
      ModDouble(part.1[j].hash, n);
    }
  }

  /** The entries of a part of a bucket cache their hashes and are pairs of the map, as the bucket's do. */
  lemma SubSound<V>(a: seq<Entry<V>>, es: seq<Entry<V>>, hashOf: U64 -> U64, m: map<U64, V>)
    requires multiset(a) <= multiset(es) && Hashed(es, hashOf) && Belongs(es, m)
    ensures Hashed(a, hashOf) && Belongs(a, m)
  {
    forall j | 0 <= j < |a|
      ensures a[j].hash == hashOf(a[j].key) && a[j].key in m && m[a[j].key] == a[j].value
    {
      assert a[j] in multiset(es);
      var p :| 0 <= p < |es| && es[p] == a[j];
    }
  }

  /** Splitting a sound bucket `k` leaves two sound buckets `k` and `k + n` of the doubled array, sharing its entries. */
  lemma GrownSound<V>(bs: seq<Bucket<V>>, hashOf: U64 -> U64, m: map<U64, V>, k: nat)
    requires k < |bs| && Sound(bs[k], hashOf, m, |bs|, k)
    ensures var n := |bs|; var g := Grown(bs);
      && Sound(g[k], hashOf, m, 2 * n, k) && Sound(g[k + n], hashOf, m, 2 * n, k + n)
      && multiset(g[k].entries) + multiset(g[k + n].entries) == multiset(bs[k].entries)
  {
    var n := |bs|;
    var g := Grown(bs);
    var es := bs[k].entries;
    GrownSplit(bs, k);
    SubSound(g[k].entries, es, hashOf, m);
    SubSound(g[k + n].entries, es, hashOf, m);
  }

  /** Every key of the map is found in the bucket its hash picks in the doubled array. */
  lemma GrownFinds<V>(bs: seq<Bucket<V>>, hashOf: U64 -> U64, m: map<U64, V>, key: U64)
    requires |bs| > 0 && Found(bs, hashOf, key)
    requires var i := hashOf(key) % |bs|; Sound(bs[i], hashOf, m, |bs|, i)
    ensures Found(Grown(bs), hashOf, key)
  {
    var n := |bs|;
    var g := Grown(bs);
    var i := hashOf(key) % n;
    var es := bs[i].entries;
    var p := Position(es, key).value;
    var x := es[p];
    assert x.hash == hashOf(key) && x.key == key by {
      assert Hashed(es, hashOf);
    }
    GrownSound(bs, hashOf, m, i);
    assert x in multiset(es);
    var b := if x in multiset(g[i].entries) then i else i + n;
    assert x in multiset(g[b].entries);
    var q :| 0 <= q < |g[b].entries| && g[b].entries[q] == x;
    assert AllPick(g[b].entries, 2 * n, b);
    assert hashOf(key) % (2 * n) == b;
    PositionOf(g[b].entries, x);
  }

  /** The resize keeps the map the buckets hold, and the number of entries. */
  lemma GrownKeeps<V>(bs: seq<Bucket<V>>, hashOf: U64 -> U64, m: map<U64, V>)
    requires Chained(bs, hashOf, m)
    ensures Chained(Grown(bs), hashOf, m) && Size(Grown(bs)) == Size(bs)
  {
    var n := |bs|;
    var g := Grown(bs);
    forall b | 0 <= b < 2 * n
      ensures Sound(g[b], hashOf, m, 2 * n, b)
    {
      if b < n {
        GrownSound(bs, hashOf, m, b);
      } else {
        GrownSound(bs, hashOf, m, b - n);
      }
    }
    forall key | key in m
      ensures Found(g, hashOf, key)
    {
      var i := hashOf(key) % n;
      assert Sound(bs[i], hashOf, m, n, i);
      GrownFinds(bs, hashOf, m, key);
    }
    GrownSize(bs);
  }

  /** The resize keeps the number of entries. */
  lemma GrownSize<V>(bs: seq<Bucket<V>>)
    requires |bs| > 0
    ensures Size(Grown(bs)) == Size(bs)
  {
    GrownHalves(bs);
    PairedSize(Grown(bs), bs);
  }

  /** Old bucket `k` shares its entries out between buckets `k` and `k + n` of the doubled array. */
  lemma GrownHalves<V>(bs: seq<Bucket<V>>)
    requires |bs| > 0
    ensures var g := Grown(bs);
      forall k :: 0 <= k < |bs| ==> |g[k].entries| + |g[k + |bs|].entries| == |bs[k].entries|
  {
    var n := |bs|;
    forall k | 0 <= k < n
      ensures |Grown(bs)[k].entries| + |Grown(bs)[k + n].entries| == |bs[k].entries|
    {
      GrownBucket(bs, k);
      PartitionSizes(bs[k].entries, 2 * n, k);
    }
  }

  /** An array twice as long whose buckets `k` and `k + n` share out the entries of bucket `k` holds as many entries. */
  lemma PairedSize<V>(g: seq<Bucket<V>>, bs: seq<Bucket<V>>)
    requires |g| == 2 * |bs|
    requires forall k :: 0 <= k < |bs| ==> |g[k].entries| + |g[k + |bs|].entries| == |bs[k].entries|
    ensures Size(g) == Size(bs)
  {
    var n := |bs|;
    var lo, hi := g[..n], g[n..];
    forall k | 0 <= k < n
      ensures |lo[k].entries| + |hi[k].entries| == |bs[k].entries|
    {
      assert lo[k] == g[k] && hi[k] == g[k + n];
    }
    SizePaired(lo, hi, bs);
    assert g == lo + hi;
    SizeConcat(lo, hi);
  }

  // Insert, delete and clear keep the map the buckets hold.

  /** The search finds a key that the entry at position `q` holds. */
  lemma PositionHas<V>(es: seq<Entry<V>>, q: nat)
    requires q < |es|
    ensures Position(es, es[q].key).Some?
  {
    assert es[q] in multiset(es);
    PositionOf(es, es[q]);
  }

  /** An entry whose key the map does not hold is in no sound bucket. */
  lemma Absent<V>(bk: Bucket<V>, hashOf: U64 -> U64, m: map<U64, V>, n: nat, b: nat, key: U64)
    requires n > 0 && Sound(bk, hashOf, m, n, b) && key !in m
    ensures Position(bk.entries, key).None?
  {
    forall j | 0 <= j < |bk.entries|
      ensures bk.entries[j].key != key
    {
      assert Belongs(bk.entries, m);
    }
  }

  /** A bucket other than the one the hash of `key` picks holds no entry for `key`. */
  lemma Elsewhere<V>(bk: Bucket<V>, hashOf: U64 -> U64, m: map<U64, V>, n: nat, b: nat, key: U64)
    requires n > 0 && Sound(bk, hashOf, m, n, b) && hashOf(key) % n != b
    ensures forall j :: 0 <= j < |bk.entries| ==> bk.entries[j].key != key
  {
    forall j | 0 <= j < |bk.entries|
      ensures bk.entries[j].key != key
    {
      assert Hashed(bk.entries, hashOf) && AllPick(bk.entries, n, b);
    }
  }

  /** A bucket without an entry for `key` stays sound when the map gives `key` a value, or loses it. */
  lemma SoundWithout<V>(bk: Bucket<V>, hashOf: U64 -> U64, m: map<U64, V>, n: nat, b: nat, key: U64, v: V)
    requires n > 0 && Sound(bk, hashOf, m, n, b)
    requires forall j :: 0 <= j < |bk.entries| ==> bk.entries[j].key != key
    ensures Sound(bk, hashOf, m[key := v], n, b) && Sound(bk, hashOf, m - {key}, n, b)
  {
    assert Belongs(bk.entries, m);
  }

  /** Appending an entry for a new key keeps the search of every other key. */
  lemma PositionAppend<V>(es: seq<Entry<V>>, e: Entry<V>, key: U64)
    requires Position(es, key).Some?
    ensures Position(es + [e], key) == Position(es, key)
  {
    var p := Position(es, key).value;
    assert (es + [e])[p] == es[p];
  }

  /**
   * The append of `insert`: a key the map does not hold, appended to the
   * bucket its hash picks, makes the array hold the map with that key
   * added, and one entry more.
   */
  lemma AppendKeeps<V>(g: seq<Bucket<V>>, hashOf: U64 -> U64, m: map<U64, V>, key: U64, v: V)
    requires Chained(g, hashOf, m) && key !in m
    ensures var b := hashOf(key) % |g|; var r := g[b := Append(g[b], Entry(hashOf(key), key, v))];
      Chained(r, hashOf, m[key := v]) && Size(r) == Size(g) + 1
  {
    var n := |g|;
    var b := hashOf(key) % n;
    var e := Entry(hashOf(key), key, v);
    var es := g[b].entries;
    var r := g[b := Append(g[b], e)];
    var m' := m[key := v];
    assert Sound(g[b], hashOf, m, n, b);
    Absent(g[b], hashOf, m, n, b, key);
    SoundWithout(g[b], hashOf, m, n, b, key, v);
    assert Sound(r[b], hashOf, m', n, b) by {
      assert r[b].entries == es + [e];
    }
    forall c | 0 <= c < n && c != b
      ensures Sound(r[c], hashOf, m', n, c)
    {
      assert Sound(g[c], hashOf, m, n, c);
      Elsewhere(g[c], hashOf, m, n, c, key);
      SoundWithout(g[c], hashOf, m, n, c, key, v);
    }
    forall k | k in m'
      ensures Found(r, hashOf, k)
    {
      if k == key {
        PositionHas(r[b].entries, |es|);
      } else {
        assert Found(g, hashOf, k);
        if hashOf(k) % n == b {
          PositionAppend(es, e, k);
        }
      }
    }
    SizeUpdate(g, b, Append(g[b], e));
  }

  /** The overwrite of `insert`: the entry holding `key` takes the new value, and the array holds the updated map. */
  lemma OverwriteKeeps<V>(bs: seq<Bucket<V>>, hashOf: U64 -> U64, m: map<U64, V>, key: U64, v: V)
    requires Chained(bs, hashOf, m)
    requires Position(bs[hashOf(key) % |bs|].entries, key).Some?
    ensures var b := hashOf(key) % |bs|; var es := bs[b].entries; var j := Position(es, key).value;
      var r := bs[b := Bucket(es[j := es[j].(value := v)], bs[b].capacity)];
      Chained(r, hashOf, m[key := v]) && Size(r) == Size(bs)
  {
    var n := |bs|;
    var b := hashOf(key) % n;
    var es := bs[b].entries;
    var j := Position(es, key).value;
    var es' := es[j := es[j].(value := v)];
    var r := bs[b := Bucket(es', bs[b].capacity)];
    var m' := m[key := v];
    assert Sound(bs[b], hashOf, m, n, b);
    assert Sound(r[b], hashOf, m', n, b) by {
      forall p | 0 <= p < |es'|
        ensures es'[p].key in m' && m'[es'[p].key] == es'[p].value
      {
        assert Belongs(es, m) && Distinct(es);
      }
      assert Belongs(es', m');
    }
    forall c | 0 <= c < n && c != b
      ensures Sound(r[c], hashOf, m', n, c)
    {
      assert Sound(bs[c], hashOf, m, n, c);
      Elsewhere(bs[c], hashOf, m, n, c, key);
      SoundWithout(bs[c], hashOf, m, n, c, key, v);
    }
    forall k | k in m'
      ensures Found(r, hashOf, k)
    {
      assert Found(bs, hashOf, k);
      if hashOf(k) % n == b {
        var p := Position(es, k).value;
        assert es'[p].key == k;
        PositionHas(es', p);
      }
    }
    SizeUpdate(bs, b, Bucket(es', bs[b].capacity));
  }

  /**
   * `hashmap_sc_insert` keeps the invariant: the array holds the map with
   * `key` bound to `v`, one entry more exactly when the key is new, and
   * twice the buckets exactly when a new key meets an overloaded array.
   */
  lemma InsertedKeeps<V>(bs: seq<Bucket<V>>, hashOf: U64 -> U64, m: map<U64, V>, key: U64, v: V)
    requires Chained(bs, hashOf, m)
    ensures var r := Inserted(bs, Size(bs), hashOf(key), key, v);
      && Chained(r, hashOf, m[key := v])
      && Size(r) == (if key in m then Size(bs) else Size(bs) + 1)
      && |r| == (if key !in m && Overloaded(Size(bs), |bs|) then 2 * |bs| else |bs|)
  {
    var n := |bs|;
    var b := hashOf(key) % n;
    if Position(bs[b].entries, key).Some? {
      assert key in m by {
        var p := Position(bs[b].entries, key).value;
        assert Sound(bs[b], hashOf, m, n, b);
        assert Belongs(bs[b].entries, m);
      }
      OverwriteKeeps(bs, hashOf, m, key, v);
    } else {
      assert key in m ==> Found(bs, hashOf, key);
      var g := if Overloaded(Size(bs), n) then Grown(bs) else bs;
      if Overloaded(Size(bs), n) {
        GrownKeeps(bs, hashOf, m);
      }
      AppendKeeps(g, hashOf, m, key, v);
    }
  }

  /** The compaction of `delete` leaves a sound bucket without the removed key. */
  lemma SwapSound<V>(bk: Bucket<V>, hashOf: U64 -> U64, m: map<U64, V>, n: nat, b: nat, j: nat)
    requires n > 0 && Sound(bk, hashOf, m, n, b) && j < |bk.entries|
    ensures Sound(Bucket(SwapRemove(bk.entries, j), bk.capacity), hashOf, m - {bk.entries[j].key}, n, b)
  {
    var es := bk.entries;
    var es' := SwapRemove(es, j);
    var key := es[j].key;
    assert multiset(es') <= multiset(es);
    DistinctSub(es', es);
    SubSound(es', es, hashOf, m);
    forall p | 0 <= p < |es'|
      ensures es'[p].key != key && es'[p].hash % n == b
    {
      assert Distinct(es) && AllPick(es, n, b);
      if p == j {
        assert es'[p] == es[|es| - 1];
      } else {
        assert es'[p] == es[p];
      }
    }
    assert Belongs(es', m);
  }

  /** For a key its bucket does not hold, `insert` is the load check followed by the append. */
  lemma InsertedNew<V>(bs: seq<Bucket<V>>, entries: nat, h: U64, key: U64, v: V)
    requires |bs| > 0 && Position(bs[h % |bs|].entries, key).None?
    ensures var g := if Overloaded(entries, |bs|) then Grown(bs) else bs;
      Inserted(bs, entries, h, key, v) == g[h % |g| := Append(g[h % |g|], Entry(h, key, v))]
  {
  }

  /**
   * `hashmap_sc_delete` keeps the invariant: the array holds the map
   * without `key`, one entry fewer exactly when the key was there.
   */
  lemma DeletedKeeps<V>(bs: seq<Bucket<V>>, hashOf: U64 -> U64, m: map<U64, V>, key: U64)
    requires Chained(bs, hashOf, m)
    ensures var r := Deleted(bs, hashOf(key), key);
      && Chained(r, hashOf, m - {key}) && |r| == |bs|
      && Size(r) == (if key in m then Size(bs) - 1 else Size(bs))
  {
    var n := |bs|;
    var b := hashOf(key) % n;
    var es := bs[b].entries;
    var m' := m - {key};
    assert Sound(bs[b], hashOf, m, n, b);
    if Position(es, key).None? {
      assert key in m ==> Found(bs, hashOf, key);
      assert m' == m;
    } else {
      assert key in m by {
        assert Belongs(es, m);
      }
      var j := Position(es, key).value;
      var es' := SwapRemove(es, j);
      var r := bs[b := Bucket(es', bs[b].capacity)];
      SwapSound(bs[b], hashOf, m, n, b, j);
      forall c | 0 <= c < n && c != b
        ensures Sound(r[c], hashOf, m', n, c)
      {
        assert Sound(bs[c], hashOf, m, n, c);
        Elsewhere(bs[c], hashOf, m, n, c, key);
        SoundWithout(bs[c], hashOf, m, n, c, key, m[key]);
      }
      forall k | k in m'
        ensures Found(r, hashOf, k)
      {
        assert Found(bs, hashOf, k);
        if hashOf(k) % n == b {
          var p := Position(es, k).value;
          if p < |es'| {
            assert es'[p] == es[p];
            PositionHas(es', p);
          } else {
            assert es'[j] == es[p];
            PositionHas(es', j);
          }
        }
      }
      SizeUpdate(bs, b, Bucket(es', bs[b].capacity));
    }
  }

  /** The bucket array `hashmap_sc_clear` leaves: every bucket empty, its buffer kept. */
  function Cleared<V>(bs: seq<Bucket<V>>): (r: seq<Bucket<V>>)
    ensures |r| == |bs|
    ensures forall b :: 0 <= b < |bs| ==> r[b].entries == [] && r[b].capacity == bs[b].capacity
  {
    seq(|bs|, b requires 0 <= b < |bs| => Bucket([], bs[b].capacity))
  }

  /** A bucket array of empty buckets holds no entry. */
  lemma {:induction false} SizeEmpty<V>(bs: seq<Bucket<V>>)
    requires forall b :: 0 <= b < |bs| ==> bs[b].entries == []
    ensures Size(bs) == 0
    decreases |bs|
  {
    if bs != [] {
      SizeEmpty(bs[..|bs| - 1]);
    }
  }

  /** `hashmap_sc_clear` leaves an array that holds the empty map, with no entries and the same buffers. */
  lemma ClearedKeeps<V>(bs: seq<Bucket<V>>, hashOf: U64 -> U64)
    requires |bs| > 0
    ensures Chained(Cleared(bs), hashOf, map[]) && Size(Cleared(bs)) == 0
  {
    SizeEmpty(Cleared(bs));
  }

  // The map object.

  /** One move of the resize's inner loop: what the loop invariant needs after a swap-with-last of position `j`. */
  lemma SplitStep<V>(es: seq<Entry<V>>, j: nat, n: nat, i: nat, moved: seq<Entry<V>>)
    requires 0 < n && i < n && j < |es| && AllPick(es, n, i)
    requires es[j].hash % (2 * n) != i
    ensures var rest := SwapRemove(es, j); var moved' := moved + [es[j]];
      && es[j].hash % (2 * n) == i + n
      && AllPick(rest, n, i)
      && Partition(rest, j, 2 * n, i, moved') == Partition(es, j, 2 * n, i, moved)
      && AppendAll(Bucket([], 0), moved') == Append(AppendAll(Bucket([], 0), moved), es[j])
  {
    var rest := SwapRemove(es, j);
    var moved' := moved + [es[j]];
    ModDouble(es[j].hash, n);
    forall k | 0 <= k < |rest|
      ensures rest[k].hash % n == i
    {
      if k == j {
        assert rest[k] == es[|es| - 1];
      } else {
        assert rest[k] == es[k];
      }
    }
    assert moved'[..|moved'| - 1] == moved;
  }

  /**
   * The inner loop of the resize over old bucket `i` of `n`: an entry whose
   * hash picks bucket `i` of `2 * n` stays and the loop moves on; any other
   * is taken out by swap-with-last and appended to the bucket its hash
   * picks, which is `i + n`, and the same position is examined again. The
   * two buckets are the results: no other bucket is touched.
   */
  method SplitBucket<V>(bk: Bucket<V>, n: nat, i: nat) returns (stay: Bucket<V>, gone: Bucket<V>)
    requires 0 < n && i < n && AllPick(bk.entries, n, i)
    ensures (stay, gone) == Split(bk, n, i)
  {
    stay := bk;
    gone := Bucket([], 0);
    ghost var moved: seq<Entry<V>> := [];
    var j := 0;
    while j < |stay.entries|
      invariant j <= |stay.entries| && stay.capacity == bk.capacity
      invariant AllPick(stay.entries, n, i)
      invariant Partition(stay.entries, j, 2 * n, i, moved) == Partition(bk.entries, 0, 2 * n, i, [])
      invariant gone == AppendAll(Bucket([], 0), moved)
      decreases |stay.entries| - j
    {
      var current := stay.entries[j];
      var target := current.hash % (2 * n);
      if target == i {
        j := j + 1;
      } else {
        SplitStep(stay.entries, j, n, i, moved);
        stay := Bucket(SwapRemove(stay.entries, j), stay.capacity);
        gone := Append(gone, current);
        moved := moved + [current];
      }
    }
  }

  /**
   * The new bucket array of the resize after the first `i` old buckets are
   * split: the split buckets are those of `g`, the rest are the copies of
   * the old buckets and the new empty ones.
   */
  function Midway<V>(bs: seq<Bucket<V>>, g: seq<Bucket<V>>, i: nat): (r: seq<Bucket<V>>)
    requires |g| == 2 * |bs| && i <= |bs|
    ensures |r| == |g|
    ensures i == |bs| ==> r == g
  {
    var n := |bs|;
    seq(2 * n, c requires 0 <= c < 2 * n =>
      if c < n then (if c < i then g[c] else bs[c])
      else if c - n < i then g[c] else Bucket([], 0))
  }

  /** Splitting bucket `i` takes the resize one bucket further. */
  lemma MidwayStep<V>(bs: seq<Bucket<V>>, g: seq<Bucket<V>>, i: nat)
    requires |g| == 2 * |bs| && i < |bs|
    ensures Midway(bs, g, i)[i := g[i]][i + |bs| := g[i + |bs|]] == Midway(bs, g, i + 1)
  {
  }

  /**
   * The resize once it decides to grow: a new array twice as long takes a
   * copy of the buckets, then each old bucket `i` is split between `i` and
   * `i + n`. The result is `g`, the array of those splits.
   */
  method GrowInto<V>(a: array<Bucket<V>>, ghost g: seq<Bucket<V>>) returns (nb: array<Bucket<V>>)
    requires a.Length > 0 && |g| == 2 * a.Length
    requires forall c :: 0 <= c < a.Length ==> AllPick(a[c].entries, a.Length, c)
    requires forall c :: 0 <= c < a.Length ==> Split(a[c], a.Length, c) == (g[c], g[c + a.Length])
    ensures fresh(nb) && nb[..] == g
  {
    ghost var bs := a[..];
    var n := a.Length;
    nb := new Bucket<V>[2 * n](_ => Bucket([], 0));
    forall c | 0 <= c < n {
      nb[c] := a[c];
    }
    assert nb[..] == Midway(bs, g, 0);
    for i := 0 to n
      modifies nb
      invariant nb[..] == Midway(bs, g, i)
    {
      assert nb[i] == a[i];
      var stay, gone := SplitBucket(nb[i], n, i);
      ghost var before := nb[..];
      nb[i] := stay;
      nb[i + n] := gone;
      assert nb[..] == before[i := stay][i + n := gone];
      MidwayStep(bs, g, i);
    }
  }

  /**
   * A separate-chaining hash map from 64-bit keys to values of type `V`.
   * The ghost `contents` is the map the buckets hold; the ghost `freed`
   * logs, in order, every value handed to `value_free`.
   */
  class HashMap<V> {
    var buckets: array<Bucket<V>>
    var entries: nat
    const hasher: U64 -> U64
    ghost var contents: map<U64, V>
    ghost var freed: seq<V>

    /**
     * The two 32-bit counters stay in range, `entries_count` is the sum of
     * the bucket sizes, and the buckets hold `contents`.
     */
    ghost predicate Valid()
      reads this, buckets
    {
      && 10 <= buckets.Length < TWO32
      && entries < TWO32
      && entries == Size(buckets[..])
      && Chained(buckets[..], hasher, contents)
    }

    /** `hashmap_sc_new`: ten unallocated buckets and no entries. */
    constructor (hasher: U64 -> U64)
      ensures Valid() && fresh(buckets)
      ensures buckets.Length == 10 && forall b :: 0 <= b < 10 ==> buckets[b] == Bucket([], 0)
      ensures entries == 0 && contents == map[] && freed == [] && this.hasher == hasher
    {
      this.hasher := hasher;
      entries := 0;
      buckets := new Bucket<V>[10](_ => Bucket([], 0));
      contents := map[];
      freed := [];
      new;
      SizeEmpty(buckets[..]);
    }

    /** `find_inner`: the position of `key` in the bucket its hash picks. */
    method FindInner(key: U64) returns (r: Option<nat>)
      requires Valid()
      ensures r == Position(buckets[hasher(key) % buckets.Length].entries, key)
      ensures r.Some? <==> key in contents
      ensures r.Some? ==> contents[key] == buckets[hasher(key) % buckets.Length].entries[r.value].value
    {
      var b := hasher(key) % buckets.Length;
      var es := buckets[b].entries;
      var i := 0;
      while i < |es|
        invariant i <= |es| && forall k :: 0 <= k < i ==> es[k].key != key
      {
        if es[i].key == key {
          r := Some(i);
          ChainedLookup(buckets[..], hasher, contents, key);
          return;
        }
        i := i + 1;
      }
      r := None;
      ChainedLookup(buckets[..], hasher, contents, key);
    }

    /** `hashmap_sc_find`: the value of the entry `find_inner` finds. */
    method Find(key: U64) returns (r: Option<V>)
      requires Valid()
      ensures r == Lookup(contents, key)
    {
      var c := FindInner(key);
      if c.Some? {
        r := Some(buckets[hasher(key) % buckets.Length].entries[c.value].value);
      } else {
        r := None;
      }
    }

    /**
     * `resize_if_load_factor_exceeded`: at three entries per bucket, a new
     * array twice as long takes a copy of the buckets, then each old
     * bucket is split between its own index and that index plus the old
     * count. The map held and the counts stay the same.
     */
    method ResizeIfLoadFactorExceeded()
      requires Valid()
      requires Overloaded(entries, buckets.Length) ==> 2 * buckets.Length < TWO32
      modifies this
      ensures Valid() && entries == old(entries) && contents == old(contents) && freed == old(freed)
      ensures if Overloaded(old(entries), old(buckets.Length))
        then fresh(buckets) && buckets[..] == Grown(old(buckets[..]))
        else buckets == old(buckets) && buckets[..] == old(buckets[..])
    {
      var n := buckets.Length;
      if entries < 3 * n {
        return;
      }
      ghost var bs := buckets[..];
      GrownKeeps(bs, hasher, contents);
      forall c | 0 <= c < n
        ensures AllPick(bs[c].entries, n, c) && Split(bs[c], n, c) == (Grown(bs)[c], Grown(bs)[c + n])
      {
        assert Sound(bs[c], hasher, contents, n, c);
        GrownPair(bs, c);
      }
      var nb := GrowInto(buckets, Grown(bs));
      buckets := nb;
      assert buckets[..] == Grown(bs);
    }

    /**
     * `hashmap_sc_insert`: a key already present gets the new value (the old
     * one is freed); a new key is appended to its bucket, after the load
     * check has grown the array if need be.
     */
    method Insert(key: U64, value: V)
      requires Valid()
      requires key !in contents ==> entries + 1 < TWO32
      requires key !in contents && Overloaded(entries, buckets.Length) ==> 2 * buckets.Length < TWO32
      modifies this, buckets
      ensures Valid()
      ensures buckets[..] == Inserted(old(buckets[..]), old(entries), hasher(key), key, value)
      ensures contents == old(contents)[key := value]
      ensures entries == if key in old(contents) then old(entries) else old(entries) + 1
      ensures freed == old(freed) + if key in old(contents) then [old(contents)[key]] else []
      ensures buckets.Length ==
        if key !in old(contents) && Overloaded(old(entries), old(buckets.Length))
        then 2 * old(buckets.Length) else old(buckets.Length)
      ensures buckets == old(buckets) || fresh(buckets)
    {
      var c := FindInner(key);
      if c.Some? {
        Overwrite(key, value, c.value);
      } else {
        AppendNew(key, value);
      }
    }

    /** The overwrite of `hashmap_sc_insert`: the entry `find_inner` found takes the new value, and the old one is freed. */
    method Overwrite(key: U64, value: V, j: nat)
      requires Valid()
      requires Position(buckets[hasher(key) % buckets.Length].entries, key) == Some(j)
      modifies this`freed, this`contents, buckets
      ensures Valid()
      ensures buckets[..] == Inserted(old(buckets[..]), old(entries), hasher(key), key, value)
      ensures key in old(contents) && contents == old(contents)[key := value]
      ensures freed == old(freed) + [old(contents)[key]]
    {
      ghost var bs := buckets[..];
      OverwriteKeeps(bs, hasher, contents, key, value);
      ChainedLookup(bs, hasher, contents, key);
      var b := hasher(key) % buckets.Length;
      var es := buckets[b].entries;
      freed := freed + [es[j].value];
      buckets[b] := Bucket(es[j := es[j].(value := value)], buckets[b].capacity);
      contents := contents[key := value];
    }

    /** The rest of `hashmap_sc_insert` for a new key: the load check, then the append to the bucket its hash picks. */
    method AppendNew(key: U64, value: V)
      requires Valid() && key !in contents && entries + 1 < TWO32
      requires Overloaded(entries, buckets.Length) ==> 2 * buckets.Length < TWO32
      modifies this, buckets
      ensures Valid()
      ensures buckets[..] == Inserted(old(buckets[..]), old(entries), hasher(key), key, value)
      ensures contents == old(contents)[key := value] && entries == old(entries) + 1 && freed == old(freed)
      ensures buckets.Length ==
        if Overloaded(old(entries), old(buckets.Length)) then 2 * old(buckets.Length) else old(buckets.Length)
      ensures buckets == old(buckets) || fresh(buckets)
    {
      ghost var bs := buckets[..];
      ghost var i := hasher(key) % |bs|;
      assert Sound(bs[i], hasher, contents, |bs|, i);
      Absent(bs[i], hasher, contents, |bs|, i, key);
      InsertedNew(bs, entries, hasher(key), key, value);
      ResizeIfLoadFactorExceeded();
      var hash := hasher(key);
      var b := hash % buckets.Length;
      AppendKeeps(buckets[..], hasher, contents, key, value);
      buckets[b] := Append(buckets[b], Entry(hash, key, value));
      entries := entries + 1;
      contents := contents[key := value];
    }

    /**
     * `hashmap_sc_delete`: the entry holding `key` has its value freed and
     * is replaced by the last entry of its bucket.
     */
    method Delete(key: U64) returns (found: bool)
      requires Valid()
      modifies this, buckets
      ensures Valid() && buckets == old(buckets)
      ensures found <==> key in old(contents)
      ensures buckets[..] == Deleted(old(buckets[..]), hasher(key), key)
      ensures !found ==> buckets[..] == old(buckets[..])
      ensures contents == old(contents) - {key}
      ensures entries == if found then old(entries) - 1 else old(entries)
      ensures freed == old(freed) + if found then [old(contents)[key]] else []
    {
      ghost var bs := buckets[..];
      DeletedKeeps(bs, hasher, contents, key);
      ChainedLookup(bs, hasher, contents, key);
      var b := hasher(key) % buckets.Length;
      var es := buckets[b].entries;
      var i := 0;
      while i < |es|
        invariant i <= |es| && forall k :: 0 <= k < i ==> es[k].key != key
      {
        if es[i].key == key {
          freed := freed + [es[i].value];
          buckets[b] := Bucket(SwapRemove(es, i), buckets[b].capacity);
          entries := entries - 1;
          contents := contents - {key};
          return true;
        }
        i := i + 1;
      }
      found := false;
      assert contents - {key} == contents;
    }

    /**
     * `hashmap_sc_clear`: every value is freed, bucket by bucket in buffer
     * order, and every bucket emptied; the buffers and their capacities stay.
     */
    method Clear()
      requires Valid()
      modifies this, buckets
      ensures Valid() && buckets == old(buckets)
      ensures buckets[..] == Cleared(old(buckets[..])) && entries == 0 && contents == map[]
      ensures freed == old(freed) + Values(old(buckets[..])) && |freed| == |old(freed)| + old(entries)
    {
      ghost var bs := buckets[..];
      ValuesSize(bs);
      ClearedKeeps(bs, hasher);
      EmptyBuckets();
      entries := 0;
      contents := map[];
    }

    /** The loop of `hashmap_sc_clear`: bucket by bucket, every value is freed and the bucket emptied. */
    method EmptyBuckets()
      modifies this`freed, buckets
      ensures buckets[..] == Cleared(old(buckets[..]))
      ensures freed == old(freed) + Values(old(buckets[..]))
    {
      ghost var bs := buckets[..];
      for i := 0 to buckets.Length
        invariant forall c :: 0 <= c < i ==> buckets[c] == Cleared(bs)[c]
        invariant forall c :: i <= c < |bs| ==> buckets[c] == bs[c]
        invariant freed == old(freed) + Values(bs[..i])
      {
        ValuesStep(bs, i);
        FreeBucket(buckets[i].entries);
        buckets[i] := Bucket([], buckets[i].capacity);
      }
      assert buckets[..] == Cleared(bs);
      assert bs[..|bs|] == bs;
    }

    /** The inner loops of `hashmap_sc_clear` and `hashmap_sc_free`: every value of a bucket, in buffer order, goes to `value_free`. */
    method FreeBucket(es: seq<Entry<V>>)
      modifies this`freed
      ensures freed == old(freed) + EntryValues(es)
    {
      for j := 0 to |es|
        invariant freed == old(freed) + EntryValues(es)[..j]
      {
        freed := freed + [es[j].value];
        assert EntryValues(es)[..j + 1] == EntryValues(es)[..j] + [es[j].value];
      }
      assert EntryValues(es)[..|es|] == EntryValues(es);
    }

    /** The per-value loop of `hashmap_sc_free`: every value goes to `value_free`, bucket by bucket in buffer order. */
    method Free()
      requires Valid()
      modifies this`freed
      ensures freed == old(freed) + Values(buckets[..]) && |freed| == |old(freed)| + entries
    {
      ValuesSize(buckets[..]);
      FreeBuckets();
    }

    /** The outer loop of `hashmap_sc_free`: the values of each bucket in turn, in buffer order. */
    method FreeBuckets()
      modifies this`freed
      ensures freed == old(freed) + Values(buckets[..])
    {
      ghost var bs := buckets[..];
      for i := 0 to buckets.Length
        invariant freed == old(freed) + Values(bs[..i])
      {
        ValuesStep(bs, i);
        FreeBucket(buckets[i].entries);
      }
      assert bs[..|bs|] == bs;
    }
  }

  // The unit tests of `hashmap_sc`, as properties of the model.

  /** The construct test: ten unallocated buckets, each of size and capacity 0, and no entries. */
  method ConstructScenario(hasher: U64 -> U64) returns (m: HashMap<nat>)
    ensures m.Valid() && m.buckets.Length == 10 && m.entries == 0
    ensures forall b :: 0 <= b < m.buckets.Length ==> |m.buckets[b].entries| == 0 && m.buckets[b].capacity == 0
  {
    m := new HashMap(hasher);
  }

  /** A fresh map after one insert: `key` is alone in its bucket, in a buffer of one. */
  method Singleton(hasher: U64 -> U64, key: U64, v: nat) returns (m: HashMap<nat>)
    ensures fresh(m) && fresh(m.buckets) && m.Valid() && m.hasher == hasher
    ensures m.entries == 1 && m.buckets.Length == 10 && m.freed == [] && m.contents == map[key := v]
    ensures m.buckets[hasher(key) % 10] == Bucket([Entry(hasher(key), key, v)], 1)
  {
    m := new HashMap(hasher);
    m.Insert(key, v);
  }

  /** The first two steps of the insert test: 666 is stored, then overwritten in place. */
  method InsertTwice(hasher: U64 -> U64) returns (m: HashMap<nat>)
    ensures fresh(m) && fresh(m.buckets) && m.Valid() && m.hasher == hasher
    ensures m.entries == 1 && m.buckets.Length == 10 && m.freed == [5] && m.contents == map[666 := 10]
    ensures m.buckets[hasher(666) % 10] == Bucket([Entry(hasher(666), 666, 10)], 1)
  {
    m := Singleton(hasher, 666, 5);
    m.Insert(666, 10);
  }

  /**
   * The insert test, for a hasher that sends 666 and 777 to the same bucket
   * of ten: 666 is stored with its hash, overwritten without a new entry,
   * and 777 goes into the next slot of the same buffer, which doubles.
   */
  method InsertScenario(hasher: U64 -> U64) returns (m: HashMap<nat>)
    requires hasher(666) % 10 == hasher(777) % 10
    ensures m.Valid() && m.entries == 2 && m.buckets.Length == 10
    ensures m.buckets[hasher(666) % 10] == Bucket([Entry(hasher(666), 666, 10), Entry(hasher(777), 777, 15)], 2)
    ensures m.freed == [5]
  {
    var b := hasher(666) % 10;
    m := InsertTwice(hasher);
    ghost var bs := m.buckets[..];
    assert |bs| == 10 && hasher(777) % |bs| == b && !Overloaded(1, |bs|);
    assert Position(bs[b].entries, 777) == None;
    InsertedNew(bs, 1, hasher(777), 777, 15);
    m.Insert(777, 15);
    assert m.buckets[..] == bs[b := Append(bs[b], Entry(hasher(777), 777, 15))];
  }

  /** The find test: both inserted keys are found with their values, and 6666 is not. */
  method FindScenario(hasher: U64 -> U64) returns (a: Option<nat>, b: Option<nat>, c: Option<nat>)
    ensures a == Some(5) && b == Some(10) && c == None
  {
    var m := new HashMap(hasher);
    m.Insert(666, 5);
    m.Insert(777, 10);
    a := m.Find(666);
    b := m.Find(777);
    c := m.Find(6666);
  }

  /** The set-up of the delete test: 777, then 666, in one bucket. */
  method InsertPair(hasher: U64 -> U64) returns (m: HashMap<nat>)
    requires hasher(666) % 10 == hasher(777) % 10
    ensures fresh(m) && fresh(m.buckets) && m.Valid() && m.hasher == hasher
    ensures m.entries == 2 && m.buckets.Length == 10 && m.contents == map[777 := 0, 666 := 0]
    ensures m.buckets[hasher(666) % 10].entries == [Entry(hasher(777), 777, 0), Entry(hasher(666), 666, 0)]
  {
    var b := hasher(666) % 10;
    m := Singleton(hasher, 777, 0);
    ghost var bs := m.buckets[..];
    assert |bs| == 10 && hasher(666) % |bs| == b && !Overloaded(1, |bs|);
    assert Position(bs[b].entries, 666) == None;
    InsertedNew(bs, 1, hasher(666), 666, 0);
    m.Insert(666, 0);
    assert m.buckets[..] == bs[b := Append(bs[b], Entry(hasher(666), 666, 0))];
  }

  /**
   * The delete test, for a hasher that sends 666 and 777 to the same bucket
   * of ten: 777 is deleted once, a second delete and a delete of 888 find
   * nothing, and 666 has moved to the front of the bucket.
   */
  method DeleteScenario(hasher: U64 -> U64) returns (m: HashMap<nat>, first: bool, second: bool, third: bool)
    requires hasher(666) % 10 == hasher(777) % 10
    ensures first && !second && !third
    ensures m.Valid() && m.entries == 1 && m.buckets.Length == 10
    ensures m.buckets[hasher(666) % 10].entries == [Entry(hasher(666), 666, 0)]
  {
    var b := hasher(666) % 10;
    m := InsertPair(hasher);
    ghost var es := m.buckets[b].entries;
    assert Position(es, 777) == Some(0);
    assert SwapRemove(es, 0) == [Entry(hasher(666), 666, 0)];
    first := m.Delete(777);
    second := m.Delete(777);
    third := m.Delete(888);
  }

  /** The first loop of the resize test: keys 1 to 30, each mapped to itself, fill ten buckets to the load limit. */
  method InsertThirty(hasher: U64 -> U64) returns (m: HashMap<nat>)
    ensures fresh(m) && fresh(m.buckets) && m.Valid() && m.hasher == hasher
    ensures m.entries == 30 && m.buckets.Length == 10
    ensures forall k: U64 :: k in m.contents <==> 1 <= k <= 30
    ensures forall k: U64 :: k in m.contents ==> m.contents[k] == k
  {
    m := new HashMap(hasher);
    for i := 1 to 31
      invariant fresh(m) && fresh(m.buckets) && m.Valid()
      invariant m.entries == i - 1 && m.buckets.Length == 10
      invariant forall k: U64 :: k in m.contents <==> 1 <= k < i
      invariant forall k: U64 :: k in m.contents ==> m.contents[k] == k
    {
      m.Insert(i, i);
    }
  }

  /** The find loop of the resize test: every key from 1 to 31 is found with its own value. */
  method FindThirtyOne(m: HashMap<nat>) returns (found: seq<Option<nat>>)
    requires m.Valid()
    requires forall k: U64 :: k in m.contents <==> 1 <= k <= 31
    requires forall k: U64 :: k in m.contents ==> m.contents[k] == k
    ensures |found| == 31 && forall k :: 0 <= k < 31 ==> found[k] == Some(k + 1)
  {
    found := [];
    for i := 1 to 32
      invariant |found| == i - 1 && forall k :: 0 <= k < i - 1 ==> found[k] == Some(k + 1)
    {
      var v := m.Find(i);
      found := found + [v];
    }
  }

  /**
   * The resize test: thirty keys fit in ten buckets, the thirty-first
   * doubles the array to twenty, and every key is found afterwards.
   */
  method ResizeScenario(hasher: U64 -> U64) returns (m: HashMap<nat>, found: seq<Option<nat>>)
    ensures m.Valid() && m.entries == 31 && m.buckets.Length == 20
    ensures |found| == 31 && forall k :: 0 <= k < 31 ==> found[k] == Some(k + 1)
  {
    m := InsertThirty(hasher);
    m.Insert(31, 31);
    found := FindThirtyOne(m);
  }
}
