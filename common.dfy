/**
 * Definitions shared by the four hash-map engines: the 64-bit key and hash
 * domain, the option and outcome wrappers, and the floor-log2 that bounds
 * the probe length of the quadratic-probing and double-hashing engines.
 */
module Common {

  const TWO32: nat := 0x1_0000_0000
  const TWO64: nat := 0x1_0000_0000_0000_0000

  /** A `uint64_t`: keys, hashes and the second (stride) hash. */
  type U64 = x: nat | x < TWO64

  datatype Option<T> = None | Some(value: T)

  /** What a lookup of `k` in the key-value map `m` gives. */
  function Lookup<V>(m: map<U64, V>, k: U64): (r: Option<V>)
    ensures r.Some? <==> k in m
    ensures r.Some? ==> r.value == m[k]
  {
    if k in m then Some(m[k]) else None
  }

  /** Two maps that give the same lookups are equal. */
  lemma LookupExtensional<V>(m: map<U64, V>, m': map<U64, V>)
    requires forall k :: Lookup(m, k) == Lookup(m', k)
    ensures m == m'
  {
    assert forall k :: k in m <==> k in m' by {
      forall k ensures k in m <==> k in m' {
        assert Lookup(m, k).Some? == Lookup(m', k).Some?;
      }
    }
    forall k | k in m ensures m[k] == m'[k] {
      assert Lookup(m, k) == Lookup(m', k);
    }
  }

  /**
   * How an operation whose C code contains an unbounded loop ends:
   * `Done` when the C code returns, `Diverges` when the C loop never exits,
   * `Overflows` when the C code would double an unsigned slot counter past
   * its width (wrap-around is not part of this model).
   */
  datatype Outcome<T> = Done(value: T) | Diverges | Overflows

  function Pow2(k: nat): (r: nat)
    ensures r >= 1
  {
    if k == 0 then 1 else 2 * Pow2(k - 1)
  }

  /** Floor of the base-2 logarithm, the value `log2_64` computes by a bit trick. */
  function Log2(n: nat): (k: nat)
    requires n >= 1
    ensures Pow2(k) <= n < 2 * Pow2(k)
  {
    if n == 1 then 0 else 1 + Log2(n / 2)
  }

  lemma {:induction false} Pow2Monotone(a: nat, b: nat)
    requires a < b
    ensures 2 * Pow2(a) <= Pow2(b)
  {
    if a + 1 < b {
      Pow2Monotone(a, b - 1);
    }
  }

  /** The floor-log2 of `n` is the only `k` with `2^k <= n < 2^(k+1)`. */
  lemma Log2Unique(n: nat, k: nat)
    requires n >= 1
    requires Pow2(k) <= n < 2 * Pow2(k)
    ensures Log2(n) == k
  {
    var l := Log2(n);
    if l < k {
      Pow2Monotone(l, k);
    } else if k < l {
      Pow2Monotone(k, l);
    }
  }

  /** Doubling a table raises its probe bound by exactly one. */
  lemma Log2Double(n: nat)
    requires n >= 1
    ensures Log2(2 * n) == Log2(n) + 1
  {
    Log2Unique(2 * n, Log2(n) + 1);
  }

  /** The bounds of the initial table and of its first doubling. */
  lemma Log2OfTen()
    ensures Log2(10) == 3 && Log2(20) == 4
  {
    Log2Unique(10, 3);
    Log2Double(10);
  }

  /** Multiplying by the same factor keeps the order. */
  lemma MultiplyMonotone(a: nat, b: nat, n: nat)
    requires a <= b
    ensures a * n <= b * n
  {
    assert b * n == a * n + (b - a) * n;
  }

  /** Euclidean division is unique: `a * n + b` with `b < n` leaves remainder `b`. */
  lemma ModUnique(h: nat, n: nat, a: nat, b: nat)
    requires b < n && h == a * n + b
    ensures h % n == b
  {
    var q := h / n;
    var r := h % n;
    assert h == q * n + r;
    if q > a {
      MultiplyMonotone(1, q - a, n);
    } else if q < a {
      MultiplyMonotone(1, a - q, n);
    }
  }

  /** Adding whole multiples of the modulus leaves the remainder alone. */
  lemma ModShift(x: nat, k: nat, m: nat)
    requires m > 0
    ensures (x + k * m) % m == x % m
  {
    var q := x / m;
    var r := x % m;
    assert x == q * m + r;
    assert x + k * m == (q + k) * m + r;
    ModUnique(x + k * m, m, q + k, r);
  }
}
