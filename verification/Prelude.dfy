/** Options, machine words, and the finite sums that every ledger in this project is measured with. */
module Prelude {
  datatype Option<+T> = None | Some(value: T)

  const U32_SIZE := 0x1_0000_0000
  const U64_SIZE := 0x1_0000_0000_0000_0000
  const U256_SIZE := 0x1_0000_0000_0000_0000_0000_0000_0000_0000_0000_0000_0000_0000_0000_0000_0000_0000

  type U32 = n: int | 0 <= n < U32_SIZE
  type U64 = n: int | 0 <= n < U64_SIZE
  type U256 = n: int | 0 <= n < U256_SIZE

  /** A Casper account or contract. */
  datatype Address = Address(hash: nat)
  const ZERO_ADDRESS := Address(0)

  /** u64 `+` as the release profile compiles it: wrapping, since overflow checks are off. */
  function AddU64(a: U64, b: U64): U64 {
    (a + b) % U64_SIZE
  }

  function SaturatingSub(a: U64, b: U64): U64 {
    if a < b then 0 else a - b
  }

  function Min(a: int, b: int): int {
    if a < b then a else b
  }

  function Max(a: int, b: int): int {
    if a < b then b else a
  }

  lemma MulAtLeast(a: int, d: int)
    requires d > 0
    ensures a > 0 ==> a * d >= d
    ensures a < 0 ==> a * d <= -d
  {
  }

  /** Quotient and remainder are determined by their defining equation. */
  lemma ModUnique(n: int, d: int, q: int, r: int)
    requires d > 0 && 0 <= r < d && n == q * d + r
    ensures n % d == r && n / d == q
  {
    MulAtLeast(q - n / d, d);
    assert (q - n / d) * d == n % d - r by {
      assert n == n / d * d + n % d;
      assert (q - n / d) * d == q * d - n / d * d;
    }
  }

  /** Truncating division of non-negative numbers, as BigInt and u64 `/` do it. */
  function Quotient(n: nat, d: nat): (q: nat)
    requires d > 0
    ensures q == n / d && n == q * d + n % d
  {
    MulAtLeast(n / d, d);
    n / d
  }

  /** Numbers less than d apart have different remainders. */
  lemma ModDistinct(a: nat, b: nat, d: nat)
    requires d > 0 && a % d == b % d && a < b + d && b < a + d
    ensures a == b
  {
    var p, q := Quotient(a, d), Quotient(b, d);
    assert (p - q) * d == a - b;
    MulAtLeast(p - q, d);
  }

  lemma ModSucc(n: nat, d: nat)
    requires d > 0
    ensures (n + 1) % d == (n % d + 1) % d == if n % d + 1 == d then 0 else n % d + 1
  {
    var q, r := n / d, n % d;
    if r + 1 == d {
      assert n + 1 == (q + 1) * d;
      ModUnique(n + 1, d, q + 1, 0);
    } else {
      ModUnique(n + 1, d, q, r + 1);
    }
  }

  /** A counter that wraps at every addition still holds its exact total modulo 2^64. */
  lemma AddU64Mod(total: nat, a: U64)
    ensures AddU64(total % U64_SIZE, a) == (total + a) % U64_SIZE
    ensures total < U64_SIZE ==> total % U64_SIZE == total
  {
  }

  /** Mapping::get(..).unwrap_or_default() for numbers. */
  function Lookup<K>(m: map<K, int>, k: K): int {
    if k in m then m[k] else 0
  }

  // ---- sums over sequences ----

  ghost function SumBy<T>(s: seq<T>, f: T -> nat): nat {
    if s == [] then 0 else SumBy(s[..|s| - 1], f) + f(s[|s| - 1])
  }

  lemma SumByAppend<T>(s: seq<T>, x: T, f: T -> nat)
    ensures SumBy(s + [x], f) == SumBy(s, f) + f(x)
  {
    assert (s + [x])[..|s|] == s;
  }

  lemma {:induction false} SumBySplit<T>(a: seq<T>, b: seq<T>, f: T -> nat)
    ensures SumBy(a + b, f) == SumBy(a, f) + SumBy(b, f)
  {
    if b == [] {
      assert a + b == a;
    } else {
      var b', x := b[..|b| - 1], b[|b| - 1];
      assert a + b == (a + b') + [x] && b == b' + [x];
      SumByAppend(a + b', x, f);
      SumBySplit(a, b', f);
    }
  }

  /** Replacing one element moves the sum by exactly the difference. */
  lemma {:induction false} SumByUpdate<T>(s: seq<T>, i: nat, x: T, f: T -> nat)
    requires i < |s|
    ensures f(s[i]) <= SumBy(s, f)
    ensures SumBy(s[i := x], f) == SumBy(s, f) - f(s[i]) + f(x)
  {
    var n := |s| - 1;
    if i < n {
      SumByUpdate(s[..n], i, x, f);
      assert s[i := x][..n] == s[..n][i := x];
    } else {
      assert s[i := x][..n] == s[..n];
    }
  }

  lemma {:induction false} SumByAdd<T>(s: seq<T>, f: T -> nat, g: T -> nat, h: T -> nat)
    requires forall i :: 0 <= i < |s| ==> f(s[i]) + g(s[i]) == h(s[i])
    ensures SumBy(s, f) + SumBy(s, g) == SumBy(s, h)
  {
    if s != [] {
      SumByAdd(s[..|s| - 1], f, g, h);
    }
  }

  lemma {:induction false} SumByBelow<T>(s: seq<T>, f: T -> nat, g: T -> nat)
    requires forall i :: 0 <= i < |s| ==> f(s[i]) <= g(s[i])
    ensures SumBy(s, f) <= SumBy(s, g)
  {
    if s != [] {
      SumByBelow(s[..|s| - 1], f, g);
    }
  }

  lemma {:induction false} SumByCount<T>(s: seq<T>, f: T -> nat)
    requires forall i :: 0 <= i < |s| ==> f(s[i]) >= 1
    ensures |s| <= SumBy(s, f)
  {
    if s != [] {
      SumByCount(s[..|s| - 1], f);
    }
  }

  lemma {:induction false} SumByZero<T>(s: seq<T>, f: T -> nat)
    requires forall i :: 0 <= i < |s| ==> f(s[i]) == 0
    ensures SumBy(s, f) == 0
  {
    if s != [] {
      SumByZero(s[..|s| - 1], f);
    }
  }

  // ---- sums over maps ----

  ghost function SumValues<K>(m: map<K, int>): int {
    if m == map[] then 0 else
      var k :| k in m;
      m[k] + SumValues(m - {k})
  }

  lemma {:induction false} SumValuesRemove<K>(m: map<K, int>, k: K)
    requires k in m
    ensures SumValues(m) == m[k] + SumValues(m - {k})
    decreases |m|
  {
    var p :| p in m && SumValues(m) == m[p] + SumValues(m - {p});
    if p != k {
      SumValuesRemove(m - {p}, k);
      SumValuesRemove(m - {k}, p);
      assert m - {p} - {k} == m - {k} - {p};
    }
  }

  lemma SumValuesUpdate<K>(m: map<K, int>, k: K, v: int)
    ensures SumValues(m[k := v]) == SumValues(m) - Lookup(m, k) + v
  {
    SumValuesRemove(m[k := v], k);
    if k in m {
      SumValuesRemove(m, k);
      assert m[k := v] - {k} == m - {k};
    } else {
      assert m[k := v] - {k} == m;
    }
  }

  lemma {:induction false} SumValuesZero<K>(m: map<K, int>)
    requires forall k :: k in m ==> m[k] == 0
    ensures SumValues(m) == 0
  {
    if m != map[] {
      var k :| k in m;
      SumValuesRemove(m, k);
      SumValuesZero(m - {k});
    }
  }

  /** The part of measure f that belongs to key k. */
  function Fibre<T, K(==)>(f: T -> nat, key: T -> K, k: K): T -> nat {
    x => if key(x) == k then f(x) else 0
  }

  /** If every entry of m is the sum over its own key's elements, the entries add up to the sum over all elements. */
  lemma {:induction false} SumOfFibres<T, K>(s: seq<T>, f: T -> nat, key: T -> K, m: map<K, int>)
    requires forall i :: 0 <= i < |s| ==> key(s[i]) in m
    requires forall k :: k in m ==> m[k] == SumBy(s, Fibre(f, key, k))
    ensures SumValues(m) == SumBy(s, f)
  {
    if s == [] {
      SumValuesZero(m);
    } else {
      var x, s' := s[|s| - 1], s[..|s| - 1];
      var kx := key(x);
      var m' := m[kx := m[kx] - f(x)];
      forall k | k in m' ensures m'[k] == SumBy(s', Fibre(f, key, k)) {
        assert SumBy(s, Fibre(f, key, k)) == SumBy(s', Fibre(f, key, k)) + Fibre(f, key, k)(x);
      }
      SumOfFibres(s', f, key, m');
      SumValuesUpdate(m, kx, m[kx] - f(x));
    }
  }
}
