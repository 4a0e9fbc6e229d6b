/** Integer widths, alignment arithmetic and a few helpers the other modules share. */
module Machine {

  // Subset types: every value stored in one of these is checked to fit, so a
  // method whose locals are `uint64` is proved free of 64-bit wrap-around.
  const U64_LIMIT: nat := 0x1_0000_0000_0000_0000
  const I64_LIMIT: nat := 0x8000_0000_0000_0000

  type uint64 = x: int | 0 <= x < 0x1_0000_0000_0000_0000
  type uint32 = x: int | 0 <= x < 0x1_0000_0000
  type uint16 = x: int | 0 <= x < 0x1_0000
  type uint8 = x: int | 0 <= x < 0x100

  const PAGE_SIZE: nat := 4096

  datatype Option<+T> = None | Some(value: T)

  function CheckedMul(a: uint64, b: uint64): Option<uint64> {
    if a * b < U64_LIMIT then Some(a * b) else None
  }

  function CheckedAdd(a: uint64, b: uint64): Option<uint64> {
    if a + b < U64_LIMIT then Some(a + b) else None
  }

  function SaturatingSub(a: uint64, b: uint64): uint64 { if a >= b then a - b else 0 }

  lemma MulAtLeast(k: int, m: int)
    requires m > 0
    ensures k >= 1 ==> k * m >= m
  {
  }

  lemma QuotientUnique(q1: int, r1: int, q2: int, r2: int, m: int)
    requires q1 * m + r1 == q2 * m + r2 && 0 <= r1 < m && 0 <= r2 < m
    ensures q1 == q2 && r1 == r2
  {
    MulAtLeast(q1 - q2, m);
    MulAtLeast(q2 - q1, m);
    assert (q1 - q2) * m == q1 * m - q2 * m;
    assert (q2 - q1) * m == q2 * m - q1 * m;
  }

  /** Division by a variable, pinned down by its quotient and remainder. */
  lemma DivModUnique(x: int, q: int, r: int, m: int)
    requires m > 0 && x == q * m + r && 0 <= r < m
    ensures x / m == q && x % m == r
  {
    QuotientUnique(x / m, x % m, q, r, m);
  }

  /** Rust's `next_multiple_of`: round `a` up to a multiple of `m`. */
  function NextMultipleOf(a: nat, m: nat): (r: nat)
    requires m > 0
    ensures r % m == 0 && a <= r < a + m
  {
    assert a % m != 0 ==> (a + (m - a % m)) % m == 0 by {
      assert (a / m + 1) * m == (a / m) * m + m;
      DivModUnique(a + (m - a % m), a / m + 1, 0, m);
    }
    if a % m == 0 then a else a + (m - a % m)
  }

  lemma MultiplesApart(x: nat, y: nat, m: nat)
    requires m > 0 && x % m == 0 && y % m == 0
    ensures x > y ==> x >= y + m
  {
    var q, t := x / m, y / m;
    assert x == q * m && y == t * m;
    MulAtLeast(q - t, m);
    assert (q - t) * m == x - y;
    if x > y { assert q > t; }
  }

  /** `NextMultipleOf` is the least multiple at or above `a`. */
  lemma NextMultipleIsLeast(a: nat, m: nat, p: nat)
    requires m > 0 && p % m == 0 && a <= p
    ensures NextMultipleOf(a, m) <= p
  {
    MultiplesApart(NextMultipleOf(a, m), p, m);
  }

  lemma MultipleOfMultiple(a: nat, m: nat, g: nat)
    requires g > 0 && m > 0 && m % g == 0 && a % m == 0
    ensures a % g == 0
  {
    var k, j := m / g, a / m;
    assert m == k * g && a == j * m;
    assert j * (k * g) == (j * k) * g;
    DivModUnique(a, j * k, 0, g);
  }

  /** `is_power_of_two`, which Rust's `Layout` guarantees of every alignment. */
  predicate IsPowerOfTwo(n: nat) {
    n == 1 || (n > 1 && n % 2 == 0 && IsPowerOfTwo(n / 2))
  }

  lemma PowerOfTwoOnGrid(n: nat)
    requires IsPowerOfTwo(n) && n >= 16
    ensures n % 16 == 0
  {
    assert IsPowerOfTwo(n / 2) && IsPowerOfTwo(n / 2 / 2) && IsPowerOfTwo(n / 2 / 2 / 2);
    assert n / 2 / 2 / 2 >= 2;
  }

  function Min(a: nat, b: nat): nat { if a < b then a else b }

  function Max(a: nat, b: nat): nat { if a < b then b else a }

  function Last<T>(s: seq<T>): T
    requires s != []
  {
    s[|s| - 1]
  }

  function ButLast<T>(s: seq<T>): seq<T>
    requires s != []
  {
    s[..|s| - 1]
  }

  lemma ConcatAssoc<T>(a: seq<T>, b: seq<T>, c: seq<T>)
    ensures a + b + c == a + (b + c)
  {
  }

  lemma ConsConcat<T>(a: seq<T>, b: seq<T>)
    requires a != []
    ensures (a + b)[0] == a[0] && (a + b)[1..] == a[1..] + b
  {
  }

  lemma SliceOfSlice<T>(s: seq<T>, lo: nat, hi: nat, a: nat, b: nat)
    requires lo <= hi <= |s| && a <= b <= hi - lo
    ensures s[lo..hi][a..b] == s[lo + a..lo + b]
  {
    forall i | 0 <= i < b - a ensures s[lo..hi][a..b][i] == s[lo + a..lo + b][i] {}
  }

  lemma MiddleSlice<T>(a: seq<T>, b: seq<T>, c: seq<T>)
    ensures (a + b + c)[|a|..|a| + |b|] == b
  {
  }

  lemma AddRemove<T>(s: set<T>, x: T)
    requires x !in s
    ensures s + {x} - {x} == s
  {
  }

  function One(b: bool): nat { if b then 1 else 0 }

  function Interval(lo: nat, n: nat): (r: set<nat>)
    ensures forall f :: f in r <==> lo <= f < lo + n
  {
    if n == 0 then {} else Interval(lo, n - 1) + {lo + n - 1}
  }

  lemma {:induction false} IntervalSize(lo: nat, n: nat)
    ensures |Interval(lo, n)| == n
  {
    if n > 0 {
      IntervalSize(lo, n - 1);
    }
  }
}
