/** Geometry of the 8x8 board shared by both rules engines and the server:
    coordinates, the row-major cell index used by the 64-cell boards, the
    "dark square" parity used by every start layout, and a counting lemma
    for layouts that fill the dark squares of a band of rows. */
module Squares {

  predicate InBounds(r: int, c: int) {
    0 <= r < 8 && 0 <= c < 8
  }

  /** Row-major index of a square, as `r * 8 + c` in both client and server. */
  function Idx(r: int, c: int): (i: int)
    requires InBounds(r, c)
    ensures 0 <= i < 64
  {
    r * 8 + c
  }

  /** Idx is a bijection between the squares and 0 .. 63: division and
      remainder by 8 recover the row and the column. */
  lemma IdxCoords(r: int, c: int)
    requires InBounds(r, c)
    ensures Idx(r, c) / 8 == r && Idx(r, c) % 8 == c
  {
  }

  lemma IdxInjective(r1: int, c1: int, r2: int, c2: int)
    requires InBounds(r1, c1) && InBounds(r2, c2)
    ensures Idx(r1, c1) == Idx(r2, c2) <==> (r1, c1) == (r2, c2)
  {
    IdxCoords(r1, c1);
    IdxCoords(r2, c2);
  }

  lemma CoordsIdx(i: int)
    requires 0 <= i < 64
    ensures InBounds(i / 8, i % 8) && Idx(i / 8, i % 8) == i
  {
  }

  function Abs(x: int): nat {
    if x < 0 then -x else x
  }

  /** The square `k` steps from `x` in the direction of the sign of `d`. */
  function Along(x: int, d: int, k: int): int {
    if d > 0 then x + k else x - k
  }

  /** A square of the 64-cell board is dark when `i / 8 + i` is odd, the test
      both copies of CreateInitialBoard use. */
  predicate Dark(i: int) {
    (i / 8 + i) % 2 == 1
  }

  /** The index test agrees with the `(r + c) % 2 == 1` test on coordinates. */
  lemma DarkIsOddRowPlusCol(r: int, c: int)
    requires InBounds(r, c)
    ensures Dark(Idx(r, c)) <==> (r + c) % 2 == 1
  {
    var i := Idx(r, c);
    IdxCoords(r, c);
    EvenShift(i / 8 + i, 4 * r, r + c);
  }

  /** Adding an even number keeps the parity. */
  lemma EvenShift(x: int, m: int, k: int)
    requires x == 2 * m + k
    ensures x % 2 == k % 2
  {
  }

  /** Number of dark squares among indices 0 .. n-1. */
  function DarkBefore(n: nat): nat {
    4 * (n / 8) + (if (n / 8) % 2 == 0 then (n % 8) / 2 else (n % 8 + 1) / 2)
  }

  lemma DarkBeforeStep(n: nat)
    ensures DarkBefore(n + 1) == DarkBefore(n) + (if Dark(n) then 1 else 0)
  {
    var r, c := n / 8, n % 8;
    assert n == 8 * r + c;
    if c < 7 {
      assert (n + 1) / 8 == r && (n + 1) % 8 == c + 1;
    } else {
      assert (n + 1) / 8 == r + 1 && (n + 1) % 8 == 0;
    }
  }

  function Clamp(n: int, lo: int, hi: int): int
    requires lo <= hi
  {
    if n < lo then lo else if n > hi then hi else n
  }

  /** A value `x` that sits exactly on the dark squares of rows `rlo .. rhi-1`
      occurs 4 times per row. */
  predicate OnDarkBand<T(==)>(s: seq<T>, x: T, rlo: nat, rhi: nat) {
    |s| == 64 && rlo <= rhi <= 8 &&
    forall i :: 0 <= i < 64 ==> (s[i] == x <==> 8 * rlo <= i < 8 * rhi && Dark(i))
  }

  lemma {:induction false} DarkBandPrefix<T>(s: seq<T>, x: T, rlo: nat, rhi: nat, n: nat)
    requires OnDarkBand(s, x, rlo, rhi) && n <= 64
    ensures multiset(s[..n])[x] == DarkBefore(Clamp(n, 8 * rlo, 8 * rhi)) - DarkBefore(8 * rlo)
  {
    if n > 0 {
      DarkBandPrefix(s, x, rlo, rhi, n - 1);
      DarkBeforeStep(n - 1);
      assert s[..n] == s[..n - 1] + [s[n - 1]];
    }
  }

  lemma DarkBandCount<T>(s: seq<T>, x: T, rlo: nat, rhi: nat)
    requires OnDarkBand(s, x, rlo, rhi)
    ensures multiset(s)[x] == 4 * (rhi - rlo)
  {
    DarkBandPrefix(s, x, rlo, rhi, 64);
    assert s[..64] == s;
    assert (8 * rhi) / 8 == rhi && (8 * rhi) % 8 == 0;
    assert (8 * rlo) / 8 == rlo && (8 * rlo) % 8 == 0;
  }
}
