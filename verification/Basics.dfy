/** What several components share: optional values, bytes, and the powers of two
    behind machine words. */
module Basics {

  datatype Option<+T> = None | Some(value: T)

  type Byte = x: int | 0 <= x < 256

  type Bytes = seq<Byte>

  /** Numbers of 64 bits. */
  const WORD: nat := 0x1_0000_0000_0000_0000

  type Addr = x: int | 0 <= x < WORD

  function Pow2(n: nat): (r: nat)
    ensures r > 0
  {
    if n == 0 then 1 else 2 * Pow2(n - 1)
  }

  lemma {:induction false} Pow2Adds(a: nat, b: nat)
    ensures Pow2(a) * Pow2(b) == Pow2(a + b)
  {
    if a > 0 {
      Pow2Adds(a - 1, b);
      assert 2 * (Pow2(a - 1) * Pow2(b)) == (2 * Pow2(a - 1)) * Pow2(b);
    }
  }

  lemma Pow2Word()
    ensures Pow2(64) == WORD
  {
    assert Pow2(4) == 16;
    hide Pow2;
    Doubled(4, 0x10);
    Doubled(8, 0x100);
    Doubled(16, 0x1_0000);
    Doubled(32, 0x1_0000_0000);
  }

  lemma Doubled(k: nat, x: nat)
    requires Pow2(k) == x
    ensures Pow2(k + k) == x * x
  {
    Pow2Adds(k, k);
  }

  lemma Associative<T>(a: seq<T>, b: seq<T>, c: seq<T>)
    ensures a + (b + c) == (a + b) + c
  {
  }

  lemma MulStep(m: nat, a: int, b: int)
    requires a < b
    ensures m * a + m <= m * b
    decreases b - a
  {
    assert m * b == m * (b - 1) + m;
    if a < b - 1 { MulStep(m, a, b - 1); }
  }

  lemma OneRemainder(m: nat, p: int, s: int, q: int, r: int)
    requires 0 <= r < m && 0 <= s < m && m * p + s == m * q + r
    ensures s == r && p == q
  {
    if p < q { MulStep(m, p, q); }
    if q < p { MulStep(m, q, p); }
  }

  lemma RemainderIs(x: int, m: nat, q: int, r: int)
    requires 0 <= r < m && x == m * q + r
    ensures x % m == r
  {
    OneRemainder(m, x / m, x % m, q, r);
  }

  lemma SubsetSize<T>(a: set<T>, b: set<T>)
    requires a <= b
    ensures |a| <= |b|
  {
    assert b == a + (b - a);
  }
}
