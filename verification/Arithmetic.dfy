/** Machine words and the integer lemmas that the other modules share. */
module Arithmetic {

  datatype Option<+T> = None | Some(value: T)

  type byte = x: int | 0 <= x < 0x100
  type uint16 = x: int | 0 <= x < 0x1_0000
  type int32 = x: int | -0x8000_0000 <= x < 0x8000_0000
  type uint32 = x: int | 0 <= x < 0x1_0000_0000

  const TWO_16: int := 0x1_0000
  const TWO_31: int := 0x8000_0000
  const TWO_32: int := 0x1_0000_0000

  function Abs(x: int): nat {
    if x < 0 then -x else x
  }

  predicate FitsInt32(x: int) {
    -TWO_31 <= x < TWO_31
  }

  /** Two's complement reduction of a signed result to 32 bits. */
  function Wrap32(x: int): int32 {
    (x + TWO_31) % TWO_32 - TWO_31
  }

  /** Reduction of an unsigned result to 32 bits. */
  function WrapU32(x: int): uint32 {
    x % TWO_32
  }

  function Pow2(n: nat): nat {
    if n == 0 then 1 else 2 * Pow2(n - 1)
  }

  lemma {:induction false} Pow2Add(m: nat, n: nat)
    ensures Pow2(m + n) == Pow2(m) * Pow2(n)
  {
    if m > 0 {
      Pow2Add(m - 1, n);
      Associate(2, Pow2(m - 1), Pow2(n));
    }
  }

  lemma Associate(a: int, b: int, c: int)
    ensures (a * b) * c == a * (b * c)
  {
  }

  lemma Regroup(r: int, h: int, a: int, b: int)
    ensures (r + h * a) * b == r * b + h * (a * b)
  {
    Associate(h, a, b);
    AddTop(r, h * a, b);
  }

  lemma SignFlip(r: int, n: int)
    ensures r * -n == -(r * n)
  {
  }

  lemma Pow2Positive(n: nat)
    ensures Pow2(n) > 0
  {
  }

  lemma DivMulCancel(d: nat, x: nat, y: nat)
    requires x > 0 && y > 0
    ensures x * y > 0
    ensures (d * x) / (y * x) == d / y
  {
    var q, r := d / y, d % y;
    assert d == q * y + r;
    assert d * x == q * (y * x) + r * x;
    assert r * x < y * x by { assert (y - r) * x > 0; }
    DivUnique(d * x, y * x, q, r * x);
  }

  lemma DivUnique(p: nat, d: nat, q: nat, r: nat)
    requires d > 0 && r < d
    requires p == q * d + r
    ensures p / d == q && p % d == r
  {
    var q', r' := p / d, p % d;
    DivMod(p, d);
    Distribute(q, q', d);
    SmallMultiple(q - q', d);
  }

  lemma DivMod(p: nat, d: nat)
    requires d > 0
    ensures p == (p / d) * d + p % d && 0 <= p % d < d
  {
  }

  lemma Distribute(x: int, y: int, d: int)
    ensures (x - y) * d == x * d - y * d
  {
  }

  lemma SmallMultiple(k: int, d: int)
    requires -d < k * d < d
    ensures k == 0
  {
    Distribute(0, k, d);
    if k >= 1 {
      MulMono(1, k, d, d);
    } else if k <= -1 {
      MulMono(1, -k, d, d);
    }
  }

  lemma Pow2Of32()
    ensures Pow2(32) == TWO_32
  {
    assert Pow2(8) == 256;
    Pow2Add(8, 8);
    Pow2Add(16, 16);
  }

  lemma DivShrinks(d: nat, y: nat)
    requires y > 0
    ensures 0 <= d / y <= d
  {
    DivMod(d, y);
    MulMono(d / y, d / y, 1, y);
  }

  lemma MulMono(a: nat, a': nat, b: nat, b': nat)
    requires a <= a' && b <= b'
    ensures 0 <= a * b <= a' * b'
  {
    assert a * b <= a' * b;
    assert a' * b <= a' * b';
  }

  lemma AddTop(q: int, x: int, d: int)
    ensures (q + x) * d == q * d + d * x
  {
  }

  lemma WrapOnce(x: int)
    requires 0 <= x < 2 * TWO_32
    ensures WrapU32(x) == if x < TWO_32 then x else x - TWO_32
  {
  }

  lemma WrapAdd(x: int, y: int)
    ensures Wrap32(Wrap32(x) as int + y) == Wrap32(x + y)
  {
  }
}
