/** Machine words: bytes, little-endian values, powers of two and the bitwise
    operators the source applies to unsigned words. */
module Words {
  type byte = b: int | 0 <= b < 0x100
  type u32 = w: int | 0 <= w < 0x1_0000_0000
  type u64 = w: int | 0 <= w < 0x1_0000_0000_0000_0000

  const TWO_32: nat := 0x1_0000_0000
  const TWO_64: nat := 0x1_0000_0000_0000_0000

  // ---------------------------------------------------------------- powers

  function Pow2(k: nat): (p: nat)
    ensures p > 0
  {
    if k == 0 then 1 else 2 * Pow2(k - 1)
  }

  function Pow256(k: nat): (p: nat)
    ensures p > 0
  {
    if k == 0 then 1 else 256 * Pow256(k - 1)
  }

  lemma Pow256Values()
    ensures Pow256(4) == TWO_32 && Pow256(8) == TWO_64
  {
    assert Pow256(2) == 0x1_0000;
    assert Pow256(3) == 0x100_0000;
    assert Pow256(4) == TWO_32;
    assert Pow256(5) == 0x100 * TWO_32;
    assert Pow256(6) == 0x1_0000 * TWO_32;
    assert Pow256(7) == 0x100_0000 * TWO_32;
  }

  // ---------------------------------------------------------- little endian

  /** The number a little-endian byte string stands for. */
  function Value(bs: seq<byte>): nat {
    if |bs| == 0 then 0 else bs[0] + 256 * Value(bs[1..])
  }

  /** The n low-order bytes of v, least significant first. */
  function Bytes(v: nat, n: nat): (bs: seq<byte>)
    ensures |bs| == n
  {
    if n == 0 then [] else [v % 256] + Bytes(v / 256, n - 1)
  }

  lemma {:induction false} BytesOfValue(bs: seq<byte>)
    ensures Bytes(Value(bs), |bs|) == bs
  {
    if |bs| > 0 {
      BytesOfValue(bs[1..]);
      assert Value(bs) % 256 == bs[0] && Value(bs) / 256 == Value(bs[1..]);
    }
  }

  /** Byte i of a number, counted from the least significant one. */
  lemma {:induction false} ByteAt(v: nat, n: nat, i: nat)
    requires i < n
    ensures Bytes(v, n)[i] == v / Pow256(i) % 256
  {
    if i > 0 {
      ByteAt(v / 256, n - 1, i - 1);
      QuotientOfQuotient(v, Pow256(i - 1));
    }
  }

  lemma QuotientOfQuotient(v: nat, p: nat)
    requires p > 0
    ensures v / 256 / p == v / (256 * p)
  {
    var h := v / 256;
    var q, r := h / p, h % p;
    assert h == p * q + r;
    assert v == (256 * p) * q + (256 * r + v % 256);
    ModuloUnique(v, 256 * p, q, 256 * r + v % 256);
  }

  lemma {:induction false} ValueOfBytes(v: nat, n: nat)
    requires v < Pow256(n)
    ensures Value(Bytes(v, n)) == v
  {
    if n > 0 {
      ValueOfBytes(v / 256, n - 1);
      assert Bytes(v, n)[1..] == Bytes(v / 256, n - 1);
    }
  }

  lemma {:induction false} ValueBound(bs: seq<byte>)
    ensures Value(bs) < Pow256(|bs|)
  {
    if |bs| > 0 { ValueBound(bs[1..]); }
  }

  lemma {:induction false} ValueConcat(a: seq<byte>, b: seq<byte>)
    ensures Value(a + b) == Value(a) + Pow256(|a|) * Value(b)
  {
    if |a| == 0 {
      assert a + b == b;
    } else {
      ValueConcat(a[1..], b);
      assert (a + b)[1..] == a[1..] + b;
      assert Value(a + b) == a[0] + 256 * (Value(a[1..]) + Pow256(|a| - 1) * Value(b));
      assert 256 * (Pow256(|a| - 1) * Value(b)) == Pow256(|a|) * Value(b);
    }
  }

  lemma {:induction false} BytesOfZero(n: nat)
    ensures Bytes(0, n) == seq(n, _ => 0)
  {
    if n > 0 { BytesOfZero(n - 1); }
  }

  // ------------------------------------------------------ bitwise operators

  predicate Bit(a: nat, i: nat) {
    if i == 0 then a % 2 == 1 else Bit(a / 2, i - 1)
  }

  /** a | b */
  function Or(a: nat, b: nat): nat {
    if a == 0 then b
    else if b == 0 then a
    else (if a % 2 == 1 || b % 2 == 1 then 1 else 0) + 2 * Or(a / 2, b / 2)
  }

  /** a & b */
  function And(a: nat, b: nat): nat {
    if a == 0 || b == 0 then 0
    else (if a % 2 == 1 && b % 2 == 1 then 1 else 0) + 2 * And(a / 2, b / 2)
  }

  /** a & ~b */
  function AndNot(a: nat, b: nat): nat {
    if a == 0 then 0
    else if b == 0 then a
    else (if a % 2 == 1 && b % 2 == 0 then 1 else 0) + 2 * AndNot(a / 2, b / 2)
  }

  lemma {:induction false} ZeroHasNoBits(i: nat)
    ensures !Bit(0, i)
  {
    if i > 0 { ZeroHasNoBits(i - 1); }
  }

  lemma {:induction false} OrMeaning(a: nat, b: nat, i: nat)
    ensures Bit(Or(a, b), i) == (Bit(a, i) || Bit(b, i))
  {
    ZeroHasNoBits(i);
    if a != 0 && b != 0 && i > 0 {
      OrMeaning(a / 2, b / 2, i - 1);
      assert Or(a, b) / 2 == Or(a / 2, b / 2);
    }
  }

  lemma {:induction false} AndMeaning(a: nat, b: nat, i: nat)
    ensures Bit(And(a, b), i) == (Bit(a, i) && Bit(b, i))
  {
    ZeroHasNoBits(i);
    if a != 0 && b != 0 && i > 0 {
      AndMeaning(a / 2, b / 2, i - 1);
      assert And(a, b) / 2 == And(a / 2, b / 2);
    }
  }

  lemma {:induction false} AndNotMeaning(a: nat, b: nat, i: nat)
    ensures Bit(AndNot(a, b), i) == (Bit(a, i) && !Bit(b, i))
  {
    ZeroHasNoBits(i);
    if a != 0 && b != 0 && i > 0 {
      AndNotMeaning(a / 2, b / 2, i - 1);
      assert AndNot(a, b) / 2 == AndNot(a / 2, b / 2);
    }
  }

  lemma {:induction false} BitwiseBound(a: nat, b: nat, k: nat)
    requires a < Pow2(k) && b < Pow2(k)
    ensures Or(a, b) < Pow2(k) && And(a, b) <= a && AndNot(a, b) <= a
  {
    if a != 0 && b != 0 { BitwiseBound(a / 2, b / 2, k - 1); }
  }

  /** x & (align - 1) and x & ~(align - 1) for a power of two. */
  lemma MaskIsModulo(x: nat, k: nat)
    ensures And(x, Pow2(k) - 1) == x % Pow2(k)
    ensures AndNot(x, Pow2(k) - 1) == x - x % Pow2(k)
  {
    AndMask(x, k);
    AndNotMask(x, k);
  }

  lemma {:induction false} AndMask(x: nat, k: nat)
    ensures And(x, Pow2(k) - 1) == x % Pow2(k)
  {
    if k == 0 {
    } else if x == 0 {
      ModuloUnique(0, Pow2(k), 0, 0);
    } else {
      MaskHalf(k);
      AndOddMask(x, Pow2(k) - 1);
      AndMask(x / 2, k - 1);
      HalfModulo(x, Pow2(k - 1));
      hide And, Pow2;
    }
  }

  lemma AndOddMask(x: nat, mask: nat)
    requires x > 0 && mask % 2 == 1
    ensures And(x, mask) == x % 2 + 2 * And(x / 2, mask / 2)
  {
  }

  lemma {:induction false} AndNotMask(x: nat, k: nat)
    ensures AndNot(x, Pow2(k) - 1) == x - x % Pow2(k)
  {
    if k > 0 && x > 0 {
      AndNotMask(x / 2, k - 1);
      MaskHalf(k);
      HalfModulo(x, Pow2(k - 1));
    }
  }

  lemma MaskHalf(k: nat)
    requires k > 0
    ensures Pow2(k) == 2 * Pow2(k - 1)
    ensures (Pow2(k) - 1) / 2 == Pow2(k - 1) - 1 && (Pow2(k) - 1) % 2 == 1
  {
  }

  lemma HalfModulo(x: nat, p: nat)
    requires p > 0
    ensures x % (2 * p) == 2 * ((x / 2) % p) + x % 2
  {
    var q := (x / 2) / p;
    var r := (x / 2) % p;
    assert x / 2 == p * q + r;
    assert x == (2 * p) * q + (2 * r + x % 2);
    ModuloUnique(x, 2 * p, q, 2 * r + x % 2);
  }

  lemma ModuloUnique(x: int, m: int, q: int, r: int)
    requires m > 0 && 0 <= r < m && x == m * q + r
    ensures x % m == r && x / m == q
  {
    var d := x / m - q;
    assert m * d == r - x % m;
    if d >= 1 { ProductAtLeast(m, d); } else if d <= -1 { ProductAtLeast(m, -d); }
  }

  lemma ProductAtLeast(m: int, d: int)
    requires m > 0 && d >= 1
    ensures m * d >= m && m * -d <= -m
  {
  }

  lemma Pow2Values()
    ensures Pow2(32) == TWO_32 && Pow2(64) == TWO_64
  {
    assert Pow2(8) == 0x100;
    assert Pow2(16) == 0x1_0000 by { assert Pow2(12) == 0x1000; }
    assert Pow2(24) == 0x100_0000 by { assert Pow2(20) == 0x10_0000; }
    assert Pow2(32) == TWO_32 by { assert Pow2(28) == 0x1000_0000; }
    assert Pow2(40) == 0x100 * TWO_32 by { assert Pow2(36) == 0x10 * TWO_32; }
    assert Pow2(48) == 0x1_0000 * TWO_32 by { assert Pow2(44) == 0x1000 * TWO_32; }
    assert Pow2(56) == 0x100_0000 * TWO_32 by { assert Pow2(52) == 0x10_0000 * TWO_32; }
    assert Pow2(60) == 0x1000_0000 * TWO_32;
  }
}
