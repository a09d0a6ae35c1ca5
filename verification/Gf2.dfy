/**
 * Polynomials over the two-element field, as numbers whose bits are the coefficients, and doubling modulo
 * x^n + x^7 + x^2 + x + 1 (section 5.2 of IEEE Std 1619-2007 uses n = 128).
 */
module Gf2 {
  import opened Bytes

  // ---- Addition ----

  function Xor(a: nat, b: nat): nat {
    if a == 0 && b == 0 then 0 else (a + b) % 2 + 2 * Xor(a / 2, b / 2)
  }

  lemma XorStep(a: nat, b: nat)
    ensures Xor(a, b) % 2 == (a + b) % 2 && Xor(a, b) / 2 == Xor(a / 2, b / 2)
    ensures Xor(a, b) == (a + b) % 2 + 2 * Xor(a / 2, b / 2)
  {
  }

  lemma {:induction false} XorCommutes(a: nat, b: nat)
    ensures Xor(a, b) == Xor(b, a)
  {
    if a != 0 || b != 0 {
      XorCommutes(a / 2, b / 2);
    }
  }

  lemma {:induction false} XorZero(a: nat)
    ensures Xor(a, 0) == a && Xor(0, a) == a
  {
    if a != 0 {
      XorZero(a / 2);
    }
  }

  lemma {:induction false} XorZeroIff(a: nat, b: nat)
    ensures Xor(a, b) == 0 <==> a == b
  {
    if a != 0 || b != 0 {
      XorZeroIff(a / 2, b / 2);
      XorStep(a, b);
    }
  }

  lemma {:induction false} XorAssociates(a: nat, b: nat, c: nat)
    ensures Xor(Xor(a, b), c) == Xor(a, Xor(b, c))
    decreases a + b + c
  {
    hide Xor;
    XorStep(a, b);
    XorStep(b, c);
    XorStep(Xor(a, b), c);
    XorStep(a, Xor(b, c));
    Parity(a, b, c, Xor(a, b), Xor(b, c));
    if a != 0 || b != 0 || c != 0 {
      XorAssociates(a / 2, b / 2, c / 2);
    }
  }

  lemma Parity(a: nat, b: nat, c: nat, x: nat, y: nat)
    requires x % 2 == (a + b) % 2 && y % 2 == (b + c) % 2
    ensures (x + c) % 2 == (a + y) % 2
  {
  }

  lemma XorTwice(a: nat, x: nat)
    ensures Xor(Xor(a, x), x) == a
  {
    XorAssociates(a, x, x);
    XorZeroIff(x, x);
    XorZero(a);
  }

  /** Sums can be regrouped. */
  lemma XorInterchange(a: nat, b: nat, c: nat, d: nat)
    ensures Xor(Xor(a, b), Xor(c, d)) == Xor(Xor(a, c), Xor(b, d))
  {
    hide Xor;
    XorAssociates(a, b, Xor(c, d));
    XorAssociates(b, c, d);
    XorCommutes(b, c);
    XorAssociates(c, b, d);
    XorAssociates(a, c, Xor(b, d));
  }

  lemma {:induction false} XorBelow(n: nat, a: nat, b: nat)
    requires a < Pow2(n) && b < Pow2(n)
    ensures Xor(a, b) < Pow2(n)
  {
    if n > 0 {
      XorBelow(n - 1, a / 2, b / 2);
      XorStep(a, b);
    }
  }

  /** The sum of the low `n` coefficients does not touch the others. */
  lemma {:induction false} XorSplits(n: nat, a: nat, h: nat, b: nat, k: nat)
    requires a < Pow2(n) && b < Pow2(n)
    ensures Xor(a + Pow2(n) * h, b + Pow2(n) * k) == Xor(a, b) + Pow2(n) * Xor(h, k)
  {
    hide Xor, Pow2;
    if n == 0 {
      Pow2Step(0, h);
      Pow2Step(0, k);
      Pow2Step(0, Xor(h, k));
      XorZeroIff(0, 0);
    } else {
      Pow2Step(n, h);
      Pow2Step(n, k);
      Pow2Step(n, Xor(h, k));
      Pow2Step(n, 1);
      XorSplits(n - 1, a / 2, h, b / 2, k);
      XorEven(a, Pow2(n - 1) * h, b, Pow2(n - 1) * k, Pow2(n - 1) * Xor(h, k));
    }
  }

  lemma XorEven(a: nat, q: nat, b: nat, r: nat, t: nat)
    requires Xor(a / 2 + q, b / 2 + r) == Xor(a / 2, b / 2) + t
    ensures Xor(a + 2 * q, b + 2 * r) == Xor(a, b) + 2 * t
  {
    hide Xor;
    XorStep(a, b);
    XorStep(a + 2 * q, b + 2 * r);
  }

  lemma Pow2Step(n: nat, h: nat)
    ensures n == 0 ==> Pow2(n) == 1 && Pow2(n) * h == h
    ensures n > 0 ==> Pow2(n) * h == 2 * (Pow2(n - 1) * h)
    ensures Pow2(n) * 1 == Pow2(n) && (n > 0 ==> Pow2(n) == 2 * Pow2(n - 1))
  {
    if n > 0 {
      var p := Pow2(n - 1);
      assert 2 * p * h == 2 * (p * h);
    }
  }

  // ---- Doubling ----

  /** The polynomial times x, reduced by x^n + x^7 + x^2 + x + 1 when its degree reaches n. */
  function Double(n: nat, v: nat): nat {
    if 2 * v < Pow2(n) then 2 * v else Xor(2 * v, Pow2(n) + 0x87)
  }

  lemma Reduction(n: nat)
    requires n >= 8
    ensures 0x87 < Pow2(n) && Pow2(n) == 2 * Pow2(n - 1)
  {
    PowersOfTwo();
    Pow2Grows(8, n);
  }

  /** With the top coefficient split off. */
  lemma DoubleSplits(n: nat, low: nat, top: nat)
    requires n >= 8 && low < Pow2(n - 1) && top < 2
    ensures Double(n, low + Pow2(n - 1) * top) == Xor(2 * low, 0x87 * top)
    ensures Double(n, low + Pow2(n - 1) * top) < Pow2(n)
  {
    hide Xor, Pow2;
    Reduction(n);
    if top == 0 {
      XorZero(2 * low);
    } else {
      XorSplits(n, 2 * low, 1, 0x87, 1);
      XorZeroIff(1, 1);
      XorBelow(n, 2 * low, 0x87);
    }
  }

  lemma TopCoefficient(n: nat, v: nat) returns (low: nat, top: nat)
    requires n >= 8 && v < Pow2(n)
    ensures low < Pow2(n - 1) && top < 2 && v == low + Pow2(n - 1) * top
  {
    Reduction(n);
    if v < Pow2(n - 1) {
      low, top := v, 0;
    } else {
      low, top := v - Pow2(n - 1), 1;
    }
  }

  lemma XorOfDoubles(a: nat, b: nat)
    ensures Xor(2 * a, 2 * b) == 2 * Xor(a, b)
  {
    hide Xor;
    XorStep(2 * a, 2 * b);
    assert (2 * a) / 2 == a && (2 * b) / 2 == b && (2 * a + 2 * b) % 2 == 0;
  }

  lemma XorOfBits(h: nat, k: nat)
    requires h < 2 && k < 2
    ensures Xor(h, k) == (h + k) % 2
    ensures Xor(0x87 * h, 0x87 * k) == 0x87 * Xor(h, k)
  {
    XorZero(0x87 * h);
    XorZero(0x87 * k);
    XorZeroIff(0x87 * h, 0x87 * k);
    XorZero(h);
    XorZero(k);
    XorZeroIff(h, k);
  }

  /** Doubling is linear. */
  lemma DoubleLinear(n: nat, a: nat, b: nat)
    requires n >= 8 && a < Pow2(n) && b < Pow2(n)
    ensures Double(n, Xor(a, b)) == Xor(Double(n, a), Double(n, b))
  {
    hide Double, Xor, Pow2;
    var l, h := TopCoefficient(n, a);
    var m, k := TopCoefficient(n, b);
    DoubleSplits(n, l, h);
    DoubleSplits(n, m, k);
    XorInterchange(2 * l, 0x87 * h, 2 * m, 0x87 * k);
    XorOfDoubles(l, m);
    XorOfBits(h, k);
    XorSplits(n - 1, l, h, m, k);
    XorBelow(n - 1, l, m);
    DoubleSplits(n, Xor(l, m), Xor(h, k));
  }

  /** Different polynomials have different doubles. */
  lemma DoubleInjective(n: nat, a: nat, b: nat)
    requires n >= 8 && a < Pow2(n) && b < Pow2(n) && Double(n, a) == Double(n, b)
    ensures a == b
  {
    hide Double, Xor, Pow2;
    DoubleLinear(n, a, b);
    XorZeroIff(Double(n, a), Double(n, b));
    XorBelow(n, a, b);
    var l, h := TopCoefficient(n, Xor(a, b));
    DoubleSplits(n, l, h);
    XorZeroIff(2 * l, 0x87 * h);
    XorZeroIff(a, b);
  }

  // ---- The octets ----

  lemma {:induction false} Pow256IsPow2(m: nat)
    ensures Pow256(m) == Pow2(8 * m)
  {
    if m > 0 {
      hide Pow2;
      Pow256IsPow2(m - 1);
      Pow2Plus8(8 * (m - 1));
    }
  }

  lemma {:induction false} FromLEAppend(s: seq<byte>, b: byte)
    ensures FromLE(s + [b]) == FromLE(s) + b as int * Pow256(|s|)
  {
    if s == [] {
      assert s + [b] == [b];
    } else {
      hide FromLE;
      FromLEAppend(s[1..], b);
      assert (s + [b])[1..] == s[1..] + [b];
      FromLEStep(s);
      FromLEStep(s + [b]);
      assert Pow256(|s|) == 256 * Pow256(|s| - 1);
      hide Pow256;
      Scale(b, Pow256(|s| - 1));
    }
  }

  lemma FromLEStep(s: seq<byte>)
    requires s != []
    ensures FromLE(s) == s[0] as int + 256 * FromLE(s[1..])
  {
  }

  lemma Scale(b: int, p: int)
    ensures 256 * (b * p) == b * (256 * p)
  {
  }

  function XorByte(a: byte, b: byte): byte {
    PowersOfTwo();
    XorBelow(8, a, b);
    Xor(a, b)
  }

  lemma XorFirst(s: seq<byte>)
    requires s != []
    ensures FromLE(s[0 := XorByte(s[0], 0x87)]) == Xor(FromLE(s), 0x87)
  {
    hide FromLE, Xor, Pow2;
    FirstReplaced(s, s[0]);
    FirstReplaced(s, XorByte(s[0], 0x87));
    assert s[0 := s[0]] == s;
    XorLow(s[0], FromLE(s[1..]));
  }

  lemma FirstReplaced(s: seq<byte>, b: byte)
    requires s != []
    ensures FromLE(s[0 := b]) == b as int + 256 * FromLE(s[1..])
  {
    assert s[0 := b][1..] == s[1..];
  }

  lemma XorLow(b: byte, hi: nat)
    ensures Xor(b as int + 256 * hi, 0x87) == Xor(b, 0x87) + 256 * hi
  {
    hide Xor, Pow2;
    PowersOfTwo();
    XorSplits(8, b, hi, 0x87, 0);
    XorZero(hi);
  }

  /** Doubling of little-endian octets, of which there may be any number. */
  method Gf2Mul(a: seq<byte>) returns (result: seq<byte>)
    ensures |result| == |a|
    ensures a != [] ==> FromLE(result) == Double(8 * |a|, FromLE(a))
  {
    assert FromLE([]) == 0 == FromLE(a[..0]);
    hide FromLE, Pow256, Double, XorByte;
    result := [];
    var carry := 0;
    for i := 0 to |a|
      invariant |result| == i && 0 <= carry <= 1 && (i == 0 ==> carry == 0)
      invariant FromLE(result) + carry * Pow256(i) == 2 * FromLE(a[..i])
    {
      CarryStep(result, a, i, carry);
      carry := 2 * a[i] as int + carry;
      result := result + [carry % 256];
      carry := carry / 256;
    }
    assert a[..|a|] == a;
    if a != [] {
      Carried(result, carry, FromLE(a));
    }
    if carry != 0 {
      result := result[0 := XorByte(result[0], 0x87)];
    }
  }

  lemma CarryStep(result: seq<byte>, a: seq<byte>, i: nat, carry: nat)
    requires i < |a| && |result| == i && carry <= 1
    requires FromLE(result) + carry * Pow256(i) == 2 * FromLE(a[..i])
    ensures var c := 2 * a[i] as int + carry;
            c / 256 <= 1 &&
            FromLE(result + [c % 256]) + c / 256 * Pow256(i + 1) == 2 * FromLE(a[..i + 1])
  {
    var c, p := 2 * a[i] as int + carry, Pow256(i);
    FromLEAppend(result, c % 256);
    FromLEAppend(a[..i], a[i]);
    assert a[..i] + [a[i]] == a[..i + 1];
    assert Pow256(i + 1) == 256 * p;
    hide FromLE, Pow256;
    CarryMoves(a[i], carry, p);
  }

  lemma CarryMoves(x: nat, carry: nat, p: nat)
    ensures var c := 2 * x + carry; c % 256 * p + c / 256 * (256 * p) == 2 * (x * p) + carry * p
  {
    var c := 2 * x + carry;
    var q, r := c / 256, c % 256;
    assert q * (256 * p) == 256 * q * p;
    assert r * p + 256 * q * p == (r + 256 * q) * p == c * p;
    assert c * p == 2 * x * p + carry * p;
  }

  lemma Carried(result: seq<byte>, carry: nat, v: nat)
    requires result != [] && carry <= 1
    requires FromLE(result) + carry * Pow256(|result|) == 2 * v
    ensures carry == 0 ==> FromLE(result) == Double(8 * |result|, v)
    ensures carry == 1 ==>
              FromLE(result[0 := XorByte(result[0], 0x87)]) == Double(8 * |result|, v)
  {
    hide FromLE, Xor, Pow2, Pow256;
    var n, r := 8 * |result|, FromLE(result);
    assert r < Pow256(|result|);
    Pow256IsPow2(|result|);
    XorFirst(result);
    Reduction(n);
    XorSplits(n, r, 1, 0x87, 1);
    XorZeroIff(1, 1);
    Pow2Step(n, 1);
    assert Pow2(n) * 0 == 0;
    assert carry == 0 ==> carry * Pow256(|result|) == 0;
    assert carry == 1 ==> carry * Pow256(|result|) == Pow2(n);
  }
}
