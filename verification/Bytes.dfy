/**
 * Octets, little-endian integers and chunking: the vocabulary shared by the boot
 * stream, host I/O, GDB and flash models.
 */
module Bytes {
  type byte = x: int | 0 <= x < 256

  function Pow2(n: nat): (p: nat)
    ensures p > 0
  {
    if n == 0 then 1 else 2 * Pow2(n - 1)
  }

  lemma {:induction false} Pow2Grows(a: nat, b: nat)
    requires a <= b
    ensures Pow2(a) <= Pow2(b)
  {
    if a < b {
      Pow2Grows(a, b - 1);
    }
  }

  lemma Pow2Plus8(k: nat)
    ensures Pow2(k + 8) == 256 * Pow2(k)
  {
    assert Pow2(k + 8) == 2 * Pow2(k + 7) && Pow2(k + 7) == 2 * Pow2(k + 6) && Pow2(k + 6) == 2 * Pow2(k + 5);
    assert Pow2(k + 5) == 2 * Pow2(k + 4) && Pow2(k + 4) == 2 * Pow2(k + 3) && Pow2(k + 3) == 2 * Pow2(k + 2);
    assert Pow2(k + 2) == 2 * Pow2(k + 1) && Pow2(k + 1) == 2 * Pow2(k);
  }

  lemma PowersOfTwo()
    ensures Pow2(8) == 0x100 && Pow2(32) == 0x1_0000_0000
  {
    assert Pow2(0) == 1;
    hide Pow2;
    Pow2Plus8(0);
    Pow2Plus8(8);
    Pow2Plus8(16);
    Pow2Plus8(24);
  }

  function Pow256(n: nat): (p: nat)
    ensures p > 0
  {
    if n == 0 then 1 else 256 * Pow256(n - 1)
  }

  /** The `n` low-order octets of `v`, least significant first. */
  function ToLE(v: nat, n: nat): (s: seq<byte>)
    ensures |s| == n
  {
    if n == 0 then [] else [v % 256] + ToLE(v / 256, n - 1)
  }

  function FromLE(s: seq<byte>): (v: nat)
    ensures v < Pow256(|s|)
  {
    if s == [] then 0 else s[0] + 256 * FromLE(s[1..])
  }

  /** Encoding then decoding gives back every value that fits. */
  lemma {:induction false} FromToLE(v: nat, n: nat)
    requires v < Pow256(n)
    ensures FromLE(ToLE(v, n)) == v
  {
    if n > 0 {
      FromToLE(v / 256, n - 1);
      assert ToLE(v, n)[1..] == ToLE(v / 256, n - 1);
    }
  }

  /** Decoding then encoding gives back every octet string. */
  lemma {:induction false} ToFromLE(s: seq<byte>)
    ensures ToLE(FromLE(s), |s|) == s
  {
    if s != [] {
      ToFromLE(s[1..]);
      var v := FromLE(s[1..]);
      assert FromLE(s) == s[0] as int + 256 * v;
      hide FromLE;
      DivModUnique(s[0] as int + 256 * v, v, s[0], 256);
      assert s == [s[0]] + s[1..];
    }
  }

  /** Closed forms for the two widths the formats use most. */
  lemma LE2(v: nat)
    requires v < 0x10000
    ensures ToLE(v, 2) == [v % 256, v / 256]
    ensures FromLE(ToLE(v, 2)) == v
  {
    assert ToLE(v, 2) == [v % 256] + ToLE(v / 256, 1);
    assert Pow256(2) == 256 * Pow256(1) == 65536;
    FromToLE(v, 2);
  }

  lemma LE4(v: nat)
    requires v < 0x1_0000_0000
    ensures ToLE(v, 4) == [v % 256, v / 0x100 % 256, v / 0x10000 % 256, v / 0x1000000]
    ensures FromLE(ToLE(v, 4)) == v
  {
    var a, b, c := v / 256, v / 256 / 256, v / 256 / 256 / 256;
    assert ToLE(v, 4) == [v % 256] + ToLE(a, 3);
    assert ToLE(a, 3) == [a % 256] + ToLE(b, 2);
    LE2(b);
    assert Pow256(4) == 256 * Pow256(3) && Pow256(3) == 256 * Pow256(2) && Pow256(2) == 65536;
    FromToLE(v, 4);
  }

  lemma FromLE4(s: seq<byte>)
    requires |s| == 4
    ensures FromLE(s) == s[0] as int + 0x100 * (s[1] as int) + 0x10000 * (s[2] as int) + 0x1000000 * (s[3] as int)
  {
    assert s[2..][1..] == s[3..] && s[1..][1..] == s[2..];
    assert FromLE(s[3..]) == s[3];
    assert FromLE(s[1..]) == s[1] + 256 * FromLE(s[2..]);
  }

  /** The smallest multiple of `a` that is not below `n`. */
  function AlignUp(n: nat, a: nat): (r: nat)
    requires a > 0
    ensures r % a == 0 && n <= r < n + a
  {
    AlignUpBounds(n, a);
    n + (a - n % a) % a
  }

  lemma AlignUpBounds(n: nat, a: nat)
    requires a > 0
    ensures var r := n + (a - n % a) % a; r % a == 0 && n <= r < n + a
  {
    var q, s := n / a, n % a;
    if s == 0 {
      DivModUnique(a, 1, 0, a);
    } else {
      DivModUnique(a - s, 0, a - s, a);
      assert n + (a - s) == (q + 1) * a;
      DivModUnique(n + (a - s), q + 1, 0, a);
    }
  }

  /** Quotient and remainder are determined by their defining equation. */
  lemma DivModUnique(x: int, q: int, r: int, a: int)
    requires a > 0 && x == q * a + r && 0 <= r < a
    ensures x / a == q && x % a == r
  {
    var k := q - x / a;
    assert x == (x / a) * a + x % a;
    assert k * a == x % a - r by {
      assert (q - x / a) * a == q * a - (x / a) * a;
    }
    if k >= 1 {
      MulMono(1, k, a);
      assert false;
    }
    if k <= -1 {
      MulMono(k, -1, a);
      assert false;
    }
  }

  lemma MulMono(x: int, y: int, a: int)
    requires x <= y && a >= 0
    ensures x * a <= y * a
  {
  }

  /** The octets of `s` in pieces of `size`, the last one possibly shorter. */
  function Chunks<T>(s: seq<T>, size: nat): (cs: seq<seq<T>>)
    requires size > 0
    ensures Concat(cs) == s
    ensures forall i :: 0 <= i < |cs| ==> 0 < |cs[i]| <= size
    ensures forall i :: 0 <= i < |cs| - 1 ==> |cs[i]| == size
  {
    if s == [] then []
    else if |s| <= size then
      assert Concat([s]) == s + Concat([]);
      [s]
    else
      var rest := Chunks(s[size..], size);
      assert ([s[..size]] + rest)[1..] == rest;
      assert s == s[..size] + s[size..];
      [s[..size]] + rest
  }

  function Concat<T>(ss: seq<seq<T>>): (s: seq<T>)
  {
    if ss == [] then [] else ss[0] + Concat(ss[1..])
  }

  lemma {:induction false} ConcatAppend<T>(xs: seq<seq<T>>, ys: seq<seq<T>>)
    ensures Concat(xs + ys) == Concat(xs) + Concat(ys)
  {
    if xs == [] {
      assert xs + ys == ys;
    } else {
      ConcatAppend(xs[1..], ys);
      assert (xs + ys)[1..] == xs[1..] + ys && (xs + ys)[0] == xs[0];
      assert xs[0] + (Concat(xs[1..]) + Concat(ys)) == Concat(xs) + Concat(ys);
    }
  }
}
