/**
 * The block mode in which boot images are encrypted: each block is masked before and after the cipher with
 * a tweak that doubles from block to block.
 */
module Xex {
  import opened Bytes
  import opened Gf2
  import opened Wrappers

  /** A block cipher with its key: two functions on blocks that undo each other. */
  datatype Cipher = Cipher(encrypt: seq<byte> -> seq<byte>, decrypt: seq<byte> -> seq<byte>)

  /** On sixteen octets, decryption is undone by encryption. */
  ghost predicate Undoes(k: Cipher) {
    forall b {:trigger k.decrypt(b)} :: |b| == 16 ==> |k.decrypt(b)| == 16 && k.encrypt(k.decrypt(b)) == b
  }

  // ---- Masking ----

  function Bxor(a: seq<byte>, b: seq<byte>): (r: seq<byte>)
    ensures |r| == if |a| < |b| then |a| else |b|
  {
    seq(if |a| < |b| then |a| else |b|,
        i requires 0 <= i < |a| && i < |b| => XorByte(a[i], b[i]))
  }

  lemma BxorTwice(a: seq<byte>, x: seq<byte>)
    requires |a| == |x|
    ensures Bxor(Bxor(a, x), x) == a
  {
    forall i | 0 <= i < |a| ensures Bxor(Bxor(a, x), x)[i] == a[i] {
      XorTwice(a[i], x[i]);
    }
  }

  /** The next block's tweak. */
  function Next(x: seq<byte>): (y: seq<byte>)
    requires |x| == 16
    ensures |y| == 16
  {
    ToLE(Double(128, FromLE(x)), 16)
  }

  /** The tweak of block `j` when the first is `x`. */
  function Tweak(x: seq<byte>, j: nat): (y: seq<byte>)
    requires |x| == 16
    ensures |y| == 16
  {
    if j == 0 then x else Next(Tweak(x, j - 1))
  }

  function Block(cipher: seq<byte> -> seq<byte>, x: seq<byte>, p: seq<byte>): seq<byte> {
    Bxor(cipher(Bxor(p, x)), x)
  }

  /** Every octet is masked before the cipher and after it. */
  lemma BlockOctets(k: Cipher, x: seq<byte>, p: seq<byte>, i: nat)
    requires Undoes(k) && |x| == |p| == 16 && i < 16
    ensures var masked := seq(16, j requires 0 <= j < 16 => XorByte(p[j], x[j]));
            && |k.decrypt(masked)| == |Block(k.decrypt, x, p)| == 16
            && Block(k.decrypt, x, p)[i] == XorByte(k.decrypt(masked)[i], x[i])
  {
    var masked := seq(16, j requires 0 <= j < 16 => XorByte(p[j], x[j]));
    assert Bxor(p, x) == masked;
  }

  /** The `n` blocks of `data`, each under its tweak. */
  function Blocks(cipher: seq<byte> -> seq<byte>, x: seq<byte>, data: seq<byte>, n: nat): seq<byte>
    requires |x| == 16 && |data| == 16 * n
    decreases n
  {
    if n == 0 then []
    else Block(cipher, x, data[..16]) + Blocks(cipher, Next(x), data[16..], n - 1)
  }

  method EncryptBlock(k1: Cipher, x: seq<byte>, p: seq<byte>) returns (c: seq<byte>)
    ensures c == Block(k1.decrypt, x, p)
  {
    c := Bxor(p, x);
    c := k1.decrypt(c);
    c := Bxor(c, x);
  }

  method NextTweak(x: seq<byte>) returns (y: seq<byte>)
    requires |x| == 16
    ensures y == Next(x)
  {
    hide FromLE, ToLE, Double;
    y := Gf2Mul(x);
    ToFromLE(y);
  }

  /** Encrypts with the inverse direction of the first key; None where the last block is not whole. */
  method XexEncrypt(k1: Cipher, k2: Cipher, data: seq<byte>, init: seq<byte>)
    returns (result: Option<seq<byte>>)
    requires |k2.encrypt(init)| == 16
    ensures result.Some? <==> |data| % 16 == 0
    ensures result.Some? ==> result.value == Blocks(k1.decrypt, k2.encrypt(init), data, |data| / 16)
  {
    if |data| % 16 != 0 {
      return None;
    }
    var out := EncryptBlocks(k1, k2.encrypt(init), data, |data| / 16);
    return Some(out);
  }

  method EncryptBlocks(k1: Cipher, tweak: seq<byte>, data: seq<byte>, ghost n: nat) returns (out: seq<byte>)
    requires |tweak| == 16 && |data| == 16 * n
    ensures out == Blocks(k1.decrypt, tweak, data, n)
  {
    hide Block, Blocks, Next;
    var d, x := data, tweak;
    ghost var k := n;
    out := [];
    ghost var all := Blocks(k1.decrypt, tweak, data, n);
    assert [] + all == all;
    while |d| > 0
      invariant |x| == 16 && |d| == 16 * k
      invariant out + Blocks(k1.decrypt, x, d, k) == all
      decreases k
    {
      BlocksStep(k1.decrypt, x, d, k, out);
      var p := d[..16];
      d := d[16..];
      var c := EncryptBlock(k1, x, p);
      out := out + c;
      x := NextTweak(x);
      k := k - 1;
    }
    BlocksEnd(k1.decrypt, x, out);
  }

  lemma BlocksStep(cipher: seq<byte> -> seq<byte>, x: seq<byte>, d: seq<byte>, n: nat, out: seq<byte>)
    requires |x| == 16 && |d| == 16 * n && n > 0
    ensures out + Blocks(cipher, x, d, n) ==
            out + Block(cipher, x, d[..16]) + Blocks(cipher, Next(x), d[16..], n - 1)
  {
    hide Block, Next;
    var b, rest := Block(cipher, x, d[..16]), Blocks(cipher, Next(x), d[16..], n - 1);
    assert out + (b + rest) == out + b + rest;
  }

  lemma BlocksEnd(cipher: seq<byte> -> seq<byte>, x: seq<byte>, out: seq<byte>)
    requires |x| == 16
    ensures out + Blocks(cipher, x, [], 0) == out
  {
  }

  // ---- What the mode does ----

  lemma {:induction false} TweakShifts(x: seq<byte>, j: nat)
    requires |x| == 16
    ensures Tweak(Next(x), j) == Tweak(x, j + 1)
  {
    hide Next;
    if j > 0 {
      TweakShifts(x, j - 1);
    }
  }

  lemma BlockLength(k: Cipher, x: seq<byte>, p: seq<byte>)
    requires Undoes(k) && |x| == |p| == 16
    ensures |Block(k.decrypt, x, p)| == 16
  {
  }

  lemma {:induction false} BlocksLength(k: Cipher, x: seq<byte>, data: seq<byte>, n: nat)
    requires Undoes(k) && |x| == 16 && |data| == 16 * n
    ensures |Blocks(k.decrypt, x, data, n)| == |data|
    decreases n
  {
    hide Block, Next, Undoes;
    if n > 0 {
      BlockLength(k, x, data[..16]);
      BlocksLength(k, Next(x), data[16..], n - 1);
    }
  }

  /** The result is as long as the data, and its block `j` is masked with the tweak doubled `j` times. */
  lemma {:induction false} BlockByBlock(k: Cipher, x: seq<byte>, data: seq<byte>, n: nat, j: nat)
    requires Undoes(k) && |x| == 16 && |data| == 16 * n && j < n
    ensures |Blocks(k.decrypt, x, data, n)| == |data|
    ensures Blocks(k.decrypt, x, data, n)[16 * j..16 * j + 16] ==
            Block(k.decrypt, Tweak(x, j), data[16 * j..16 * j + 16])
    decreases n
  {
    hide Block, Next, Undoes;
    BlocksLength(k, x, data, n);
    BlockLength(k, x, data[..16]);
    var b, rest := Block(k.decrypt, x, data[..16]), Blocks(k.decrypt, Next(x), data[16..], n - 1);
    assert Blocks(k.decrypt, x, data, n) == b + rest;
    hide Blocks;
    if j == 0 {
      assert (b + rest)[..16] == b;
    } else {
      BlockByBlock(k, Next(x), data[16..], n - 1, j - 1);
      TweakShifts(x, j - 1);
      SliceAfter(b, rest, 16 * j);
      SliceAfter(data[..16], data[16..], 16 * j);
      assert data[..16] + data[16..] == data;
    }
  }

  lemma SliceAfter(b: seq<byte>, rest: seq<byte>, o: nat)
    requires |b| == 16 <= o && o + 16 <= 16 + |rest|
    ensures (b + rest)[o..o + 16] == rest[o - 16..o]
  {
  }

  /** The device, which runs the cipher forwards, gets the data back. */
  lemma {:induction false} Decrypts(k: Cipher, x: seq<byte>, data: seq<byte>, n: nat)
    requires Undoes(k) && |x| == 16 && |data| == 16 * n
    ensures |Blocks(k.decrypt, x, data, n)| == |data|
    ensures Blocks(k.encrypt, x, Blocks(k.decrypt, x, data, n), n) == data
    decreases n
  {
    hide Next, Block, Undoes;
    BlocksLength(k, x, data, n);
    if n > 0 {
      var p, rest := data[..16], Blocks(k.decrypt, Next(x), data[16..], n - 1);
      var b := Block(k.decrypt, x, p);
      BlockUndone(k, x, p);
      Decrypts(k, Next(x), data[16..], n - 1);
      assert (b + rest)[..16] == b && (b + rest)[16..] == rest;
      assert p + data[16..] == data;
    }
  }

  lemma BlockUndone(k: Cipher, x: seq<byte>, p: seq<byte>)
    requires Undoes(k) && |x| == |p| == 16
    ensures |Block(k.decrypt, x, p)| == 16
    ensures Block(k.encrypt, x, Block(k.decrypt, x, p)) == p
  {
    hide Bxor;
    var m := k.decrypt(Bxor(p, x));
    BxorTwice(m, x);
    BxorTwice(p, x);
  }

  // ---- The tweaks ----

  lemma TweakBelow(x: seq<byte>)
    requires |x| == 16
    ensures FromLE(x) < Pow2(128) && Double(128, FromLE(x)) < Pow2(128)
    ensures FromLE(Next(x)) == Double(128, FromLE(x))
  {
    hide FromLE, Pow256, Pow2, Double;
    Pow256IsPow2(16);
    assert FromLE(x) < Pow256(16);
    var low, top := TopCoefficient(128, FromLE(x));
    DoubleSplits(128, low, top);
    FromToLE(Double(128, FromLE(x)), 16);
  }

  /** Different tweaks stay different from block to block. */
  lemma {:induction false} TweaksStayApart(x: seq<byte>, y: seq<byte>, j: nat)
    requires |x| == |y| == 16 && Tweak(x, j) == Tweak(y, j)
    ensures x == y
  {
    hide Next, FromLE, Double, Pow2;
    if j > 0 {
      var a, b := Tweak(x, j - 1), Tweak(y, j - 1);
      TweakBelow(a);
      TweakBelow(b);
      DoubleInjective(128, FromLE(a), FromLE(b));
      ToFromLE(a);
      ToFromLE(b);
      TweaksStayApart(x, y, j - 1);
    }
  }
}
