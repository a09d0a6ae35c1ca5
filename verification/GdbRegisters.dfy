/**
 * Register access through the GDB remote protocol, from the client's call over the frames on the wire to
 * the server's register file and back.
 */
module GdbRegisters {
  import opened Bytes
  import opened Wrappers
  import opened GdbFrame

  // ---- Hexadecimal numbers ----

  function Hex(v: nat): (s: seq<byte>)
    ensures s != []
  {
    if v < 16 then [HexDigit(v)] else Hex(v / 16) + [HexDigit(v % 16)]
  }

  function Zeros(n: nat): (s: seq<byte>)
    ensures |s| == n
  {
    if n == 0 then [] else [0x30] + Zeros(n - 1)
  }

  /** At least eight digits. */
  function Hex8(v: nat): seq<byte> {
    var s := Hex(v);
    if |s| < 8 then Zeros(8 - |s|) + s else s
  }

  /** The number a string of digits denotes; None where the string is anything else. */
  function ParseHex(s: seq<byte>): Option<nat> {
    if s == [] then None else Digits(s)
  }

  function Digits(s: seq<byte>): (r: Option<nat>) {
    if s == [] then Some(0)
    else
      match (Digits(s[..|s| - 1]), DigitValue(s[|s| - 1]))
      case (Some(a), Some(d)) => Some(16 * a + d)
      case _ => None
  }

  predicate IsHex(s: seq<byte>) {
    forall i :: 0 <= i < |s| ==> 0x30 <= s[i] <= 0x39 || 0x61 <= s[i] <= 0x66
  }

  lemma {:induction false} HexReadsBack(v: nat)
    ensures Digits(Hex(v)) == Some(v) && IsHex(Hex(v))
  {
    hide Hex, Digits, IsHex, HexDigit, DigitValue;
    HexStep(v);
    HexDigitReads(v % 16);
    if v < 16 {
      OneDigit(HexDigit(v));
    } else {
      HexReadsBack(v / 16);
      DigitsSnoc(Hex(v / 16), HexDigit(v % 16));
      HexSnoc(Hex(v / 16), HexDigit(v % 16));
    }
  }

  lemma HexStep(v: nat)
    ensures Hex(v) == if v < 16 then [HexDigit(v)] else Hex(v / 16) + [HexDigit(v % 16)]
  {
  }

  lemma HexDigitReads(d: nat)
    requires d < 16
    ensures DigitValue(HexDigit(d)) == Some(d) && IsHex([HexDigit(d)])
  {
  }

  lemma OneDigit(b: byte)
    ensures Digits([b]) == DigitValue(b)
  {
    assert [b][..0] == [] && Digits([]) == Some(0);
  }

  lemma DigitsSnoc(s: seq<byte>, b: byte)
    requires Digits(s).Some? && DigitValue(b).Some?
    ensures Digits(s + [b]) == Some(16 * Digits(s).value + DigitValue(b).value)
  {
    hide Digits, DigitValue;
    var t := s + [b];
    DigitsStep(t, |s|);
    assert t[..|s|] == s;
  }

  lemma DigitsStep(t: seq<byte>, n: nat)
    requires |t| == n + 1 && Digits(t[..n]).Some? && DigitValue(t[n]).Some?
    ensures Digits(t) == Some(16 * Digits(t[..n]).value + DigitValue(t[n]).value)
  {
    hide DigitValue;
  }

  lemma HexSnoc(s: seq<byte>, b: byte)
    requires IsHex(s) && IsHex([b])
    ensures IsHex(s + [b])
  {
    assert [b][0] == b;
  }

  lemma {:induction false} LeadingZeros(n: nat, s: seq<byte>)
    ensures Digits(Zeros(n) + s) == Digits(s)
    decreases |s|, n
  {
    if s != [] {
      LeadingZeros(n, s[..|s| - 1]);
      assert (Zeros(n) + s)[..|Zeros(n) + s| - 1] == Zeros(n) + s[..|s| - 1];
    } else if n > 0 {
      LeadingZeros(n - 1, []);
      ZerosEnd(n);
      assert (Zeros(n) + [])[..n - 1] == Zeros(n - 1) + [];
    }
  }

  lemma {:induction false} ZerosEnd(n: nat)
    ensures n > 0 ==> Zeros(n)[..n - 1] == Zeros(n - 1)
    ensures forall i :: 0 <= i < n ==> Zeros(n)[i] == 0x30
  {
    if n > 1 {
      ZerosEnd(n - 1);
      assert Zeros(n)[..n - 1] == [0x30] + Zeros(n - 1)[..n - 2];
    }
  }

  function Pow16(n: nat): nat {
    if n == 0 then 1 else 16 * Pow16(n - 1)
  }

  lemma {:induction false} HexLength(v: nat, n: nat)
    requires n > 0 && v < Pow16(n)
    ensures |Hex(v)| <= n
  {
    if v >= 16 {
      assert Pow16(n) == 16 * Pow16(n - 1);
      assert n > 1;
      HexLength(v / 16, n - 1);
    }
  }

  lemma Hex8ReadsBack(v: nat)
    ensures ParseHex(Hex8(v)) == Some(v) && IsHex(Hex8(v))
  {
    HexReadsBack(v);
    hide Hex, Zeros;
    var n := |Hex(v)|;
    if n < 8 {
      LeadingZeros(8 - n, Hex(v));
      ZerosEnd(8 - n);
      hide Digits;
    }
  }

  lemma Hex8Length(v: nat)
    requires v < 0x1_0000_0000
    ensures |Hex8(v)| == 8
  {
    assert Pow16(8) == 0x1_0000_0000 by {
      assert Pow16(2) == 256 && Pow16(4) == 256 * Pow16(2) && Pow16(6) == 256 * Pow16(4) && Pow16(8) == 256 * Pow16(6);
    }
    HexLength(v, 8);
  }

  // ---- Byte order ----

  /** The pairs of digits in reverse order; an odd digit at the front stays by itself. */
  function Swapped(s: seq<byte>): (r: seq<byte>)
    ensures |r| == |s|
  {
    if |s| <= 2 then s else s[|s| - 2..] + Swapped(s[..|s| - 2])
  }

  method Swap(s: seq<byte>) returns (r: seq<byte>)
    ensures r == Swapped(s)
  {
    hide Swapped;
    var buf := s;
    r := [];
    assert [] + Swapped(s) == Swapped(s);
    while |buf| > 0
      invariant r + Swapped(buf) == Swapped(s)
      decreases |buf|
    {
      var k := if |buf| < 2 then 0 else |buf| - 2;
      SwappedStep(buf, k);
      assert r + (buf[k..] + Swapped(buf[..k])) == r + buf[k..] + Swapped(buf[..k]);
      r := r + buf[k..];
      buf := buf[..k];
    }
  }

  lemma SwappedStep(s: seq<byte>, k: nat)
    requires s != [] && k == if |s| < 2 then 0 else |s| - 2
    ensures Swapped(s) == s[k..] + Swapped(s[..k])
  {
    assert k == 0 ==> s[k..] + [] == s;
  }

  lemma {:induction false} SwappedAt(s: seq<byte>, i: nat)
    requires i < |s|
    ensures Swapped(s)[i] == s[Source(|s|, i)]
    decreases |s|
  {
    hide Swapped, Source;
    SourceShifts(|s|, i);
    if |s| <= 2 {
      SwappedShort(s);
    } else {
      SwappedStep(s, |s| - 2);
      if i >= 2 {
        SwappedAt(s[..|s| - 2], i - 2);
      }
    }
  }

  lemma SwappedShort(s: seq<byte>)
    requires |s| <= 2
    ensures Swapped(s) == s
  {
  }

  lemma SourceShifts(n: nat, i: nat)
    requires i < n
    ensures n > 2 ==> Source(n, i) == if i == 0 then n - 2 else if i == 1 then n - 1 else Source(n - 2, i - 2)
    ensures n <= 2 ==> Source(n, i) == i
  {
  }

  /** Where the i-th digit of a swapped string of length n comes from. */
  function Source(n: nat, i: nat): (j: nat)
    requires i < n
    ensures j < n
  {
    if i % 2 == 1 then n - i else if i == n - 1 then 0 else n - 2 - i
  }

  predicate Constant(s: seq<byte>) {
    forall i, j :: 0 <= i < |s| && 0 <= j < |s| ==> s[i] == s[j]
  }

  lemma SwappedTwiceAt(s: seq<byte>, i: nat)
    requires i < |s|
    ensures Swapped(Swapped(s))[i] == s[Source(|s|, Source(|s|, i))]
  {
    SwappedAt(Swapped(s), i);
    SwappedAt(s, Source(|s|, i));
  }

  /** Swapping twice gives the string back exactly when its length is even or all its digits are equal. */
  lemma SwapInvolution(s: seq<byte>)
    ensures Swapped(Swapped(s)) == s <==> |s| % 2 == 0 || Constant(s)
  {
    hide Swapped;
    var u, n := Swapped(Swapped(s)), |s|;
    forall i | 0 <= i < n ensures u[i] == s[Source(n, Source(n, i))] {
      SwappedTwiceAt(s, i);
    }
    if u == s {
      if n % 2 == 1 {
        OneCycle(s);
      }
    } else {
      var i :| 0 <= i < n && u[i] != s[i];
      assert Source(n, Source(n, i)) != i;
    }
  }

  lemma OneCycle(s: seq<byte>)
    requires |s| % 2 == 1
    requires forall i | 0 <= i < |s| :: s[i] == s[Source(|s|, Source(|s|, i))]
    ensures Constant(s)
  {
    hide Source;
    var n := |s|;
    var i := 0;
    while i + 2 < n
      invariant 0 <= i < n && i % 2 == 0
      invariant forall j | 0 <= j <= i && j % 2 == 0 :: s[j] == s[0]
    {
      SourceTwice(n, i);
      i := i + 2;
    }
    var k := 1;
    while k < n
      invariant 1 <= k <= n && k % 2 == 1
      invariant forall j | 0 <= j < k && j % 2 == 1 :: s[j] == s[0]
    {
      SourceTwice(n, k);
      k := k + 2;
    }
  }

  /** In a string of odd length two swaps move the even places up and the odd places down. */
  lemma SourceTwice(n: nat, i: nat)
    requires n % 2 == 1 && i < n
    ensures i % 2 == 0 && i + 2 < n ==> Source(n, Source(n, i)) == i + 2
    ensures i % 2 == 1 ==> Source(n, Source(n, i)) == if i == 1 then 0 else i - 2
  {
  }

  lemma OddSwapExample()
    ensures Swapped(Swapped([0x31, 0x32, 0x33])) == [0x33, 0x31, 0x32]
  {
    assert Swapped([0x31, 0x32, 0x33]) == [0x32, 0x33] + [0x31];
  }

  // ---- The register file ----

  datatype Register = Register(bitsize: nat, value: nat)

  type RegisterFile = map<nat, Register>

  function BitSize(regnum: nat): nat {
    if regnum == 19 || regnum == 21 then 1 else if regnum == 20 then 8 else if regnum == 22 then 2 else 32
  }

  function Initial(): RegisterFile {
    map i: nat | i < 23 :: Register(BitSize(i), 0)
  }

  /** Every register holds a value of its size, and none is larger than a word. */
  predicate Sized(regs: RegisterFile) {
    forall r :: r in regs ==> regs[r].bitsize <= 32 && regs[r].value < Pow2(regs[r].bitsize)
  }

  function ReadRegister(regs: RegisterFile, regnum: nat): nat {
    if regnum in regs then regs[regnum].value else 0
  }

  function WriteRegister(regs: RegisterFile, regnum: nat, value: nat): RegisterFile {
    if regnum in regs then
      regs[regnum := regs[regnum].(value := value % Pow2(regs[regnum].bitsize))]
    else regs
  }

  lemma WordSized(regs: RegisterFile, regnum: nat)
    requires Sized(regs)
    ensures ReadRegister(regs, regnum) < 0x1_0000_0000
  {
    hide Pow2;
    PowersOfTwo();
    if regnum in regs {
      Pow2Grows(regs[regnum].bitsize, 32);
    }
  }

  // ---- The server's packets ----

  const LOWER_P: byte := 0x70
  const UPPER_P: byte := 0x50
  const EQUALS: byte := 0x3d
  const OK: seq<byte> := [0x4f, 0x4b]
  const E01: seq<byte> := [0x45, 0x30, 0x31]

  predicate Separator(b: byte) {
    b == 0x3a || b == 0x2c || b == EQUALS
  }

  /** The arguments between the separators. */
  function Split(s: seq<byte>): (r: seq<seq<byte>>)
    ensures r != []
  {
    if s == [] then [[]]
    else
      var rest := Split(s[1..]);
      if Separator(s[0]) then [[]] + rest else [[s[0]] + rest[0]] + rest[1..]
  }

  lemma {:induction false} SplitPlain(a: seq<byte>, s: seq<byte>)
    requires IsHex(a)
    ensures Split(a + s) == [a + Split(s)[0]] + Split(s)[1..]
  {
    hide Split;
    if a == [] {
      assert a + s == s && a + Split(s)[0] == Split(s)[0];
    } else {
      SplitPlain(a[1..], s);
      SplitStep(a + s);
      assert (a + s)[1..] == a[1..] + s;
      assert [a[0]] + (a[1..] + Split(s)[0]) == a + Split(s)[0];
    }
  }

  lemma SplitStep(s: seq<byte>)
    requires s != [] && !Separator(s[0])
    ensures Split(s) == [[s[0]] + Split(s[1..])[0]] + Split(s[1..])[1..]
  {
  }

  lemma SplitTwo(a: seq<byte>, b: seq<byte>)
    requires IsHex(a) && IsHex(b)
    ensures Split(a) == [a] && Split(a + [EQUALS] + b) == [a, b]
  {
    SplitPlain(a, []);
    SplitPlain(b, []);
    assert a + [] == a && b + [] == b;
    var s := [EQUALS] + b;
    assert s[1..] == b && Split(s) == [[]] + [b];
    SplitPlain(a, s);
    assert a + s == a + [EQUALS] + b;
  }

  /** What the server does with a packet: answer, end the session, fail, or leave it to another handler. */
  datatype Outcome = Answer(rsp: seq<byte>) | Ends | Fails | Other

  function Process(regs: RegisterFile, pkt: seq<byte>): (Outcome, RegisterFile) {
    if pkt == [] || pkt[0] == 0x6b then (Ends, regs)
    else if pkt[0] == LOWER_P then
      match ParseHex(Split(pkt[1..])[0])
      case None => (Fails, regs)
      case Some(r) => (Answer(Swapped(Hex8(ReadRegister(regs, r)))), regs)
    else if pkt[0] == UPPER_P then
      var args := Split(pkt[1..]);
      if |args| < 2 then (Fails, regs)
      else
        match (ParseHex(args[0]), ParseHex(Swapped(args[1])))
        case (Some(r), Some(v)) => (Answer(if r in regs then OK else E01), WriteRegister(regs, r, v))
        case _ => (Fails, regs)
    else (Other, regs)
  }

  function ReadCommand(regnum: nat): seq<byte> {
    [LOWER_P] + Hex(regnum)
  }

  function WriteCommand(regnum: nat, value: nat): seq<byte> {
    [UPPER_P] + Hex(regnum) + [EQUALS] + Swapped(Hex8(value))
  }

  /** The octets of the commands. */
  lemma CommandOctets(regnum: nat, value: nat)
    ensures ReadCommand(regnum) == [0x70] + Hex(regnum)
    ensures WriteCommand(regnum, value) == [0x50] + Hex(regnum) + [0x3d] + Swapped(Hex8(value))
  {
    hide Hex, Hex8, Swapped;
  }

  /** Which packets end the session, and which are left to the other handlers. */
  lemma FirstOctets(regs: RegisterFile, pkt: seq<byte>)
    ensures Process(regs, pkt).0.Ends? <==> pkt == [] || pkt[0] == 0x6b
    ensures Process(regs, pkt).0.Other? <==> pkt != [] && pkt[0] != 0x6b && pkt[0] != 0x70 && pkt[0] != 0x50
    ensures pkt == [] || pkt[0] != 0x50 ==> Process(regs, pkt).1 == regs
  {
    hide Split, ParseHex, Swapped, Hex8, WriteRegister, ReadRegister;
  }

  /** Numbers are written without leading zeros, or with as many as make eight digits. */
  lemma {:induction false} HexIsShort(v: nat)
    ensures v > 0 ==> Hex(v)[0] != 0x30
    ensures |Hex(v)| >= 8 ==> Hex8(v) == Hex(v)
    ensures |Hex(v)| < 8 ==> |Hex8(v)| == 8
  {
    if v >= 16 {
      HexIsShort(v / 16);
    }
  }

  /** Arguments are separated by colons, commas and equals signs. */
  lemma Separators(a: seq<byte>, x: byte, s: seq<byte>)
    requires IsHex(a)
    ensures x == 0x3a || x == 0x2c || x == 0x3d ==> Split(a + [x] + s) == [a] + Split(s)
    ensures x != 0x3a && x != 0x2c && x != 0x3d ==> Split([x] + s) == [[x] + Split(s)[0]] + Split(s)[1..]
  {
    var t := [x] + s;
    assert t[1..] == s;
    SplitPlain(a, t);
    assert a + t == a + [x] + s && a + [] == a;
  }

  /** The register file: 23 registers, of which four are smaller than a word. */
  lemma RegisterSizes(regnum: nat, value: nat)
    ensures ReadRegister(WriteRegister(Initial(), regnum, value), regnum) ==
            if regnum >= 23 then 0
            else value % if regnum == 19 || regnum == 21 then 2 else if regnum == 20 then 256
                         else if regnum == 22 then 4 else 0x1_0000_0000
    ensures Sized(Initial()) && ReadRegister(Initial(), regnum) == 0
  {
    PowersOfTwo();
    assert Pow2(1) == 2 && Pow2(2) == 4;
    hide Pow2;
  }

  /** The server's two answers to a write. */
  lemma WriteAnswers(regs: RegisterFile, regnum: nat, value: nat)
    ensures Process(regs, WriteCommand(regnum, value)).0 ==
            Answer(if regnum in regs then [0x4f, 0x4b] else [0x45, 0x30, 0x31])
  {
    hide Process;
    ServerWrites(regs, regnum, value);
  }

  lemma {:induction false} SwappedIsHex(s: seq<byte>)
    requires IsHex(s)
    ensures IsHex(Swapped(s))
  {
    if |s| > 2 {
      SwappedIsHex(s[..|s| - 2]);
    }
  }

  lemma ServerReads(regs: RegisterFile, regnum: nat)
    ensures Process(regs, ReadCommand(regnum)) == (Answer(Swapped(Hex8(ReadRegister(regs, regnum)))), regs)
  {
    HexReadsBack(regnum);
    SplitTwo(Hex(regnum), []);
    hide Hex, Digits, Split;
    assert ReadCommand(regnum)[1..] == Hex(regnum);
  }

  /** The number the server reads when `value` is written: its digits swapped at both ends. */
  function Arrives(value: nat): nat {
    match ParseHex(Swapped(Swapped(Hex8(value))))
    case Some(v) => v
    case None => 0
  }

  lemma ArrivesDigits(value: nat)
    ensures ParseHex(Swapped(Swapped(Hex8(value)))) == Some(Arrives(value))
    ensures IsHex(Swapped(Hex8(value)))
  {
    Hex8ReadsBack(value);
    SwappedIsHex(Hex8(value));
    SwappedIsHex(Swapped(Hex8(value)));
    hide Hex8, Swapped;
    DigitsDefined(Swapped(Swapped(Hex8(value))));
    hide Digits;
  }

  lemma {:induction false} DigitsDefined(s: seq<byte>)
    requires IsHex(s)
    ensures Digits(s).Some?
  {
    if s != [] {
      DigitsDefined(s[..|s| - 1]);
    }
  }

  lemma {:induction false} DigitsInjective(s: seq<byte>, t: seq<byte>)
    requires IsHex(s) && IsHex(t) && |s| == |t| && Digits(s) == Digits(t)
    ensures s == t
  {
    if s != [] {
      hide Digits, DigitValue, IsHex;
      var n := |s| - 1;
      var a := LastDigit(s);
      var b := LastDigit(t);
      Base16(Digits(s[..n]).value, a, Digits(t[..n]).value, b);
      DigitInjective(s[n], t[n]);
      DigitsInjective(s[..n], t[..n]);
      assert s == s[..n] + [s[n]] && t == t[..n] + [t[n]];
    }
  }

  lemma Base16(p: nat, a: nat, q: nat, b: nat)
    requires 16 * p + a == 16 * q + b && a < 16 && b < 16
    ensures p == q && a == b
  {
  }

  lemma LastDigit(s: seq<byte>) returns (d: nat)
    requires IsHex(s) && s != []
    ensures var n := |s| - 1;
            && IsHex(s[..n]) && (0x30 <= s[n] <= 0x39 || 0x61 <= s[n] <= 0x66)
            && d < 16 && DigitValue(s[n]) == Some(d) && Digits(s[..n]).Some?
            && Digits(s) == Some(16 * Digits(s[..n]).value + d)
  {
    DigitsDefined(s[..|s| - 1]);
    d := DigitValue(s[|s| - 1]).value;
  }

  lemma DigitInjective(x: byte, y: byte)
    requires 0x30 <= x <= 0x39 || 0x61 <= x <= 0x66
    requires 0x30 <= y <= 0x39 || 0x61 <= y <= 0x66
    requires DigitValue(x) == DigitValue(y)
    ensures x == y
  {
  }

  /**
   * The server receives the value exactly when it has an even number of digits, as all 32-bit values do,
   * or all its digits are equal.
   */
  lemma ArrivesIff(value: nat)
    ensures Arrives(value) == value <==> |Hex8(value)| % 2 == 0 || Constant(Hex8(value))
    ensures value < 0x1_0000_0000 ==> Arrives(value) == value
  {
    var s := Hex8(value);
    var u := Swapped(Swapped(s));
    Hex8ReadsBack(value);
    SwapInvolution(s);
    SwappedIsHex(s);
    SwappedIsHex(Swapped(s));
    ArrivesDigits(value);
    if value < 0x1_0000_0000 {
      Hex8Length(value);
    }
    hide Hex8, Swapped, Arrives, Constant;
    if Arrives(value) == value {
      assert Digits(u) == Digits(s);
      DigitsInjective(u, s);
    }
  }

  lemma {:induction false} PowerDigits(k: nat)
    ensures Hex(Pow16(k)) == [0x31] + Zeros(k)
  {
    if k > 0 {
      PowerDigits(k - 1);
      ZerosEnd(k);
      assert Pow16(k) == 16 * Pow16(k - 1);
      hide Pow16, Zeros;
      assert Hex(Pow16(k)) == Hex(Pow16(k - 1)) + [0x30];
    }
  }

  /** No even power of 16 from 2^32 on arrives: the one at its front and the zeros after it are odd in number. */
  lemma OddDigitsExample(k: nat)
    requires k >= 8 && k % 2 == 0
    ensures Arrives(Pow16(k)) != Pow16(k)
  {
    PowerDigits(k);
    hide Hex, Arrives, Pow16;
    var s := Hex8(Pow16(k));
    assert s == [0x31] + Zeros(k) && s[0] != s[1];
    ArrivesIff(Pow16(k));
  }

  lemma ServerWrites(regs: RegisterFile, regnum: nat, value: nat)
    ensures Process(regs, WriteCommand(regnum, value)) ==
            (Answer(if regnum in regs then OK else E01), WriteRegister(regs, regnum, Arrives(value)))
  {
    hide Hex, Hex8, Digits, Split, Swapped, Process, Arrives, IsHex;
    HexReadsBack(regnum);
    assert ParseHex(Hex(regnum)) == Some(regnum);
    hide ParseHex;
    ArrivesDigits(value);
    SplitTwo(Hex(regnum), Swapped(Hex8(value)));
    assert WriteCommand(regnum, value)[1..] == Hex(regnum) + [EQUALS] + Swapped(Hex8(value));
    ProcessWrite(regs, WriteCommand(regnum, value), regnum, Arrives(value));
  }

  lemma ProcessWrite(regs: RegisterFile, pkt: seq<byte>, regnum: nat, value: nat)
    requires |pkt| > 0 && pkt[0] == UPPER_P
    requires var args := Split(pkt[1..]);
             |args| == 2 && ParseHex(args[0]) == Some(regnum) && ParseHex(Swapped(args[1])) == Some(value)
    ensures Process(regs, pkt) ==
            (Answer(if regnum in regs then OK else E01), WriteRegister(regs, regnum, value))
  {
    hide ParseHex, Split, Swapped;
  }
}
