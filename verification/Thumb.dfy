/**
 * A Cortex-M3 seen through the Thumb instructions that the bank 3 trampoline uses
 * (encodings as in chapter A7.7 of the ARMv7-M Architecture Reference Manual), and
 * the trampoline's copy routine. Memory is flat and byte addressed; registers are 32
 * bits wide.
 */
module Thumb {
  import opened Bytes

  type Mem = int -> byte

  const WORD := 0x1_0000_0000

  function Store(m: Mem, a: int, data: seq<byte>): Mem {
    x => if a <= x < a + |data| then data[x - a] else m(x)
  }

  function Fetch(m: Mem, a: int, n: nat): (s: seq<byte>)
    ensures |s| == n
    ensures forall i :: 0 <= i < n ==> s[i] == m(a + i)
  {
    seq(n, i requires 0 <= i => m(a + i))
  }

  function Half(m: Mem, a: int): int {
    m(a) as int + 256 * (m(a + 1) as int)
  }

  function Word(m: Mem, a: int): (w: nat)
    ensures w < WORD
  {
    FromLE4(Fetch(m, a, 4));
    FromLE(Fetch(m, a, 4))
  }

  /** A modified immediate: its top bit, the next three, and the low eight (section A5.3.2 of the manual). */
  datatype Modified = Modified(i: int, imm3: int, imm8: int) {
    /** The constant it stands for. */
    function Value(): int {
      if i == 0 && imm3 == 0 then imm8
      else if i == 0 && imm3 == 1 then 0x10001 * imm8
      else if i == 0 && imm3 == 2 then 0x1000100 * imm8
      else if i == 0 && imm3 == 3 then 0x1010101 * imm8
      else
        var rotation := 16 * i + 2 * imm3 + imm8 / 128;
        (128 + imm8 % 128) * (if 8 <= rotation <= 32 then Pow2(32 - rotation) else 0)
    }
  }

  /** Four patterns of one octet, as section A5.3.2 lists them. */
  lemma OctetPatterns(b: byte)
    ensures Modified(0, 0, b).Value() == FromLE([b, 0, 0, 0])
    ensures Modified(0, 1, b).Value() == FromLE([b, 0, b, 0])
    ensures Modified(0, 2, b).Value() == FromLE([0, b, 0, b])
    ensures Modified(0, 3, b).Value() == FromLE([b, b, b, b])
  {
    FromLE4([b, 0, 0, 0]);
    FromLE4([b, 0, b, 0]);
    FromLE4([0, b, 0, b]);
    FromLE4([b, b, b, b]);
    hide FromLE;
  }

  /** The other constants are octets with the top bit set, rotated to the right by 8 to 31 places. */
  lemma Rotations(m: Modified, r: nat)
    requires 0 <= m.imm8 < 256 && ((m.i == 1 && 0 <= m.imm3 < 8) || (m.i == 0 && 4 <= m.imm3 < 8))
    requires r == 16 * m.i + 2 * m.imm3 + m.imm8 / 128
    ensures 8 <= r <= 31 && m.Value() * Pow2(r) == (128 + m.imm8 % 128) * Pow2(32)
  {
    hide Pow2;
    assert 8 <= r <= 31;
    Pow2Adds(32 - r, r);
    Scaled(128 + m.imm8 % 128, Pow2(32 - r), Pow2(r), Pow2(32));
  }

  lemma Scaled(a: int, b: int, c: int, d: int)
    requires b * c == d
    ensures (a * b) * c == a * d
  {
    assert (a * b) * c == a * (b * c);
  }

  lemma {:induction false} Pow2Adds(a: nat, b: nat)
    ensures Pow2(a) * Pow2(b) == Pow2(a + b)
  {
    if a > 0 {
      assert Pow2(a) == 2 * Pow2(a - 1) && Pow2(a + b) == 2 * Pow2(a - 1 + b);
      Pow2Adds(a - 1, b);
      hide Pow2;
      Scaled(2, Pow2(a - 1), Pow2(b), Pow2(a - 1 + b));
    }
  }

  datatype Instr =
    | LdrLiteral(rt: int, imm: int, size: int)   // LDR (literal), encodings T1 and T2
    | CmpReg(rn: int, rm: int)                   // CMP (register), T1
    | BranchEq(offset: int)                      // B, T1 with condition EQ
    | Branch(offset: int)                        // B, T2
    | LdrPost(rt: int, rn: int, imm: int)        // LDR (immediate), T4, post-indexed
    | StrPost(rt: int, rn: int, imm: int)        // STR (immediate), T4, post-indexed
    | StrImm(rt: int, rn: int, imm: int, size: int)  // STR (immediate), T1 and T3
    | LdrbImm(rt: int, rn: int, imm: int)        // LDRB (immediate), T2
    | StrbImm(rt: int, rn: int, imm: int)        // STRB (immediate), T2
    | MovImm(rd: int, m: Modified)               // MOV (immediate), T2
    | BicsImm(rd: int, rn: int, m: Modified)     // BICS (immediate), T1
    | OrrsImm(rd: int, rn: int, m: Modified)     // ORRS (immediate), T1
    | Nop
    | Undefined

  function SignExtend(v: int, bits: int): int {
    if v < bits / 2 then v else v - bits
  }

  /** The instructions of one halfword. */
  function Narrow(h: int): Instr {
    if h / 2048 == 0x9 then LdrLiteral(h / 256 % 8, 4 * (h % 256), 2)
    else if h / 64 == 0x10a then CmpReg(h % 8, h / 8 % 8)
    else if h / 256 == 0xd0 then BranchEq(2 * SignExtend(h % 256, 256))
    else if h / 2048 == 0x1c then Branch(2 * SignExtend(h % 2048, 2048))
    else if h / 2048 == 0xc then StrImm(h % 8, h / 8 % 8, 4 * (h / 64 % 32), 2)
    else if h == 0xbf00 then Nop
    else Undefined
  }

  /** The loads and stores of two halfwords. */
  function Transfer(h: int, g: int): Instr {
    if h == 0xf8df then LdrLiteral(g / 4096, g % 4096, 4)
    else if h % 16 == 15 then Undefined
    else
      match h / 16
      case 0xf85 => if g / 256 % 16 == 0xb then LdrPost(g / 4096, h % 16, g % 256) else Undefined
      case 0xf84 => if g / 256 % 16 == 0xb then StrPost(g / 4096, h % 16, g % 256) else Undefined
      case 0xf8c => StrImm(g / 4096, h % 16, g % 4096, 4)
      case 0xf89 => if g / 4096 != 15 then LdrbImm(g / 4096, h % 16, g % 4096) else Undefined
      case 0xf88 => StrbImm(g / 4096, h % 16, g % 4096)
      case _ => Undefined
  }

  /** The operations of two halfwords on a modified immediate. */
  function Immediate(h: int, g: int): Instr {
    var rd, m := g / 256 % 16, Modified(h / 1024 % 2, g / 4096, g % 256);
    if h == 0xf04f || h == 0xf44f then MovImm(rd, m)
    else if h / 16 == 0xf03 || h / 16 == 0xf43 then BicsImm(rd, h % 16, m)
    else if (h / 16 == 0xf05 || h / 16 == 0xf45) && h % 16 != 15 then OrrsImm(rd, h % 16, m)
    else Undefined
  }

  /** `h` is the halfword at the program counter and `g` the one after it. */
  function Decode(h: int, g: int): Instr {
    if h / 2048 < 0x1d then Narrow(h)
    else if h / 256 == 0xf8 then Transfer(h, g)
    else if g < 0x8000 then Immediate(h, g)
    else Undefined
  }

  // The encodings of the manual, for all operands: one halfword, loads and stores, modified immediates.

  lemma LiteralEncoding(r: int, imm: int, g: int)
    requires 0 <= r < 8 && 0 <= imm < 256
    ensures Decode(0x4800 + 256 * r + imm, g) == LdrLiteral(r, 4 * imm, 2)
  {
    var h := 0x4800 + 256 * r + imm;
    assert h / 2048 == 9 && h / 256 == 72 + r;
  }

  lemma CompareEncoding(r: int, s: int, g: int)
    requires 0 <= r < 8 && 0 <= s < 8
    ensures Decode(0x4280 + 8 * s + r, g) == CmpReg(r, s) && Decode(0xbf00, g) == Nop
  {
    var h := 0x4280 + 8 * s + r;
    assert h / 64 == 0x10a && h / 8 == 0x850 + s && h / 2048 == 8;
  }

  lemma StoreEncoding(r: int, s: int, imm: int, g: int)
    requires 0 <= r < 8 && 0 <= s < 8 && 0 <= imm < 32
    ensures Decode(0x6000 + 64 * imm + 8 * s + r, g) == StrImm(r, s, 4 * imm, 2)
  {
    var h := 0x6000 + 64 * imm + 8 * s + r;
    assert h / 64 == 0x180 + imm && h / 8 == 0xc00 + 8 * imm + s && h / 2048 == 12 && h / 256 == 96 + imm / 4;
  }

  lemma ConditionalEncoding(offset: int, g: int)
    requires -128 <= offset < 128
    ensures Decode(0xd000 + (if offset < 0 then offset + 256 else offset), g) == BranchEq(2 * offset)
  {
    var q := if offset < 0 then offset + 256 else offset;
    var h := 0xd000 + q;
    assert h / 2048 == 26 && h / 64 != 0x10a && h / 256 == 0xd0 && h % 256 == q;
  }

  lemma BranchEncoding(offset: int, g: int)
    requires -1024 <= offset < 1024
    ensures Decode(0xe000 + (if offset < 0 then offset + 2048 else offset), g) == Branch(2 * offset)
  {
    var q := if offset < 0 then offset + 2048 else offset;
    var h := 0xe000 + q;
    assert h / 2048 == 28 && h / 64 >= 896 && h / 256 >= 224 && h % 2048 == q;
  }

  lemma TransferEncodings(rt: int, rn: int, imm: int)
    requires 0 <= rt < 16 && 0 <= rn < 15 && 0 <= imm < 4096
    ensures Decode(0xf8df, 4096 * rt + imm) == LdrLiteral(rt, imm, 4)
    ensures Decode(0xf8c0 + rn, 4096 * rt + imm) == StrImm(rt, rn, imm, 4)
    ensures rt < 15 ==> Decode(0xf890 + rn, 4096 * rt + imm) == LdrbImm(rt, rn, imm)
    ensures Decode(0xf880 + rn, 4096 * rt + imm) == StrbImm(rt, rn, imm)
  {
    var g := 4096 * rt + imm;
    assert g / 4096 == rt && g % 4096 == imm;
    TransferForm(0xf8d, 15, g);
    TransferForm(0xf8c, rn, g);
    TransferForm(0xf89, rn, g);
    TransferForm(0xf88, rn, g);
    hide Decode;
  }

  lemma PostIndexEncodings(rt: int, rn: int, imm: int)
    requires 0 <= rt < 16 && 0 <= rn < 15 && 0 <= imm < 256
    ensures Decode(0xf850 + rn, 4096 * rt + 0xb00 + imm) == LdrPost(rt, rn, imm)
    ensures Decode(0xf840 + rn, 4096 * rt + 0xb00 + imm) == StrPost(rt, rn, imm)
  {
    var g := 4096 * rt + 0xb00 + imm;
    assert g / 4096 == rt && g / 256 == 16 * rt + 0xb && g % 256 == imm;
    TransferForm(0xf85, rn, g);
    TransferForm(0xf84, rn, g);
    hide Decode;
  }

  lemma TransferForm(op: int, rn: int, g: int)
    requires 0xf80 <= op < 0xf90 && 0 <= rn < 16
    ensures Decode(16 * op + rn, g) == Transfer(16 * op + rn, g) && (16 * op + rn) / 16 == op && (16 * op + rn) % 16 == rn
  {
    var h := 16 * op + rn;
    assert h / 2048 == 31 && h / 256 == 0xf8;
    hide Transfer;
  }

  lemma ImmediateEncodings(rd: int, rn: int, i: int, imm3: int, imm8: int)
    requires 0 <= rd < 16 && 0 <= rn < 15 && 0 <= i < 2 && 0 <= imm3 < 8 && 0 <= imm8 < 256
    ensures var g, m := 4096 * imm3 + 256 * rd + imm8, Modified(i, imm3, imm8);
            && Decode(0xf04f + 1024 * i, g) == MovImm(rd, m)
            && Decode(0xf030 + 1024 * i + rn, g) == BicsImm(rd, rn, m)
            && Decode(0xf050 + 1024 * i + rn, g) == OrrsImm(rd, rn, m)
  {
    var g := 4096 * imm3 + 256 * rd + imm8;
    ImmediateFields(rd, imm3, imm8, g);
    ImmediateForm(0xf04f + 1024 * i, g);
    ImmediateForm(0xf030 + 1024 * i + rn, g);
    ImmediateForm(0xf050 + 1024 * i + rn, g);
    hide Decode;
    if i == 0 {
      assert (0xf030 + rn) / 16 == 0xf03 && (0xf050 + rn) / 16 == 0xf05;
    } else {
      assert (0xf430 + rn) / 16 == 0xf43 && (0xf450 + rn) / 16 == 0xf45;
    }
  }

  lemma ImmediateFields(rd: int, imm3: int, imm8: int, g: int)
    requires 0 <= rd < 16 && 0 <= imm3 < 8 && 0 <= imm8 < 256 && g == 4096 * imm3 + 256 * rd + imm8
    ensures g < 0x8000 && g / 4096 == imm3 && g / 256 % 16 == rd && g % 256 == imm8
  {
  }

  lemma ImmediateForm(h: int, g: int)
    requires 0xf000 <= h < 0xf800 && g < 0x8000
    ensures Decode(h, g) == Immediate(h, g)
  {
  }

  function InstrAt(m: Mem, a: int): Instr {
    Decode(Half(m, a), Half(m, a + 2))
  }

  datatype Cpu = Cpu(reg: int -> int, z: bool, thumb: bool, pc: int, mem: Mem)

  datatype Outcome = Running(cpu: Cpu) | Fault

  function SetReg(r: int -> int, n: int, v: int): int -> int {
    x => if x == n then v else r(x)
  }

  /** A load of `v` into register `rt`; register 15 is a branch that selects the instruction set by bit 0. */
  function AfterLoad(c: Cpu, rt: int, v: int, next: int): Cpu {
    if rt == 15 then c.(pc := v - v % 2, thumb := v % 2 == 1)
    else c.(reg := SetReg(c.reg, rt, v), pc := next)
  }

  /** The bits of `x` that are not in `y`. */
  function AndNot(x: nat, y: nat): nat {
    if x == 0 then 0 else (if x % 2 == 1 && y % 2 == 0 then 1 else 0) + 2 * AndNot(x / 2, y / 2)
  }

  /** The bits of `x` and those of `y`. */
  function Or(x: nat, y: nat): nat
    decreases x + y
  {
    if x == 0 && y == 0 then 0 else (if x % 2 == 1 || y % 2 == 1 then 1 else 0) + 2 * Or(x / 2, y / 2)
  }

  /** What an instruction does. */
  function Perform(c: Cpu, instr: Instr): Outcome {
    match instr
    case LdrLiteral(rt, imm, size) =>
      Running(AfterLoad(c, rt, Word(c.mem, (c.pc + 4) / 4 * 4 + imm), c.pc + size))
    case CmpReg(rn, rm) =>
      Running(c.(z := c.reg(rn) == c.reg(rm), pc := c.pc + 2))
    case BranchEq(offset) =>
      Running(c.(pc := if c.z then c.pc + 4 + offset else c.pc + 2))
    case Branch(offset) =>
      Running(c.(pc := c.pc + 4 + offset))
    case LdrPost(rt, rn, imm) =>
      var bumped := SetReg(c.reg, rn, (c.reg(rn) + imm) % WORD);
      Running(AfterLoad(c.(reg := bumped), rt, Word(c.mem, c.reg(rn)), c.pc + 4))
    case StrPost(rt, rn, imm) =>
      var word: nat := c.reg(rt) % WORD;
      Running(c.(mem := Store(c.mem, c.reg(rn), ToLE(word, 4)),
                 reg := SetReg(c.reg, rn, (c.reg(rn) + imm) % WORD),
                 pc := c.pc + 4))
    case StrImm(rt, rn, imm, size) =>
      var word: nat := c.reg(rt) % WORD;
      Running(c.(mem := Store(c.mem, (c.reg(rn) + imm) % WORD, ToLE(word, 4)), pc := c.pc + size))
    case LdrbImm(rt, rn, imm) =>
      Running(c.(reg := SetReg(c.reg, rt, c.mem((c.reg(rn) + imm) % WORD)), pc := c.pc + 4))
    case StrbImm(rt, rn, imm) =>
      Running(c.(mem := Store(c.mem, (c.reg(rn) + imm) % WORD, [c.reg(rt) % 256]), pc := c.pc + 4))
    case MovImm(rd, m) =>
      Running(c.(reg := SetReg(c.reg, rd, m.Value()), pc := c.pc + 4))
    case BicsImm(rd, rn, m) =>
      var v := AndNot(c.reg(rn) % WORD, m.Value() % WORD);
      Running(c.(reg := SetReg(c.reg, rd, v), z := v == 0, pc := c.pc + 4))
    case OrrsImm(rd, rn, m) =>
      var v := Or(c.reg(rn) % WORD, m.Value() % WORD);
      Running(c.(reg := SetReg(c.reg, rd, v), z := v == 0, pc := c.pc + 4))
    case Nop => Running(c.(pc := c.pc + 2))
    case Undefined => Fault
  }

  function Step(c: Cpu): Outcome {
    if c.thumb then Perform(c, InstrAt(c.mem, c.pc)) else Fault
  }

  function Run(c: Cpu, n: nat): Outcome
    decreases n
  {
    if n == 0 then Running(c)
    else match Step(c)
      case Running(d) => Run(d, n - 1)
      case Fault => Fault
  }

  /** The copy routine at the start of the trampoline; a table of six words follows it. */
  const COPY_CODE: seq<byte> := [
    0x06, 0x48,              // 00  ldr r0, [pc, #24]   source
    0x07, 0x49,              // 02  ldr r1, [pc, #28]   end of source
    0x07, 0x4a,              // 04  ldr r2, [pc, #28]   destination
    0x88, 0x42,              // 06  cmp r0, r1
    0x04, 0xd0,              // 08  beq 14
    0x50, 0xf8, 0x04, 0x3b,  // 0a  ldr r3, [r0], #4
    0x42, 0xf8, 0x04, 0x3b,  // 0e  str r3, [r2], #4
    0xf8, 0xe7,              // 12  b 06
    0x05, 0x48,              // 14  ldr r0, [pc, #20]   argc
    0x06, 0x49,              // 16  ldr r1, [pc, #24]   argv
    0xdf, 0xf8, 0x0c, 0xf0   // 18  ldr pc, [pc, #12]   entry
  ]

  const TABLE := 0x1c
  const CODE_AND_TABLE := 0x34

  ghost predicate CodeAt(m: Mem, base: int) {
    forall i :: 0 <= i < |COPY_CODE| ==> m(base + i) == COPY_CODE[i]
  }

  /** What the copy routine needs of its table and surroundings to move `k` words. */
  ghost predicate CopyReady(m: Mem, base: int, k: nat) {
    var src, dst := Word(m, base + TABLE), Word(m, base + TABLE + 8);
    && CodeAt(m, base) && base % 4 == 0
    && Word(m, base + TABLE + 4) == src + 4 * k
    && dst + 4 * k < WORD
    && (dst + 4 * k <= src || src + 4 * k <= dst)
    && (dst + 4 * k <= base || base + CODE_AND_TABLE <= dst)
  }

  /** `d` is `m` with `n` octets moved from `src` to `dst` and nothing else changed. */
  ghost predicate IsCopy(d: Mem, m: Mem, src: int, dst: int, n: int) {
    forall x {:trigger d(x)} :: d(x) == if dst <= x < dst + n then m(src + x - dst) else m(x)
  }

  /** The disassembly of the routine, by offset. */
  function Listing(i: int): Instr {
    match i
    case 0x00 => LdrLiteral(0, 24, 2)
    case 0x02 => LdrLiteral(1, 28, 2)
    case 0x04 => LdrLiteral(2, 28, 2)
    case 0x06 => CmpReg(0, 1)
    case 0x08 => BranchEq(8)
    case 0x0a => LdrPost(3, 0, 4)
    case 0x0e => StrPost(3, 2, 4)
    case 0x12 => Branch(-16)
    case 0x14 => LdrLiteral(0, 20, 2)
    case 0x16 => LdrLiteral(1, 24, 2)
    case 0x18 => LdrLiteral(15, 12, 4)
    case _ => Undefined
  }

  lemma DecodeListing()
    ensures Decode(0x4806, 0x4907) == Listing(0x00) && Decode(0x4907, 0x4a07) == Listing(0x02)
    ensures Decode(0x4a07, 0x4288) == Listing(0x04) && Decode(0x4288, 0xd004) == Listing(0x06)
    ensures Decode(0xd004, 0xf850) == Listing(0x08) && Decode(0xf850, 0x3b04) == Listing(0x0a)
    ensures Decode(0xf842, 0x3b04) == Listing(0x0e) && Decode(0xe7f8, 0x4805) == Listing(0x12)
    ensures Decode(0x4805, 0x4906) == Listing(0x14) && Decode(0x4906, 0xf8df) == Listing(0x16)
    ensures Decode(0xf8df, 0xf00c) == Listing(0x18)
  {
  }

  lemma CodeHalf(m: Mem, base: int, i: int)
    requires CodeAt(m, base) && 0 <= i < |COPY_CODE| - 1
    ensures Half(m, base + i) == COPY_CODE[i] as int + 256 * (COPY_CODE[i + 1] as int)
  {
    assert m(base + i) == COPY_CODE[i] && m(base + (i + 1)) == COPY_CODE[i + 1];
  }

  lemma CodeHalves(m: Mem, base: int)
    requires CodeAt(m, base)
    ensures Half(m, base + 0x00) == 0x4806 && Half(m, base + 0x02) == 0x4907 && Half(m, base + 0x04) == 0x4a07
    ensures Half(m, base + 0x06) == 0x4288 && Half(m, base + 0x08) == 0xd004 && Half(m, base + 0x0a) == 0xf850
    ensures Half(m, base + 0x0c) == 0x3b04 && Half(m, base + 0x0e) == 0xf842 && Half(m, base + 0x10) == 0x3b04
    ensures Half(m, base + 0x12) == 0xe7f8 && Half(m, base + 0x14) == 0x4805 && Half(m, base + 0x16) == 0x4906
    ensures Half(m, base + 0x18) == 0xf8df && Half(m, base + 0x1a) == 0xf00c
  {
    hide Half, CodeAt;
    CodeHalf(m, base, 0x00); CodeHalf(m, base, 0x02); CodeHalf(m, base, 0x04); CodeHalf(m, base, 0x06);
    CodeHalf(m, base, 0x08); CodeHalf(m, base, 0x0a); CodeHalf(m, base, 0x0c); CodeHalf(m, base, 0x0e);
    CodeHalf(m, base, 0x10); CodeHalf(m, base, 0x12); CodeHalf(m, base, 0x14); CodeHalf(m, base, 0x16);
    CodeHalf(m, base, 0x18); CodeHalf(m, base, 0x1a);
  }

  lemma Disassembly(m: Mem, base: int, i: int)
    requires CodeAt(m, base)
    requires i in {0x00, 0x02, 0x04, 0x06, 0x08, 0x0a, 0x0e, 0x12, 0x14, 0x16, 0x18}
    ensures InstrAt(m, base + i) == Listing(i)
  {
    hide Decode, Half, CodeAt;
    CodeHalves(m, base);
    DecodeListing();
  }

  lemma StepLiteral(c: Cpu, base: int, i: int)
    requires CodeAt(c.mem, base) && base % 4 == 0 && c.thumb && c.pc == base + i
    requires i in {0x00, 0x02, 0x04, 0x14, 0x16, 0x18}
    ensures var ldr := Listing(i);
            Step(c) == Running(AfterLoad(c, ldr.rt, Word(c.mem, base + (i + 4) / 4 * 4 + ldr.imm), c.pc + ldr.size))
  {
    hide InstrAt, Word, AfterLoad;
    Disassembly(c.mem, base, i);
    assert (base + i + 4) / 4 * 4 == base + (i + 4) / 4 * 4;
  }

  lemma LoadTable(c: Cpu, base: int, n: nat)
    requires CodeAt(c.mem, base) && base % 4 == 0 && c.thumb && c.pc == base
    ensures var r0 := SetReg(c.reg, 0, Word(c.mem, base + TABLE));
            var r1 := SetReg(r0, 1, Word(c.mem, base + TABLE + 4));
            var r2 := SetReg(r1, 2, Word(c.mem, base + TABLE + 8));
            Run(c, n + 3) == Run(c.(reg := r2, pc := base + 6), n)
  {
    hide Step, Word;
    var c1 := c.(reg := SetReg(c.reg, 0, Word(c.mem, base + TABLE)), pc := base + 2);
    StepLiteral(c, base, 0x00);
    var c2 := c1.(reg := SetReg(c1.reg, 1, Word(c.mem, base + TABLE + 4)), pc := base + 4);
    StepLiteral(c1, base, 0x02);
    StepLiteral(c2, base, 0x04);
    assert Run(c, n + 3) == Run(c1, n + 2) == Run(c2, n + 1);
  }

  /** Compare and leave the loop. */
  lemma LoopExit(c: Cpu, base: int, n: nat)
    requires CodeAt(c.mem, base) && c.thumb && c.pc == base + 6 && c.reg(0) == c.reg(1)
    ensures Run(c, n + 2) == Run(c.(z := true, pc := base + 0x14), n)
  {
    Disassembly(c.mem, base, 0x06);
    Disassembly(c.mem, base, 0x08);
    var c1 := c.(z := true, pc := base + 8);
    assert Step(c) == Running(c1);
    var c2 := c1.(pc := base + 0x14);
    assert Step(c1) == Running(c2);
    assert Run(c, n + 2) == Run(c1, n + 1) == Run(c2, n);
  }

  /** The registers and memory after one word has been moved. */
  function Moved(c: Cpu): Cpu {
    var w := Word(c.mem, c.reg(0));
    var r := SetReg(SetReg(SetReg(c.reg, 0, (c.reg(0) + 4) % WORD), 3, w), 2, (c.reg(2) + 4) % WORD);
    c.(reg := r, z := false, mem := Store(c.mem, c.reg(2), ToLE(w, 4)))
  }

  lemma LoopTurn(c: Cpu, base: int, n: nat)
    requires CodeAt(c.mem, base) && c.thumb && c.pc == base + 6 && c.reg(0) != c.reg(1)
    requires c.reg(2) + 4 <= base || base + CODE_AND_TABLE <= c.reg(2)
    ensures Run(c, n + 5) == Run(Moved(c), n)
  {
    hide *;
    var c2 := c.(z := false, pc := base + 0xa);
    TurnStarts(c, base, n + 3);
    TurnMoves(c2, base, n + 1);
    MovedAtPc(c, c2);
    MovedKeepsRoutine(c, base);
    MovedPc(c);
    TurnBack(Moved(c).(pc := base + 0x12), base, n);
  }

  lemma TurnStarts(c: Cpu, base: int, n: nat)
    requires CodeAt(c.mem, base) && c.thumb && c.pc == base + 6 && c.reg(0) != c.reg(1)
    ensures Run(c, n + 2) == Run(c.(z := false, pc := base + 0xa), n)
  {
    hide InstrAt, CodeAt;
    Disassembly(c.mem, base, 0x06);
    Disassembly(c.mem, base, 0x08);
    var c1 := c.(z := false, pc := base + 8);
    assert Step(c) == Running(c1);
    assert Step(c1) == Running(c1.(pc := base + 0xa));
    hide Step;
    assert Run(c, n + 2) == Run(c1, n + 1);
  }

  lemma TurnMoves(c: Cpu, base: int, n: nat)
    requires CodeAt(c.mem, base) && c.thumb && c.pc == base + 0xa && !c.z
    ensures Run(c, n + 2) == Run(Moved(c).(pc := base + 0x12), n)
  {
    hide Run, Step, Moved, SetReg, Word, Store, CodeAt, ToLE;
    var r := SetReg(SetReg(c.reg, 0, (c.reg(0) + 4) % WORD), 3, Word(c.mem, c.reg(0)));
    TurnLoads(c, base, n + 1);
    TurnStores(c.(reg := r, pc := base + 0xe), base, n);
    MovedIs(c);
  }

  lemma TurnLoads(c: Cpu, base: int, n: nat)
    requires CodeAt(c.mem, base) && c.thumb && c.pc == base + 0xa
    ensures var r := SetReg(SetReg(c.reg, 0, (c.reg(0) + 4) % WORD), 3, Word(c.mem, c.reg(0)));
            Run(c, n + 1) == Run(c.(reg := r, pc := base + 0xe), n)
  {
    hide InstrAt, CodeAt, Word, SetReg;
    Disassembly(c.mem, base, 0x0a);
  }

  lemma TurnStores(c: Cpu, base: int, n: nat)
    requires CodeAt(c.mem, base) && c.thumb && c.pc == base + 0xe
    ensures var r := SetReg(c.reg, 2, (c.reg(2) + 4) % WORD);
            Run(c, n + 1) == Run(c.(reg := r, mem := Store(c.mem, c.reg(2), ToLE(c.reg(3) % WORD, 4)), pc := base + 0x12), n)
  {
    hide InstrAt, CodeAt, Store, SetReg, ToLE;
    Disassembly(c.mem, base, 0x0e);
  }

  lemma MovedIs(c: Cpu)
    requires !c.z
    ensures var r := SetReg(SetReg(c.reg, 0, (c.reg(0) + 4) % WORD), 3, Word(c.mem, c.reg(0)));
            Moved(c) == c.(reg := SetReg(r, 2, (r(2) + 4) % WORD), mem := Store(c.mem, r(2), ToLE(r(3) % WORD, 4)))
  {
    hide Store, ToLE;
  }

  lemma TurnBack(c: Cpu, base: int, n: nat)
    requires CodeAt(c.mem, base) && c.thumb && c.pc == base + 0x12
    ensures Run(c, n + 1) == Run(c.(pc := base + 6), n)
  {
    hide InstrAt, CodeAt;
    Disassembly(c.mem, base, 0x12);
  }

  lemma MovedAtPc(c: Cpu, d: Cpu)
    requires d == c.(z := false, pc := d.pc)
    ensures Moved(d) == Moved(c).(pc := d.pc)
  {
  }

  lemma MovedPc(c: Cpu)
    ensures Moved(c).pc == c.pc && Moved(c).thumb == c.thumb
  {
  }

  /** Load the arguments and jump. */
  lemma Leave(c: Cpu, base: int)
    requires CodeAt(c.mem, base) && base % 4 == 0 && c.thumb && c.pc == base + 0x14
    ensures var entry := Word(c.mem, base + TABLE + 12);
            var r := SetReg(SetReg(c.reg, 0, Word(c.mem, base + TABLE + 16)), 1, Word(c.mem, base + TABLE + 20));
            Run(c, 3) == Running(c.(reg := r, pc := entry - entry % 2, thumb := entry % 2 == 1))
  {
    hide Step, Word;
    var c1 := c.(reg := SetReg(c.reg, 0, Word(c.mem, base + TABLE + 16)), pc := base + 0x16);
    StepLiteral(c, base, 0x14);
    var c2 := c1.(reg := SetReg(c1.reg, 1, Word(c.mem, base + TABLE + 20)), pc := base + 0x18);
    StepLiteral(c1, base, 0x16);
    StepLiteral(c2, base, 0x18);
    assert Run(c, 3) == Run(c1, 2) == Run(c2, 1);
  }

  lemma MovedMemory(c: Cpu)
    ensures IsCopy(Moved(c).mem, c.mem, c.reg(0), c.reg(2), 4)
  {
    ToFromLE(Fetch(c.mem, c.reg(0), 4));
  }

  lemma WordFrame(m: Mem, m': Mem, a: int)
    requires m(a) == m'(a) && m(a + 1) == m'(a + 1) && m(a + 2) == m'(a + 2) && m(a + 3) == m'(a + 3)
    ensures Word(m, a) == Word(m', a)
  {
    assert Fetch(m, a, 4) == Fetch(m', a, 4);
  }

  /** A routine outside the destination survives a move. */
  lemma MovedKeepsRoutine(c: Cpu, base: int)
    requires CodeAt(c.mem, base)
    requires c.reg(2) + 4 <= base || base + CODE_AND_TABLE <= c.reg(2)
    ensures CodeAt(Moved(c).mem, base)
    ensures forall a :: base + TABLE + 12 <= a <= base + TABLE + 20 ==> Word(Moved(c).mem, a) == Word(c.mem, a)
  {
    hide Word, Moved;
    MovedMemory(c);
    forall a | base + TABLE + 12 <= a <= base + TABLE + 20 ensures Word(Moved(c).mem, a) == Word(c.mem, a) {
      WordFrame(Moved(c).mem, c.mem, a);
    }
  }

  lemma MovedRegisters(c: Cpu)
    requires 0 <= c.reg(0) && c.reg(0) + 4 < WORD && 0 <= c.reg(2) && c.reg(2) + 4 < WORD
    ensures var r := Moved(c).reg; r(0) == c.reg(0) + 4 && r(1) == c.reg(1) && r(2) == c.reg(2) + 4
    ensures Moved(c).pc == c.pc && Moved(c).thumb == c.thumb
  {
  }

  /** Moving `a` octets and then `b` more is moving `a + b`. */
  lemma CopyThenCopy(d: Mem, e: Mem, m: Mem, src: int, dst: int, a: nat, b: nat)
    requires IsCopy(e, m, src, dst, a) && IsCopy(d, e, src + a, dst + a, b)
    requires dst + a + b <= src || src + a + b <= dst
    ensures IsCopy(d, m, src, dst, a + b)
  {
  }

  lemma CopyDone(c: Cpu, base: int) returns (d: Cpu)
    requires CodeAt(c.mem, base) && base % 4 == 0 && c.thumb && c.pc == base + 6 && c.reg(0) == c.reg(1)
    ensures Run(c, 5) == Running(d) && IsCopy(d.mem, c.mem, c.reg(0), c.reg(2), 0) && Jumped(d, c.mem, base)
  {
    hide Run, Word, CodeAt;
    LoopExit(c, base, 3);
    Leave(c.(z := true, pc := base + 0x14), base);
    d := Run(c, 5).cpu;
  }

  /** The loop with `k` words to go, and the jump that ends it. */
  lemma {:induction false} CopyLoop(c: Cpu, base: int, k: nat) returns (d: Cpu)
    requires CodeAt(c.mem, base) && base % 4 == 0 && c.thumb && c.pc == base + 6
    requires 0 <= c.reg(0) && c.reg(1) == c.reg(0) + 4 * k < WORD
    requires 0 <= c.reg(2) && c.reg(2) + 4 * k < WORD
    requires c.reg(2) + 4 * k <= c.reg(0) || c.reg(1) <= c.reg(2)
    requires c.reg(2) + 4 * k <= base || base + CODE_AND_TABLE <= c.reg(2)
    ensures Run(c, 5 * k + 5) == Running(d)
    ensures IsCopy(d.mem, c.mem, c.reg(0), c.reg(2), 4 * k)
    ensures Jumped(d, c.mem, base)
    decreases k
  {
    hide Run, Word, CodeAt, Moved, IsCopy;
    if k == 0 {
      d := CopyDone(c, base);
    } else {
      LoopTurn(c, base, 5 * (k - 1) + 5);
      MovedRegisters(c);
      MovedKeepsRoutine(c, base);
      d := CopyLoop(Moved(c), base, k - 1);
      MovedMemory(c);
      CopyThenCopy(d.mem, Moved(c).mem, c.mem, c.reg(0), c.reg(2), 4, 4 * (k - 1));
    }
  }

  /** Control is at the entry point of the table in `m`, with its argument count and vector in r0 and r1. */
  ghost predicate Jumped(d: Cpu, m: Mem, base: int) {
    var entry := Word(m, base + TABLE + 12);
    && d.pc == entry - entry % 2 && d.thumb == (entry % 2 == 1)
    && d.reg(0) == Word(m, base + TABLE + 16) && d.reg(1) == Word(m, base + TABLE + 20)
  }

  /**
   * The routine, entered anywhere it is loaded, moves exactly the words its table names, touches
   * nothing else, and jumps to the table's entry point: for every table and every length.
   */
  lemma CopyRoutine(c: Cpu, base: int, k: nat) returns (d: Cpu)
    requires CopyReady(c.mem, base, k) && c.thumb && c.pc == base
    ensures Run(c, 5 * k + 8) == Running(d)
    ensures IsCopy(d.mem, c.mem, Word(c.mem, base + TABLE), Word(c.mem, base + TABLE + 8), 4 * k)
    ensures Jumped(d, c.mem, base)
  {
    hide Run, Word;
    var r0 := SetReg(c.reg, 0, Word(c.mem, base + TABLE));
    var r1 := SetReg(r0, 1, Word(c.mem, base + TABLE + 4));
    var r2 := SetReg(r1, 2, Word(c.mem, base + TABLE + 8));
    LoadTable(c, base, 5 * k + 5);
    d := CopyLoop(c.(reg := r2, pc := base + 6), base, k);
  }
}
