/**
 * The trampoline's other routine: it points the start-up vector at the copy routine and requests a reset.
 * The registers of the device are addresses of the flat memory.
 */
module ThumbReset {
  import opened Bytes
  import opened Thumb

  /** Where the routine lies in the trampoline; three words follow it. */
  const RESET := 0x34
  const RESET_CODE: seq<byte> := [
    0x4f, 0xf4, 0x7c, 0x01,  // 34  mov r1, #0xfc0000
    0x91, 0xf8, 0x79, 0x01,  // 38  ldrb r0, [r1, #0x179]
    0x30, 0xf0, 0x04, 0x00,  // 3c  bics r0, r0, #4
    0x81, 0xf8, 0x79, 0x01,  // 40  strb r0, [r1, #0x179]
    0x91, 0xf8, 0x7a, 0x01,  // 44  ldrb r0, [r1, #0x17a]
    0x50, 0xf0, 0x04, 0x00,  // 48  orrs r0, r0, #4
    0x81, 0xf8, 0x7a, 0x01,  // 4c  strb r0, [r1, #0x17a]
    0x03, 0x48,              // 50  ldr r0, [pc, #12]   the copy routine
    0xc1, 0xf8, 0x0c, 0x01,  // 52  str r0, [r1, #0x10c]
    0x03, 0x49,              // 56  ldr r1, [pc, #12]   the reset control register
    0x03, 0x48,              // 58  ldr r0, [pc, #12]   its key, with a reset requested
    0x08, 0x60,              // 5a  str r0, [r1]
    0x00, 0xbf,              // 5c  nop
    0xfd, 0xe7               // 5e  b 5c
  ]

  const DEST := 0x60
  const CONTROL := 0xe000_ed0c
  const REQUEST := 0x05fa_0004
  const CONTROL_AND_REQUEST: seq<byte> := [0x0c, 0xed, 0x00, 0xe0, 0x04, 0x00, 0xfa, 0x05]

  const FLAG_A := 0xfc_0179
  const FLAG_B := 0xfc_017a
  const VECTOR := 0xfc_010c

  /** The registers that the routine writes. */
  predicate IsRegister(x: int) {
    x == FLAG_A || x == FLAG_B || VECTOR <= x < VECTOR + 4 || CONTROL <= x < CONTROL + 4
  }

  ghost predicate ResetAt(m: Mem, base: int) {
    forall i :: 0 <= i < |RESET_CODE| ==> m(base + RESET + i) == RESET_CODE[i]
  }

  function ResetListing(i: int): Instr {
    match i
    case 0x34 => MovImm(1, Modified(1, 0, 0x7c))
    case 0x38 => LdrbImm(0, 1, 0x179)
    case 0x3c => BicsImm(0, 0, Modified(0, 0, 4))
    case 0x40 => StrbImm(0, 1, 0x179)
    case 0x44 => LdrbImm(0, 1, 0x17a)
    case 0x48 => OrrsImm(0, 0, Modified(0, 0, 4))
    case 0x4c => StrbImm(0, 1, 0x17a)
    case 0x50 => LdrLiteral(0, 12, 2)
    case 0x52 => StrImm(0, 1, 0x10c, 4)
    case 0x56 => LdrLiteral(1, 12, 2)
    case 0x58 => LdrLiteral(0, 12, 2)
    case 0x5a => StrImm(0, 1, 0, 2)
    case 0x5c => Nop
    case 0x5e => Branch(-6)
    case _ => Undefined
  }

  lemma DecodeLoadsAndStores()
    ensures Decode(0xf891, 0x0179) == ResetListing(0x38) && Decode(0xf881, 0x0179) == ResetListing(0x40)
    ensures Decode(0xf891, 0x017a) == ResetListing(0x44) && Decode(0xf881, 0x017a) == ResetListing(0x4c)
    ensures Decode(0xf8c1, 0x010c) == ResetListing(0x52)
  {
  }

  lemma DecodeImmediates()
    ensures Decode(0xf44f, 0x017c) == ResetListing(0x34)
    ensures Decode(0xf030, 0x0004) == ResetListing(0x3c) && Decode(0xf050, 0x0004) == ResetListing(0x48)
  {
  }

  lemma DecodeNarrow(g: int)
    ensures Decode(0x4803, g) == ResetListing(0x50) == ResetListing(0x58) && Decode(0x4903, g) == ResetListing(0x56)
    ensures Decode(0x6008, g) == ResetListing(0x5a) && Decode(0xbf00, g) == ResetListing(0x5c)
    ensures Decode(0xe7fd, g) == ResetListing(0x5e)
  {
  }

  /** The halfwords at offset `i`. */
  lemma Halfwords(m: Mem, base: int, i: int, h: int, g: int)
    requires ResetAt(m, base) && RESET <= i < DEST - 3
    requires h == RESET_CODE[i - RESET] as int + 256 * (RESET_CODE[i + 1 - RESET] as int)
    requires g == RESET_CODE[i + 2 - RESET] as int + 256 * (RESET_CODE[i + 3 - RESET] as int)
    ensures InstrAt(m, base + i) == Decode(h, g)
  {
    hide Decode;
    var j := i - RESET;
    assert m(base + RESET + j) == RESET_CODE[j] && m(base + RESET + (j + 1)) == RESET_CODE[j + 1];
    assert m(base + RESET + (j + 2)) == RESET_CODE[j + 2] && m(base + RESET + (j + 3)) == RESET_CODE[j + 3];
  }

  lemma LastHalfword(m: Mem, base: int)
    requires ResetAt(m, base)
    ensures InstrAt(m, base + 0x5e) == Decode(0xe7fd, Half(m, base + DEST))
  {
    hide Decode;
    assert m(base + RESET + 42) == RESET_CODE[42] && m(base + RESET + 43) == RESET_CODE[43];
  }

  lemma LoadDisassembly(m: Mem, base: int, i: int)
    requires ResetAt(m, base) && (i == 0x38 || i == 0x44)
    ensures InstrAt(m, base + i) == ResetListing(i)
  {
    hide InstrAt, ResetAt, Decode, ResetListing;
    DecodeLoadsAndStores();
    if i == 0x38 {
      Halfwords(m, base, 0x38, 0xf891, 0x0179);
    } else {
      Halfwords(m, base, 0x44, 0xf891, 0x017a);
    }
  }

  lemma StoreDisassembly(m: Mem, base: int, i: int)
    requires ResetAt(m, base) && (i == 0x40 || i == 0x4c)
    ensures InstrAt(m, base + i) == ResetListing(i)
  {
    hide InstrAt, ResetAt, Decode, ResetListing;
    DecodeLoadsAndStores();
    if i == 0x40 {
      Halfwords(m, base, 0x40, 0xf881, 0x0179);
    } else {
      Halfwords(m, base, 0x4c, 0xf881, 0x017a);
    }
  }

  lemma ImmediateDisassembly(m: Mem, base: int, i: int)
    requires ResetAt(m, base) && (i == 0x34 || i == 0x3c || i == 0x48)
    ensures InstrAt(m, base + i) == ResetListing(i)
  {
    hide InstrAt, ResetAt, Decode, ResetListing;
    DecodeImmediates();
    if i == 0x34 {
      Halfwords(m, base, 0x34, 0xf44f, 0x017c);
    } else if i == 0x3c {
      Halfwords(m, base, 0x3c, 0xf030, 0x0004);
    } else {
      Halfwords(m, base, 0x48, 0xf050, 0x0004);
    }
  }

  lemma NarrowDisassembly(m: Mem, base: int, i: int)
    requires ResetAt(m, base) && (i == 0x50 || i == 0x56 || i == 0x58 || i == 0x5a || i == 0x5c || i == 0x5e)
    ensures InstrAt(m, base + i) == ResetListing(i)
  {
    hide InstrAt, ResetAt, Decode, ResetListing;
    if i == 0x50 {
      Halfwords(m, base, 0x50, 0x4803, 0xf8c1);
      DecodeNarrow(0xf8c1);
    } else if i == 0x56 {
      Halfwords(m, base, 0x56, 0x4903, 0x4803);
      DecodeNarrow(0x4803);
    } else if i == 0x58 {
      Halfwords(m, base, 0x58, 0x4803, 0x6008);
      DecodeNarrow(0x6008);
    } else if i == 0x5a {
      Halfwords(m, base, 0x5a, 0x6008, 0xbf00);
      DecodeNarrow(0xbf00);
    } else if i == 0x5c {
      Halfwords(m, base, 0x5c, 0xbf00, 0xe7fd);
      DecodeNarrow(0xe7fd);
    } else {
      LastHalfword(m, base);
      DecodeNarrow(Half(m, base + DEST));
    }
  }

  /** The routine's bytes decode to the listed instructions. */
  lemma ResetDisassembly(m: Mem, base: int, i: int)
    requires ResetAt(m, base) && RESET <= i < DEST && ResetListing(i) != Undefined
    ensures InstrAt(m, base + i) == ResetListing(i)
  {
    hide InstrAt, ResetAt;
    if i == 0x50 || i == 0x56 || i == 0x58 || i == 0x5a || i == 0x5c || i == 0x5e {
      NarrowDisassembly(m, base, i);
    } else if i == 0x34 || i == 0x3c || i == 0x48 {
      ImmediateDisassembly(m, base, i);
    } else if i == 0x38 || i == 0x44 {
      LoadDisassembly(m, base, i);
    } else if i == 0x40 || i == 0x4c {
      StoreDisassembly(m, base, i);
    } else {
      DecodeLoadsAndStores();
      hide Decode;
      Halfwords(m, base, 0x52, 0xf8c1, 0x010c);
    }
  }

  /** The routine and its three words are in place. */
  ghost predicate ResetReady(m: Mem, base: int, dest: int) {
    && ResetAt(m, base) && base % 4 == 0
    && Word(m, base + DEST) == dest && Word(m, base + DEST + 4) == CONTROL && Word(m, base + DEST + 8) == REQUEST
  }

  lemma ReadyCode(m: Mem, base: int, dest: int)
    requires ResetReady(m, base, dest)
    ensures ResetAt(m, base)
  {
  }

  /** The routine does not lie on the registers it writes. */
  ghost predicate OffRegisters(base: int) {
    forall x :: base + RESET <= x < base + DEST + 12 ==> !IsRegister(x)
  }

  lemma WriteKeepsRoutine(m: Mem, base: int, dest: int, a: int, data: seq<byte>)
    requires ResetReady(m, base, dest) && OffRegisters(base)
    requires forall x :: a <= x < a + |data| ==> IsRegister(x)
    ensures ResetReady(Store(m, a, data), base, dest)
  {
    hide Word, IsRegister;
    var d := Store(m, a, data);
    forall x | base + RESET <= x < base + DEST + 12 ensures d(x) == m(x) {
      assert !IsRegister(x);
    }
    hide Store, OffRegisters;
    WordFrame(m, d, base + DEST);
    WordFrame(m, d, base + DEST + 4);
    WordFrame(m, d, base + DEST + 8);
  }

  // ---- Step by step ----

  lemma Goes(c: Cpu, base: int, i: int, d: Cpu, n: nat)
    requires ResetAt(c.mem, base) && c.thumb && c.pc == base + i && RESET <= i < DEST && ResetListing(i) != Undefined
    requires Perform(c, ResetListing(i)) == Running(d)
    ensures Run(c, n + 1) == Run(d, n)
  {
    hide ResetListing, Perform, ResetAt, InstrAt;
    ResetDisassembly(c.mem, base, i);
    assert Step(c) == Running(d);
  }

  lemma AndNotStep(x: nat, y: nat)
    ensures AndNot(x, y) == (if x % 2 == 1 && y % 2 == 0 then 1 else 0) + 2 * AndNot(x / 2, y / 2)
  {
  }

  lemma OrStep(x: nat, y: nat)
    ensures Or(x, y) == (if x % 2 == 1 || y % 2 == 1 then 1 else 0) + 2 * Or(x / 2, y / 2)
  {
  }

  lemma {:induction false} NoBits(x: nat)
    ensures AndNot(x, 0) == x && Or(x, 0) == x
  {
    if x > 0 {
      NoBits(x / 2);
    }
  }

  lemma ThreeBits(x: nat)
    ensures x / 2 / 2 == x / 4 && x / 4 / 2 == x / 8 && x == x % 2 + 2 * (x / 2 % 2) + 4 * (x / 4 % 2) + 8 * (x / 8)
  {
  }

  /** Clearing bit 2. */
  lemma ClearBitTwo(x: nat)
    ensures AndNot(x, 4) == x - 4 * (x / 4 % 2)
  {
    AndNotStep(x, 4);
    AndNotStep(x / 2, 2);
    AndNotStep(x / 4, 1);
    hide AndNot;
    NoBits(x / 8);
    ThreeBits(x);
  }

  /** Setting bit 2. */
  lemma SetBitTwo(x: nat)
    ensures Or(x, 4) == x + 4 * (1 - x / 4 % 2)
  {
    OrStep(x, 4);
    OrStep(x / 2, 2);
    OrStep(x / 4, 1);
    hide Or;
    NoBits(x / 8);
    ThreeBits(x);
  }

  lemma Constants()
    ensures Modified(1, 0, 0x7c).Value() == 0xfc0000 && Modified(0, 0, 4).Value() == 4
  {
    PowersOfTwo();
    hide Pow2;
    Pow2Plus8(8);
  }

  function Cleared(b: byte): byte {
    b - 4 * (b as int / 4 % 2)
  }

  function Raised(b: byte): byte {
    b as int + 4 * (1 - b as int / 4 % 2)
  }

  lemma ChangedBits(b: byte)
    ensures AndNot(b % WORD, Modified(0, 0, 4).Value() % WORD) == Cleared(b)
    ensures Or(b % WORD, Modified(0, 0, 4).Value() % WORD) == Raised(b)
  {
    Constants();
    hide Modified.Value;
    assert b as int % WORD == b && 4 % WORD == 4;
    hide AndNot, Or;
    ClearBitTwo(b);
    SetBitTwo(b);
  }

  // The instructions that the two flags share.

  lemma LoadsBase(c: Cpu, base: int, n: nat)
    requires ResetAt(c.mem, base) && c.thumb && c.pc == base + 0x34
    ensures Run(c, n + 1) == Run(c.(reg := SetReg(c.reg, 1, 0xfc0000), pc := base + 0x38), n)
  {
    Constants();
    hide Modified.Value, Run, ResetAt;
    Goes(c, base, 0x34, c.(reg := SetReg(c.reg, 1, 0xfc0000), pc := base + 0x38), n);
  }

  lemma LoadsFlag(c: Cpu, base: int, i: int, flag: int, n: nat)
    requires ResetAt(c.mem, base) && c.thumb && c.pc == base + i && c.reg(1) == 0xfc0000
    requires (i == 0x38 && flag == FLAG_A) || (i == 0x44 && flag == FLAG_B)
    ensures Run(c, n + 1) == Run(c.(reg := SetReg(c.reg, 0, c.mem(flag)), pc := c.pc + 4), n)
  {
    hide Run, ResetAt;
    Goes(c, base, i, c.(reg := SetReg(c.reg, 0, c.mem(flag)), pc := c.pc + 4), n);
  }

  lemma ChangesFlag(c: Cpu, base: int, i: int, b: byte, n: nat)
    requires ResetAt(c.mem, base) && c.thumb && c.pc == base + i && c.reg(0) == b && (i == 0x3c || i == 0x48)
    ensures var v := if i == 0x3c then Cleared(b) else Raised(b);
            Run(c, n + 1) == Run(c.(reg := SetReg(c.reg, 0, v), z := v == 0, pc := c.pc + 4), n)
  {
    ChangedBits(b);
    hide AndNot, Or, Modified.Value, Run, ResetAt, Cleared, Raised;
    var v := if i == 0x3c then Cleared(b) else Raised(b);
    Goes(c, base, i, c.(reg := SetReg(c.reg, 0, v), z := v == 0, pc := c.pc + 4), n);
  }

  lemma StoresFlag(c: Cpu, base: int, i: int, flag: int, b: byte, n: nat)
    requires ResetAt(c.mem, base) && c.thumb && c.pc == base + i && c.reg(0) == b && c.reg(1) == 0xfc0000
    requires (i == 0x40 && flag == FLAG_A) || (i == 0x4c && flag == FLAG_B)
    ensures Run(c, n + 1) == Run(c.(mem := Store(c.mem, flag, [b]), pc := c.pc + 4), n)
  {
    hide Run, ResetAt, Store;
    Goes(c, base, i, c.(mem := Store(c.mem, flag, [b]), pc := c.pc + 4), n);
  }

  /** The first flag is cleared. */
  lemma FlagA(c: Cpu, base: int, dest: int, n: nat) returns (d: Cpu)
    requires ResetReady(c.mem, base, dest) && OffRegisters(base) && c.thumb && c.pc == base + 0x34
    ensures Run(c, n + 4) == Run(d, n) && d.thumb && d.pc == base + 0x44 && d.reg(1) == 0xfc0000
    ensures d.mem == Store(c.mem, FLAG_A, [Cleared(c.mem(FLAG_A))]) && ResetReady(d.mem, base, dest)
  {
    ReadyCode(c.mem, base, dest);
    var b := c.mem(FLAG_A);
    WriteKeepsRoutine(c.mem, base, dest, FLAG_A, [Cleared(b)]);
    hide Run, ResetAt, ResetReady, OffRegisters, Store, Cleared, IsRegister;
    LoadsBase(c, base, n + 3);
    var c1 := c.(reg := SetReg(c.reg, 1, 0xfc0000), pc := base + 0x38);
    LoadsFlag(c1, base, 0x38, FLAG_A, n + 2);
    var c2 := c1.(reg := SetReg(c1.reg, 0, b), pc := base + 0x3c);
    ChangesFlag(c2, base, 0x3c, b, n + 1);
    var c3 := c2.(reg := SetReg(c2.reg, 0, Cleared(b)), z := Cleared(b) == 0, pc := base + 0x40);
    StoresFlag(c3, base, 0x40, FLAG_A, Cleared(b), n);
    d := c3.(mem := Store(c.mem, FLAG_A, [Cleared(b)]), pc := base + 0x44);
  }

  /** The second flag is set. */
  lemma FlagB(c: Cpu, base: int, dest: int, n: nat) returns (d: Cpu)
    requires ResetReady(c.mem, base, dest) && OffRegisters(base) && c.thumb && c.pc == base + 0x44
    requires c.reg(1) == 0xfc0000
    ensures Run(c, n + 3) == Run(d, n) && d.thumb && d.pc == base + 0x50 && d.reg(1) == 0xfc0000
    ensures d.mem == Store(c.mem, FLAG_B, [Raised(c.mem(FLAG_B))]) && ResetReady(d.mem, base, dest)
  {
    ReadyCode(c.mem, base, dest);
    var b := c.mem(FLAG_B);
    WriteKeepsRoutine(c.mem, base, dest, FLAG_B, [Raised(b)]);
    hide Run, ResetAt, ResetReady, OffRegisters, Store, Raised, IsRegister;
    LoadsFlag(c, base, 0x44, FLAG_B, n + 2);
    var c1 := c.(reg := SetReg(c.reg, 0, b), pc := base + 0x48);
    ChangesFlag(c1, base, 0x48, b, n + 1);
    var c2 := c1.(reg := SetReg(c1.reg, 0, Raised(b)), z := Raised(b) == 0, pc := base + 0x4c);
    StoresFlag(c2, base, 0x4c, FLAG_B, Raised(b), n);
    d := c2.(mem := Store(c.mem, FLAG_B, [Raised(b)]), pc := base + 0x50);
  }

  lemma LoadsWord(c: Cpu, base: int, dest: int, i: int, n: nat)
    requires ResetReady(c.mem, base, dest) && c.thumb && c.pc == base + i && (i == 0x50 || i == 0x56 || i == 0x58)
    ensures var r, v := if i == 0x56 then 1 else 0, if i == 0x50 then dest else if i == 0x56 then CONTROL else REQUEST;
            Run(c, n + 1) == Run(c.(reg := SetReg(c.reg, r, v), pc := c.pc + 2), n)
  {
    var r, v := if i == 0x56 then 1 else 0, if i == 0x50 then dest else if i == 0x56 then CONTROL else REQUEST;
    hide Run, ResetAt, Word, SetReg;
    assert (base + i + 4) / 4 * 4 == base + (i + 4) / 4 * 4;
    Goes(c, base, i, c.(reg := SetReg(c.reg, r, v), pc := c.pc + 2), n);
  }

  lemma StoresWord(c: Cpu, base: int, i: int, w: nat, n: nat)
    requires ResetAt(c.mem, base) && c.thumb && c.pc == base + i && w < WORD && c.reg(0) == w
    requires (i == 0x52 && c.reg(1) == 0xfc0000) || (i == 0x5a && c.reg(1) == CONTROL)
    ensures var a, size := if i == 0x52 then VECTOR else CONTROL, if i == 0x52 then 4 else 2;
            Run(c, n + 1) == Run(c.(mem := Store(c.mem, a, ToLE(w, 4)), pc := c.pc + size), n)
  {
    hide Run, ResetAt, Store, ToLE;
    var a, size := if i == 0x52 then VECTOR else CONTROL, if i == 0x52 then 4 else 2;
    Goes(c, base, i, c.(mem := Store(c.mem, a, ToLE(w, 4)), pc := c.pc + size), n);
  }

  /** The vector is set. */
  lemma Vector(c: Cpu, base: int, dest: nat, n: nat) returns (d: Cpu)
    requires ResetReady(c.mem, base, dest) && OffRegisters(base) && c.thumb && c.pc == base + 0x50
    requires c.reg(1) == 0xfc0000 && dest < WORD
    ensures Run(c, n + 2) == Run(d, n) && d.thumb && d.pc == base + 0x56
    ensures d.mem == Store(c.mem, VECTOR, ToLE(dest, 4)) && ResetReady(d.mem, base, dest)
  {
    ReadyCode(c.mem, base, dest);
    WriteKeepsRoutine(c.mem, base, dest, VECTOR, ToLE(dest, 4));
    hide Run, ResetAt, ResetReady, OffRegisters, Store, ToLE, IsRegister;
    LoadsWord(c, base, dest, 0x50, n + 1);
    var c1 := c.(reg := SetReg(c.reg, 0, dest), pc := base + 0x52);
    StoresWord(c1, base, 0x52, dest, n);
    d := c1.(mem := Store(c.mem, VECTOR, ToLE(dest, 4)), pc := base + 0x56);
  }

  /** The reset is requested. */
  lemma Request(c: Cpu, base: int, dest: int, n: nat) returns (d: Cpu)
    requires ResetReady(c.mem, base, dest) && OffRegisters(base) && c.thumb && c.pc == base + 0x56
    ensures Run(c, n + 3) == Run(d, n) && d.thumb && d.pc == base + 0x5c
    ensures d.mem == Store(c.mem, CONTROL, ToLE(REQUEST, 4)) && ResetReady(d.mem, base, dest)
  {
    ReadyCode(c.mem, base, dest);
    WriteKeepsRoutine(c.mem, base, dest, CONTROL, ToLE(REQUEST, 4));
    hide Run, ResetAt, ResetReady, OffRegisters, Store, ToLE, IsRegister;
    LoadsWord(c, base, dest, 0x56, n + 2);
    var c1 := c.(reg := SetReg(c.reg, 1, CONTROL), pc := base + 0x58);
    LoadsWord(c1, base, dest, 0x58, n + 1);
    var c2 := c1.(reg := SetReg(c1.reg, 0, REQUEST), pc := base + 0x5a);
    StoresWord(c2, base, 0x5a, REQUEST, n);
    d := c2.(mem := Store(c.mem, CONTROL, ToLE(REQUEST, 4)), pc := base + 0x5c);
  }

  /** Then the processor goes round and touches nothing until the reset comes. */
  lemma {:induction false} Spins(c: Cpu, base: int, n: nat) returns (d: Cpu)
    requires ResetAt(c.mem, base) && c.thumb && (c.pc == base + 0x5c || c.pc == base + 0x5e)
    ensures Run(c, n) == Running(d) && d.mem == c.mem
    decreases n
  {
    if n == 0 {
      d := c;
    } else {
      hide Run, ResetAt;
      var c1 := c.(pc := if c.pc == base + 0x5c then base + 0x5e else base + 0x5c);
      Goes(c, base, c.pc - base, c1, n - 1);
      d := Spins(c1, base, n - 1);
    }
  }

  /** Memory when the routine has made its request. */
  function Requested(m: Mem, dest: nat): Mem {
    var flags := Store(Store(m, FLAG_A, [Cleared(m(FLAG_A))]), FLAG_B, [Raised(m(FLAG_B))]);
    Store(Store(flags, VECTOR, ToLE(dest, 4)), CONTROL, ToLE(REQUEST, 4))
  }

  /** `d` is `m` with the vector set, the reset requested, bit 2 of the flags changed, and nothing else. */
  ghost predicate IsRequested(d: Mem, m: Mem, dest: int) {
    && Word(d, VECTOR) == dest && Word(d, CONTROL) == REQUEST
    && d(FLAG_A) == Cleared(m(FLAG_A)) && d(FLAG_B) == Raised(m(FLAG_B))
    && forall x {:trigger d(x)} :: !IsRegister(x) ==> d(x) == m(x)
  }

  lemma RequestedIs(m: Mem, dest: nat)
    requires dest < WORD
    ensures IsRequested(Requested(m, dest), m, dest)
  {
    var d := Requested(m, dest);
    LE4(dest);
    LE4(REQUEST);
    assert Fetch(d, VECTOR, 4) == ToLE(dest, 4);
    assert Fetch(d, CONTROL, 4) == ToLE(REQUEST, 4);
    hide ToLE;
  }

  /**
   * The routine, entered anywhere it is loaded: after twelve steps the vector holds the address in its first
   * word and a reset has been requested, and however long the reset takes, nothing else happens to memory.
   */
  lemma ResetRoutine(c: Cpu, base: int, dest: nat, n: nat) returns (d: Cpu)
    requires ResetReady(c.mem, base, dest) && OffRegisters(base) && c.thumb && c.pc == base + RESET && dest < WORD
    ensures Run(c, 12 + n) == Running(d) && IsRequested(d.mem, c.mem, dest)
  {
    hide Run, ResetReady, OffRegisters, Store, ToLE, IsRequested;
    d := FlagA(c, base, dest, n + 8);
    assert d.mem(FLAG_B) == c.mem(FLAG_B) by {
      StoreElsewhere(c.mem, FLAG_A, [Cleared(c.mem(FLAG_A))], FLAG_B);
    }
    d := FlagB(d, base, dest, n + 5);
    d := Vector(d, base, dest, n + 3);
    d := Request(d, base, dest, n);
    ReadyCode(d.mem, base, dest);
    hide ResetAt;
    d := Spins(d, base, n);
    RequestedIs(c.mem, dest);
  }

  lemma StoreElsewhere(m: Mem, a: int, data: seq<byte>, x: int)
    requires !(a <= x < a + |data|)
    ensures Store(m, a, data)(x) == m(x)
  {
  }
}
