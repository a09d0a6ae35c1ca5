/**
 * From the address where the device is told to start, through the reset, to the program: the trampoline's two
 * routines one after the other.
 */
module BootReset {
  import opened Bytes
  import opened Thumb
  import opened ThumbReset
  import opened BootCommand
  import opened BootArgs
  import opened BootStream
  import opened BootImage
  import opened BootRam

  lemma TrampolineCode(v: View, entry: nat, argc: nat, argv: nat)
    ensures var t := FixupTrampoline(v, entry, argc, argv);
            && |t| == TRAMPOLINE_SIZE && t[RESET..DEST] == RESET_CODE && t[DEST + 4..] == CONTROL_AND_REQUEST
            && t[DEST..DEST + 4] == ToLE(StageEnd(v) + 1, 4)
  {
    hide StageStart, StageEnd, ToLE;
    StageBounds(v);
    var t := FixupTrampoline(v, entry, argc, argv);
    assert TEMPLATE[CODE_AND_TABLE..DEST] == RESET_CODE && TEMPLATE[DEST + 4..] == CONTROL_AND_REQUEST;
  }

  lemma RequestWords()
    ensures CONTROL_AND_REQUEST[..4] == ToLE(CONTROL, 4) && CONTROL_AND_REQUEST[4..] == ToLE(REQUEST, 4)
  {
    hide ToLE;
    LE4(CONTROL);
    LE4(REQUEST);
  }

  /** A staged trampoline contains the reset routine, aimed at the copy routine. */
  lemma StagedIsReady(v: View, m: Mem, entry: nat, argc: nat, argv: nat)
    requires Staged(v, m, entry, argc, argv) && StageEnd(v) + 1 < WORD
    ensures ResetReady(m, StageEnd(v), StageEnd(v) + 1)
  {
    hide ToLE, Word, FixupTrampoline, StageStart, StageEnd, Holds;
    StageBounds(v);
    var base, t := StageEnd(v), FixupTrampoline(v, entry, argc, argv);
    TrampolineCode(v, entry, argc, argv);
    RequestWords();
    assert t[DEST + 4..DEST + 8] == t[DEST + 4..][..4] && t[DEST + 8..DEST + 12] == t[DEST + 4..][4..];
    HeldWord(m, base, t, DEST, base + 1);
    HeldWord(m, base, t, DEST + 4, CONTROL);
    HeldWord(m, base, t, DEST + 8, REQUEST);
    HeldReset(m, base, t);
  }

  lemma HeldReset(m: Mem, base: int, t: seq<byte>)
    requires Holds(m, base, t) && |t| >= DEST && t[RESET..DEST] == RESET_CODE
    ensures ResetAt(m, base)
  {
    forall i | 0 <= i < |RESET_CODE| ensures m(base + RESET + i) == RESET_CODE[i] {
      assert t[RESET..DEST][i] == t[RESET + i];
      assert m(base + RESET + i) == t[base + RESET + i - base];
    }
  }

  /** Everything that is written lies below the registers that the reset routine writes. */
  ghost predicate BelowRegisters(v: View, args: Piece) {
    StageEnd(v) + TRAMPOLINE_SIZE <= VECTOR && args.addr + |args.data| <= VECTOR
  }

  /** The arguments spare what is staged, and numbers and addresses are what they have to be. */
  ghost predicate Bootable(v: View, entry: nat, args: Piece, argc: nat, argv: nat) {
    && entry < WORD && argc < WORD && argv < WORD
    && BelowRegisters(v, args) && Repeats(v, entry, argc, argv, args)
  }

  /** The reset may leave anything in bank 3 and in those registers, and touches nothing else. */
  ghost predicate ResetFrom(r: Mem, m2: Mem) {
    forall x {:trigger m2(x)} :: !InBank3(x) && !IsRegister(x) ==> m2(x) == r(x)
  }

  /** A processor that starts at `address`, whose lowest bit selects the instruction set. */
  function StartAt(address: nat, m: Mem, reg: int -> int, z: bool): Cpu {
    Cpu(reg, z, address % 2 == 1, address - address % 2, m)
  }

  /** From `c`, some number of steps lead to the program, loaded as it is meant to be. */
  ghost predicate Boots(c: Cpu, m: Mem, segs: seq<Piece>, entry: nat, args: Piece, argc: nat, argv: nat) {
    exists n {:trigger Run(c, n)} ::
      match Run(c, n)
      case Fault => false
      case Running(d) =>
        && Loads(d.mem, m, segs, args)
        && d.pc == entry - entry % 2 && d.thumb == (entry % 2 == 1) && d.reg(0) == argc && d.reg(1) == argv
  }

  lemma Settled(v: View, m1: Mem, r: Mem, m2: Mem, entry: nat, argc: nat, argv: nat)
    requires Staged(v, m1, entry, argc, argv) && StageEnd(v) + TRAMPOLINE_SIZE <= VECTOR
    requires IsRequested(r, m1, StageEnd(v) + 1) && ResetFrom(r, m2)
    ensures Staged(v, m2, entry, argc, argv)
  {
    StageBounds(v);
    TrampolineCode(v, entry, argc, argv);
    hide FixupTrampoline, StageStart, StageEnd, Word;
    forall x | StageStart(v) <= x < StageEnd(v) + TRAMPOLINE_SIZE ensures m2(x) == m1(x) {
      assert m2(x) == r(x) == m1(x);
    }
  }

  /** Apart from the registers, the copy leaves what it would leave without request and reset. */
  lemma CopyAfterRequest(d: Mem, m1: Mem, r: Mem, m2: Mem, dest: int, start: int, n: int) returns (e: Mem)
    requires IsRequested(r, m1, dest) && ResetFrom(r, m2) && IsCopy(d, m2, start, BANK3_START, n)
    requires BANK3_END <= start && start + n <= VECTOR && n <= BANK3_END - BANK3_START
    ensures Restored(e, m1, start, n) && forall x :: !IsRegister(x) ==> e(x) == d(x)
  {
    hide Word;
    e := x => if IsRegister(x) then m1(x) else d(x);
    forall x ensures BANK3_START <= x < BANK3_START + n ==> e(x) == m1(start + x - BANK3_START) {
      if BANK3_START <= x < BANK3_START + n {
        var y := start + x - BANK3_START;
        assert d(x) == m2(y) && m2(y) == r(y) && r(y) == m1(y);
      }
    }
    forall x | !InBank3(x) ensures e(x) == m1(x) {
      if !IsRegister(x) {
        assert d(x) == m2(x) && m2(x) == r(x) && r(x) == m1(x);
      }
    }
  }

  lemma LoadsAlike(e: Mem, d: Mem, m: Mem, segs: seq<Piece>, args: Piece)
    requires Loads(e, m, segs, args) && StageStart(Loaded(segs)) <= VECTOR && args.addr + |args.data| <= VECTOR
    requires forall x :: !IsRegister(x) ==> e(x) == d(x)
    ensures Loads(d, m, segs, args)
  {
    hide Resident, Meant, Covered, Loaded, StageStart, StageEnd;
    StageBounds(Loaded(segs));
    forall x | Covered(Resident(segs), x) ensures x < VECTOR {
      CoveredBelow(segs, x);
    }
  }

  /** Segments lie in bank 3 or below the staging area. */
  lemma CoveredBelow(segs: seq<Piece>, x: int)
    requires Covered(Resident(segs), x)
    ensures x < StageStart(Loaded(segs))
  {
    hide Covered, Written, Loaded, Direct, ExecuteAll, Resident, LoadPieces, Top, StageEnd;
    var m: Mem := _ => 0;
    var v := Loaded(segs);
    LoadedMirrors(segs, m);
    SegmentsStoreWhole(m, segs, x);
    StageGeometry(v);
    if !InBank3(x) {
      WrittenBelowTop(v.cmds, x);
    }
  }

  /** After the reset, the copy routine enters the program. */
  lemma BootsAfterReset(segs: seq<Piece>, m: Mem, entry: nat, args: Piece, argc: nat, argv: nat, r: Mem, m2: Mem,
                        reg: int -> int, z: bool)
    requires Bootable(Loaded(segs), entry, args, argc, argv)
    requires IsRequested(r, ExecuteAll(m, LoadCommands(segs, entry, args, argc, argv)), StageEnd(Loaded(segs)) + 1)
    requires ResetFrom(r, m2)
    ensures Boots(StartAt(Word(r, VECTOR), m2, reg, z), m, segs, entry, args, argc, argv)
  {
    hide Run, ExecuteAll, LoadCommands, Staged, IsCopy, Loaded, Restored, Loads, Repeats, StageStart, StageEnd, Word,
      ResetFrom, IsRegister, Boots;
    var v, m1 := Loaded(segs), ExecuteAll(m, LoadCommands(segs, entry, args, argc, argv));
    var start, end := StageStart(v), StageEnd(v);
    LoadStages(segs, m, entry, args, argc, argv);
    StageGeometry(v);
    Settled(v, m1, r, m2, entry, argc, argv);
    var d := TrampolineRestores(v, m2, entry, argc, argv, reg, z);
    var e := CopyAfterRequest(d.mem, m1, r, m2, end + 1, start, end - start);
    RestoredLoads(segs, m, entry, args, argc, argv, e);
    LoadsAlike(e, d.mem, m, segs, args);
    BootsIn(StartAt(Word(r, VECTOR), m2, reg, z), 5 * ((end - start) / 4) + 8, d, m, segs, entry, args, argc, argv);
  }

  lemma BootsIn(c: Cpu, n: nat, d: Cpu, m: Mem, segs: seq<Piece>, entry: nat, args: Piece, argc: nat, argv: nat)
    requires Run(c, n) == Running(d) && Loads(d.mem, m, segs, args)
    requires d.pc == entry - entry % 2 && d.thumb == (entry % 2 == 1) && d.reg(0) == argc && d.reg(1) == argv
    ensures Boots(c, m, segs, entry, args, argc, argv)
  {
    hide Run, Loads;
  }

  /**
   * From the start address that the fixup returns: the device requests a reset, with the address of the copy
   * routine in its start-up vector; and when it comes up again at that vector, whatever the reset has left in
   * bank 3 and in the registers, it reaches the program, loaded as it is meant to be.
   */
  lemma BootsProgram(segs: seq<Piece>, m: Mem, entry: nat, args: Piece, argc: nat, argv: nat, reg: int -> int, z: bool,
                     n: nat)
    returns (r: Cpu)
    requires Bootable(Loaded(segs), entry, args, argc, argv)
    ensures var m1 := ExecuteAll(m, LoadCommands(segs, entry, args, argc, argv));
            && Run(StartAt(FixupEntry(Loaded(segs), entry), m1, reg, z), 12 + n) == Running(r)
            && Word(r.mem, 0xe000_ed0c) == 0x05fa_0004
    ensures forall m2, reg2, z2 :: ResetFrom(r.mem, m2) ==>
              Boots(StartAt(Word(r.mem, 0xfc_010c), m2, reg2, z2), m, segs, entry, args, argc, argv)
  {
    hide Run, ExecuteAll, LoadCommands, Staged, Loaded, Loads, Repeats, StageStart, StageEnd, Word, ResetFrom, Boots,
      ResetReady;
    var v, m1 := Loaded(segs), ExecuteAll(m, LoadCommands(segs, entry, args, argc, argv));
    LoadStages(segs, m, entry, args, argc, argv);
    StageGeometry(v);
    StagedIsReady(v, m1, entry, argc, argv);
    WithWorkaround(segs);
    r := ResetRoutine(StartAt(FixupEntry(v, entry), m1, reg, z), StageEnd(v), StageEnd(v) + 1, n);
    forall m2, reg2, z2 | ResetFrom(r.mem, m2)
      ensures Boots(StartAt(Word(r.mem, VECTOR), m2, reg2, z2), m, segs, entry, args, argc, argv)
    {
      BootsAfterReset(segs, m, entry, args, argc, argv, r.mem, m2, reg2, z2);
    }
  }

  lemma WithWorkaround(segs: seq<Piece>)
    ensures Loaded(segs).workaround
  {
    LoadedMirrors(segs, _ => 0);
  }

  /** For RAM segments nothing more is needed. */
  lemma RamBoots(segs: seq<Piece>, m: Mem, entry: nat, reg: int -> int, z: bool, n: nat) returns (r: Cpu)
    requires InRam(segs) && entry < WORD
    ensures var m1 := ExecuteAll(m, LoadCommands(segs, entry, Piece(0, []), 0, 0));
            && Run(StartAt(FixupEntry(Loaded(segs), entry), m1, reg, z), 12 + n) == Running(r)
            && Word(r.mem, 0xe000_ed0c) == 0x05fa_0004
    ensures forall m2, reg2, z2 :: ResetFrom(r.mem, m2) ==>
              Boots(StartAt(Word(r.mem, 0xfc_010c), m2, reg2, z2), m, segs, entry, Piece(0, []), 0, 0)
  {
    hide Run, ExecuteAll, LoadCommands, Loaded, Fits, StageStart, StageEnd, Word, ResetFrom, Boots, FixupEntry, InRam;
    RamSegmentsFit(segs, entry, 0, 0);
    r := BootsProgram(segs, m, entry, Piece(0, []), 0, 0, reg, z, n);
  }
}
