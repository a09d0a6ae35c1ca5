/**
 * Loading RAM segments: the workaround preserves every image that lies in RAM, whatever its segments.
 */
module BootRam {
  import opened Bytes
  import opened Thumb
  import opened BootCommand
  import opened BootStream
  import opened BootImage

  const RAM_START := 0x40000
  const RAM_END := 0xc0000

  predicate InRam(segs: seq<Piece>) {
    forall i :: 0 <= i < |segs| ==> RAM_START <= segs[i].addr && segs[i].addr + |segs[i].data| <= RAM_END
  }

  predicate EndBy(ps: seq<Piece>, limit: nat) {
    forall i :: 0 <= i < |ps| ==> ps[i].addr + |ps[i].data| <= limit
  }

  // ---- How high a load can reach ----

  lemma {:induction false} PlaceEndsBy(addr: nat, chunks: seq<seq<byte>>, limit: nat)
    requires addr + |Concat(chunks)| <= limit
    ensures EndBy(Place(addr, chunks), limit)
    decreases |chunks|
  {
    if chunks != [] {
      PlaceEndsBy(addr + |chunks[0]|, chunks[1..], limit);
    }
  }

  lemma {:induction false} LoadEndsBy(segs: seq<Piece>, limit: nat)
    requires EndBy(segs, limit)
    ensures EndBy(LoadPieces(segs), limit)
  {
    if segs != [] {
      var s := segs[|segs| - 1];
      LoadEndsBy(segs[..|segs| - 1], limit);
      PlaceEndsBy(s.addr, Chunks(s.data, CHUNK), limit);
    }
  }

  lemma {:induction false} TopBy(cs: seq<Command>, ps: seq<Piece>, limit: nat)
    requires Top(cs) <= limit && EndBy(ps, limit)
    ensures Top(cs + WritesOf(ps)) <= limit
  {
    if ps == [] {
      assert cs + WritesOf(ps) == cs;
    } else {
      var init := ps[..|ps| - 1];
      TopBy(cs, init, limit);
      var all := cs + WritesOf(ps);
      assert all[..|all| - 1] == cs + WritesOf(init);
    }
  }

  lemma {:induction false} WriteAllTop(v: View, ps: seq<Piece>, limit: nat)
    requires Top(v.cmds) <= limit && EndBy(ps, limit)
    ensures Top(WriteAll(v, ps).cmds) <= limit
  {
    hide Top, HeldBack;
    if ps != [] {
      var p := ps[|ps| - 1];
      WriteAllTop(v, ps[..|ps| - 1], limit);
      TopBy(WriteAll(v, ps[..|ps| - 1]).cmds, Outside(v.workaround, p), limit);
      SameWorkaround(v, ps[..|ps| - 1]);
    }
  }

  lemma {:induction false} SameWorkaround(v: View, ps: seq<Piece>)
    ensures WriteAll(v, ps).workaround == v.workaround
  {
    if ps != [] {
      SameWorkaround(v, ps[..|ps| - 1]);
    }
  }

  /** With all segments in RAM, the staging area and the trampoline fit the address space. */
  lemma RamSegmentsFit(segs: seq<Piece>, entry: nat, argc: nat, argv: nat)
    requires InRam(segs) && entry < WORD && argc < WORD && argv < WORD
    ensures Fits(segs, entry, argc, argv)
    ensures StageEnd(Loaded(segs)) <= RAM_END + 0x100 + 0x10000
  {
    hide LoadPieces, WriteAll, Top, Mirrors;
    LoadEndsBy(segs, RAM_END);
    NoTop();
    WriteAllTop(View(true, [], []), LoadPieces(segs), RAM_END);
    var v := Loaded(segs);
    HeldBackFits(segs);
    StageGeometry(v);
    assert StageStart(v) < RAM_END + 0x100;
  }

  lemma NoTop()
    ensures Top([]) == 0
  {
  }

  lemma HeldBackFits(segs: seq<Piece>)
    ensures |Loaded(segs).bank3| <= BANK3_END - BANK3_START
  {
    LoadedMirrors(segs, _ => 0);
  }

  lemma {:induction false} RamIsResident(segs: seq<Piece>)
    requires InRam(segs)
    ensures Resident(segs) == segs
  {
    hide Resident, InRam;
    if segs == [] {
      NoneResident();
    } else {
      var n := |segs| - 1;
      InRamPrefix(segs, n);
      RamIsResident(segs[..n]);
      OneMoreResident(segs, n);
      assert segs == segs[..n] + [segs[n]];
    }
  }

  lemma NoneResident()
    ensures Resident([]) == []
  {
  }

  lemma InRamPrefix(segs: seq<Piece>, n: nat)
    requires InRam(segs) && n < |segs|
    ensures InRam(segs[..n]) && !IsVirtualAddress(segs[n].addr)
  {
  }

  lemma OneMoreResident(segs: seq<Piece>, n: nat)
    requires |segs| == n + 1 && !IsVirtualAddress(segs[n].addr)
    ensures Resident(segs) == Resident(segs[..n]) + [segs[n]]
  {
  }

  /**
   * For every list of RAM segments, every initial memory and every content that the reset leaves in bank 3:
   * once the device has executed the commands of the load and the trampoline has run, every octet covered by
   * a segment is what a direct load gives, and the program is entered.
   */
  lemma RamImagePreserved(segs: seq<Piece>, m: Mem, entry: nat, m2: Mem, reg: int -> int, z: bool) returns (d: Cpu)
    requires InRam(segs) && entry < WORD
    requires AfterReset(ExecuteAll(m, LoadCommands(segs, entry, Piece(0, []), 0, 0)), m2)
    ensures var v := Loaded(segs);
            Run(Cpu(reg, z, true, StageEnd(v), m2), 5 * ((StageEnd(v) - StageStart(v)) / 4) + 8) == Running(d)
    ensures forall x {:trigger Covered(segs, x)} :: Covered(segs, x) ==> d.mem(x) == Direct(m, segs)(x)
    ensures d.pc == entry - entry % 2 && d.thumb == (entry % 2 == 1) && d.reg(0) == d.reg(1) == 0
  {
    hide LoadCommands, Run, ExecuteAll, Direct, Resident, StageStart, StageEnd, Loaded, Covered, Fits, AfterReset;
    RamSegmentsFit(segs, entry, 0, 0);
    RamIsResident(segs);
    d := LoadPreservesImage(segs, m, entry, Piece(0, []), 0, 0, m2, reg, z);
  }
}
