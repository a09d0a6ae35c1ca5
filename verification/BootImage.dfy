/**
 * The bank 3 workaround leaves the same memory image as loading the segments directly.
 */
module BootImage {
  import opened Bytes
  import opened Thumb
  import opened ThumbReset
  import opened BootCommand
  import opened BootArgs
  import opened BootStream

  /** Memory after storing the pieces in order, as a loader without the workaround would. */
  function Direct(m: Mem, ps: seq<Piece>): Mem {
    if ps == [] then m
    else Store(Direct(m, ps[..|ps| - 1]), ps[|ps| - 1].addr, ps[|ps| - 1].data)
  }

  /** The image of `ps`, divided between what has been written and what is held back. */
  ghost predicate Mirrors(v: View, m: Mem, ps: seq<Piece>) {
    && |v.bank3| <= BANK3_END - BANK3_START
    && (forall x {:trigger Direct(m, ps)(x)} :: !InBank3(x) ==> ExecuteAll(m, v.cmds)(x) == Direct(m, ps)(x))
    && (forall x {:trigger Covered(ps, x)} :: InBank3(x) && Covered(ps, x) ==>
          x - BANK3_START < |v.bank3| && v.bank3[x - BANK3_START] == Direct(m, ps)(x))
    && (forall x {:trigger Written(v.cmds, x)} {:trigger Covered(ps, x)} ::
          Written(v.cmds, x) <==> Covered(ps, x) && !InBank3(x))
  }

  lemma ExecuteOne(m: Mem, cs: seq<Command>, p: Piece)
    ensures ExecuteAll(m, cs + [WriteOf(p)]) == Store(ExecuteAll(m, cs), p.addr, p.data)
  {
    assert (cs + [WriteOf(p)])[..|cs|] == cs;
  }

  lemma {:induction false} ExecuteWrites(m: Mem, cs: seq<Command>, ps: seq<Piece>)
    ensures ExecuteAll(m, cs + WritesOf(ps)) == Direct(ExecuteAll(m, cs), ps)
  {
    if ps == [] {
      assert cs + WritesOf(ps) == cs;
    } else {
      var n := |ps| - 1;
      ExecuteWrites(m, cs, ps[..n]);
      assert cs + WritesOf(ps) == (cs + WritesOf(ps[..n])) + [WriteOf(ps[n])];
      hide ExecuteAll, Store;
      ExecuteOne(m, cs + WritesOf(ps[..n]), ps[n]);
    }
  }

  /** Splitting off bank 3 loses nothing outside it and writes nothing inside it. */
  lemma OutsideMemory(m: Mem, p: Piece, x: int)
    ensures Direct(m, Outside(true, p))(x) == if !InBank3(x) then Store(m, p.addr, p.data)(x) else m(x)
  {
    var ps := Outside(true, p);
    assert |ps| <= 2;
    if |ps| == 1 {
      DirectOne(m, ps[0]);
    } else if |ps| == 2 {
      assert ps == [ps[0]] + [ps[1]];
      DirectOne(m, ps[0]);
      DirectSnoc(m, [ps[0]], ps[1]);
    }
  }

  lemma OutsideCovers(p: Piece, x: int)
    ensures Covered(Outside(true, p), x) <==> p.Has(x) && !InBank3(x)
  {
    var ps := Outside(true, p);
    if p.Has(x) && !InBank3(x) {
      if x < BANK3_START || !Diverts(true, p) {
        assert ps[0].Has(x);
      } else {
        assert ps[|ps| - 1].Has(x);
      }
    }
  }

  lemma DirectOne(m: Mem, p: Piece)
    ensures Direct(m, [p]) == Store(m, p.addr, p.data)
  {
    assert [p][..0] == [];
  }

  lemma DirectSnoc(m: Mem, ps: seq<Piece>, p: Piece)
    ensures Direct(m, ps + [p]) == Store(Direct(m, ps), p.addr, p.data)
  {
    assert (ps + [p])[..|ps|] == ps;
  }

  lemma CoveredAppend(ps: seq<Piece>, p: Piece, x: int)
    ensures Covered(ps + [p], x) <==> Covered(ps, x) || p.Has(x)
  {
    if Covered(ps, x) {
      var i :| 0 <= i < |ps| && ps[i].Has(x);
      assert (ps + [p])[i].Has(x);
    }
    assert (ps + [p])[|ps|] == p;
  }

  lemma WrittenAppend(cs: seq<Command>, ps: seq<Piece>, x: int)
    ensures Written(cs + WritesOf(ps), x) <==> Written(cs, x) || Covered(ps, x)
  {
    var all := cs + WritesOf(ps);
    if Written(cs, x) {
      var i :| 0 <= i < |cs| && cs[i].op == WRITE && cs[i].addr <= x < cs[i].addr + |cs[i].data|;
      assert all[i] == cs[i];
    }
    if Covered(ps, x) {
      var i :| 0 <= i < |ps| && ps[i].Has(x);
      assert all[|cs| + i] == WriteOf(ps[i]);
    }
    if Written(all, x) {
      var i :| 0 <= i < |all| && all[i].op == WRITE && all[i].addr <= x < all[i].addr + |all[i].data|;
      if i >= |cs| {
        assert all[i] == WriteOf(ps[i - |cs|]) && ps[i - |cs|].Has(x);
      }
    }
  }

  // One write keeps the division of the image: outside bank 3, in bank 3, and in what is covered.

  lemma KeepsOutside(v: View, m: Mem, ps: seq<Piece>, p: Piece, x: int)
    requires v.workaround && p.data != [] && !InBank3(x) && ExecuteAll(m, v.cmds)(x) == Direct(m, ps)(x)
    ensures ExecuteAll(m, Write(v, p).cmds)(x) == Direct(m, ps + [p])(x)
  {
    hide ExecuteAll, Direct, Outside, HeldBack, WritesOf, Store;
    ExecuteWrites(m, v.cmds, Outside(true, p));
    OutsideMemory(ExecuteAll(m, v.cmds), p, x);
    DirectSnoc(m, ps, p);
    StorePointwise(ExecuteAll(m, v.cmds), Direct(m, ps), p.addr, p.data, x);
  }

  lemma KeepsHeld(v: View, m: Mem, ps: seq<Piece>, p: Piece, x: int)
    requires v.workaround && p.data != [] && InBank3(x) && Covered(ps + [p], x)
    requires Covered(ps, x) ==> x - BANK3_START < |v.bank3| && v.bank3[x - BANK3_START] == Direct(m, ps)(x)
    ensures var w := Write(v, p);
            x - BANK3_START < |w.bank3| && w.bank3[x - BANK3_START] == Direct(m, ps + [p])(x)
  {
    hide Direct, Outside, HeldBack, Covered, WritesOf;
    CoveredAppend(ps, p, x);
    HeldBackAt(v.bank3, p, x);
    DirectSnoc(m, ps, p);
  }

  lemma KeepsCoverage(v: View, ps: seq<Piece>, p: Piece, x: int)
    requires v.workaround && p.data != [] && (Written(v.cmds, x) <==> Covered(ps, x) && !InBank3(x))
    ensures Written(Write(v, p).cmds, x) <==> Covered(ps + [p], x) && !InBank3(x)
  {
    hide Outside, HeldBack, Covered, Written, WritesOf;
    OutsideCovers(p, x);
    CoveredAppend(ps, p, x);
    WrittenAppend(v.cmds, Outside(true, p), x);
  }

  lemma HeldBackSize(bank3: seq<byte>, p: Piece)
    requires |bank3| <= BANK3_END - BANK3_START
    ensures |HeldBack(true, bank3, p)| <= BANK3_END - BANK3_START
  {
  }

  lemma EmptyMirrors(v: View, m: Mem, ps: seq<Piece>, p: Piece)
    requires Mirrors(v, m, ps) && p.data == []
    ensures Mirrors(v, m, ps + [p])
  {
    DirectSnoc(m, ps, p);
    forall x ensures Direct(m, ps + [p])(x) == Direct(m, ps)(x) && (Covered(ps + [p], x) <==> Covered(ps, x)) {
      CoveredAppend(ps, p, x);
    }
    hide Direct, Covered, Written, ExecuteAll;
  }

  /** One write keeps the division of the image. */
  lemma WriteMirrors(v: View, m: Mem, ps: seq<Piece>, p: Piece)
    requires v.workaround && Mirrors(v, m, ps)
    ensures Mirrors(Write(v, p), m, ps + [p])
  {
    hide ExecuteAll, Direct, Outside, HeldBack, Covered, Written, WritesOf;
    if p.data == [] {
      EmptyMirrors(v, m, ps, p);
      return;
    }
    var w, qs := Write(v, p), ps + [p];
    HeldBackSize(v.bank3, p);
    forall x | !InBank3(x) ensures ExecuteAll(m, w.cmds)(x) == Direct(m, qs)(x) {
      assert Direct(m, ps)(x) == ExecuteAll(m, v.cmds)(x);
      KeepsOutside(v, m, ps, p, x);
    }
    forall x | InBank3(x) && Covered(qs, x)
      ensures x - BANK3_START < |w.bank3| && w.bank3[x - BANK3_START] == Direct(m, qs)(x)
    {
      KeepsHeld(v, m, ps, p, x);
    }
    forall x ensures Written(w.cmds, x) <==> Covered(qs, x) && !InBank3(x) {
      KeepsCoverage(v, ps, p, x);
    }
  }

  lemma HeldBackAt(bank3: seq<byte>, p: Piece, x: int)
    requires InBank3(x) && p.data != []
    ensures var b, i := HeldBack(true, bank3, p), x - BANK3_START;
            && (p.Has(x) ==> i < |b| && b[i] == p.data[x - p.addr])
            && (!p.Has(x) && i < |bank3| ==> i < |b| && b[i] == bank3[i])
  {
  }

  lemma {:induction false} WriteAllMirrors(v: View, m: Mem, ps: seq<Piece>, qs: seq<Piece>)
    requires v.workaround && Mirrors(v, m, ps)
    ensures Mirrors(WriteAll(v, qs), m, ps + qs)
    ensures WriteAll(v, qs).workaround
  {
    if qs == [] {
      assert ps + qs == ps;
    } else {
      var n := |qs| - 1;
      WriteAllMirrors(v, m, ps, qs[..n]);
      WriteMirrors(WriteAll(v, qs[..n]), m, ps + qs[..n], qs[n]);
      assert (ps + qs[..n]) + [qs[n]] == ps + qs;
    }
  }

  // ---- Chunks and segments ----

  lemma {:induction false} DirectAppend(m: Mem, ps: seq<Piece>, qs: seq<Piece>)
    ensures Direct(m, ps + qs) == Direct(Direct(m, ps), qs)
  {
    if qs == [] {
      assert ps + qs == ps;
    } else {
      DirectAppend(m, ps, qs[..|qs| - 1]);
      assert (ps + qs)[..|ps + qs| - 1] == ps + qs[..|qs| - 1];
    }
  }

  lemma {:induction false} CoveredConcat(ps: seq<Piece>, qs: seq<Piece>, x: int)
    ensures Covered(ps + qs, x) <==> Covered(ps, x) || Covered(qs, x)
  {
    if qs == [] {
      assert ps + qs == ps;
    } else {
      var n := |qs| - 1;
      CoveredConcat(ps, qs[..n], x);
      assert ps + qs == (ps + qs[..n]) + [qs[n]] && qs == qs[..n] + [qs[n]];
      CoveredAppend(ps + qs[..n], qs[n], x);
      CoveredAppend(qs[..n], qs[n], x);
    }
  }

  /** Storing a piece chunk by chunk is storing it whole. */
  lemma {:induction false} ChunksStoreWhole(m: Mem, addr: nat, chunks: seq<seq<byte>>, x: int)
    ensures Direct(m, Place(addr, chunks))(x) == Store(m, addr, Concat(chunks))(x)
    ensures Covered(Place(addr, chunks), x) <==> Piece(addr, Concat(chunks)).Has(x)
    decreases |chunks|
  {
    if chunks != [] {
      hide Store;
      var p, next := Piece(addr, chunks[0]), addr + |chunks[0]|;
      var rest := Place(next, chunks[1..]);
      DirectAppend(m, [p], rest);
      DirectOne(m, p);
      ChunksStoreWhole(Store(m, addr, chunks[0]), next, chunks[1..], x);
      StoreAppend(m, addr, chunks[0], Concat(chunks[1..]), x);
      CoveredConcat([p], rest, x);
      assert [] + [p] == [p];
      CoveredAppend([], p, x);
    }
  }

  lemma StoreAppend(m: Mem, a: int, d: seq<byte>, e: seq<byte>, x: int)
    ensures Store(Store(m, a, d), a + |d|, e)(x) == Store(m, a, d + e)(x)
  {
  }

  /** The segments that are loaded. */
  function Resident(segs: seq<Piece>): seq<Piece> {
    if segs == [] then []
    else Resident(segs[..|segs| - 1]) + if IsVirtualAddress(segs[|segs| - 1].addr) then [] else [segs[|segs| - 1]]
  }

  lemma {:induction false} SegmentsStoreWhole(m: Mem, segs: seq<Piece>, x: int)
    ensures Direct(m, LoadPieces(segs))(x) == Direct(m, Resident(segs))(x)
    ensures Covered(LoadPieces(segs), x) <==> Covered(Resident(segs), x)
  {
    if segs != [] {
      var init, s := segs[..|segs| - 1], segs[|segs| - 1];
      SegmentsStoreWhole(m, init, x);
      if IsVirtualAddress(s.addr) {
        assert LoadPieces(segs) == LoadPieces(init) && Resident(segs) == Resident(init);
      } else {
        DirectAppend(m, LoadPieces(init), ChunkPieces(s));
        ChunksStoreWhole(Direct(m, LoadPieces(init)), s.addr, Chunks(s.data, CHUNK), x);
        CoveredConcat(LoadPieces(init), ChunkPieces(s), x);
        CoveredAppend(Resident(init), s, x);
        assert Resident(segs)[..|Resident(init)|] == Resident(init);
      }
    }
  }

  /** Some segment outside the virtual addresses has `x`. */
  ghost predicate InSegment(segs: seq<Piece>, x: int) {
    exists i :: 0 <= i < |segs| && (segs[i].addr < 0x100000 || segs[i].addr >= 0xfc0000) && segs[i].Has(x)
  }

  /** Which addresses are loaded. */
  lemma {:induction false} LoadCovers(segs: seq<Piece>, x: int)
    ensures Covered(LoadPieces(segs), x) <==> InSegment(segs, x)
    ensures Covered(Resident(segs), x) <==> InSegment(segs, x)
  {
    hide Covered, InSegment, Resident, LoadPieces;
    SegmentsStoreWhole(_ => 0, segs, x);
    if segs == [] {
      NothingResident(x);
    } else {
      var init, s := segs[..|segs| - 1], segs[|segs| - 1];
      LoadCovers(init, x);
      InSegmentSnoc(init, s, x);
      assert segs == init + [s];
      ResidentSnoc(init, s);
      CoveredAppend(Resident(init), s, x);
    }
  }

  lemma ResidentSnoc(segs: seq<Piece>, s: Piece)
    ensures Resident(segs + [s]) ==
            if s.addr < 0x100000 || s.addr >= 0xfc0000 then Resident(segs) + [s] else Resident(segs)
  {
    var all := segs + [s];
    assert all[..|segs|] == segs;
    assert Resident(segs) + [] == Resident(segs);
  }

  lemma NothingResident(x: int)
    ensures !Covered(Resident([]), x) && !InSegment([], x)
  {
  }

  lemma InSegmentSnoc(segs: seq<Piece>, s: Piece, x: int)
    ensures InSegment(segs + [s], x) <==> InSegment(segs, x) || ((s.addr < 0x100000 || s.addr >= 0xfc0000) && s.Has(x))
  {
    var all := segs + [s];
    assert all[|segs|] == s;
    if InSegment(segs, x) {
      var i :| 0 <= i < |segs| && (segs[i].addr < 0x100000 || segs[i].addr >= 0xfc0000) && segs[i].Has(x);
      assert all[i] == segs[i];
    }
  }

  /** The direct load, one segment at a time. */
  lemma DirectStep(m: Mem, segs: seq<Piece>, s: Piece, x: int)
    ensures Direct(m, Resident(segs + [s]))(x) ==
            if (s.addr < 0x100000 || s.addr >= 0xfc0000) && s.Has(x) then s.data[x - s.addr] else Direct(m, Resident(segs))(x)
  {
    hide Resident;
    ResidentSnoc(segs, s);
    DirectSnoc(m, Resident(segs), s);
  }

  /** A direct load leaves alone what no loaded segment has. */
  lemma {:induction false} DirectElsewhere(m: Mem, segs: seq<Piece>, x: int)
    requires !InSegment(segs, x)
    ensures Direct(m, Resident(segs))(x) == m(x)
  {
    if segs != [] {
      var init, s := segs[..|segs| - 1], segs[|segs| - 1];
      assert segs == init + [s];
      InSegmentSnoc(init, s, x);
      hide InSegment, Direct, Resident;
      DirectElsewhere(m, init, x);
      DirectStep(m, init, s, x);
    }
  }

  /** A direct load leaves the octet of the last loaded segment that has the address. */
  lemma {:induction false} LastSegmentWins(m: Mem, segs: seq<Piece>, i: nat, x: int)
    requires i < |segs| && (segs[i].addr < 0x100000 || segs[i].addr >= 0xfc0000) && segs[i].Has(x)
    requires !InSegment(segs[i + 1..], x)
    ensures Direct(m, Resident(segs))(x) == segs[i].data[x - segs[i].addr]
    decreases |segs|
  {
    var init, s := segs[..|segs| - 1], segs[|segs| - 1];
    assert segs == init + [s];
    assert i < |init| ==> segs[i + 1..] == init[i + 1..] + [s];
    hide InSegment, Direct, Resident;
    DirectStep(m, init, s, x);
    if i < |init| {
      InSegmentSnoc(init[i + 1..], s, x);
      LastSegmentWins(m, init, i, x);
    }
  }

  /** Which addresses the commands of a load write. */
  lemma LoadWrites(workaround: bool, segs: seq<Piece>, x: int)
    ensures Written(WriteAll(View(workaround, [], []), LoadPieces(segs)).cmds, x) <==>
            InSegment(segs, x) && !(workaround && 0x70000 <= x < 0x80000)
  {
    hide Covered, Written, WriteAll, LoadPieces, InSegment;
    LoadCovers(segs, x);
    if workaround {
      LoadedMirrors(segs, _ => 0);
    } else {
      PlainWrites(View(false, [], []), LoadPieces(segs), x);
      NothingWrittenYet(x);
    }
  }

  lemma NothingWrittenYet(x: int)
    ensures !Written([], x)
  {
  }

  lemma {:induction false} PlainWrites(v: View, ps: seq<Piece>, x: int)
    requires !v.workaround
    ensures !WriteAll(v, ps).workaround
    ensures Written(WriteAll(v, ps).cmds, x) <==> Written(v.cmds, x) || Covered(ps, x)
  {
    if ps == [] {
      assert !Covered(ps, x);
    } else {
      var init, p := ps[..|ps| - 1], ps[|ps| - 1];
      var w := WriteAll(v, init);
      hide Written, Covered;
      PlainWrites(v, init, x);
      assert ps == init + [p];
      CoveredAppend(init, p, x);
      if p.data != [] {
        WrittenAppend(w.cmds, [p], x);
        assert [] + [p] == [p];
        CoveredAppend([], p, x);
        NothingResident(x);
      }
    }
  }

  // ---- The fixup ----

  /** Writes above bank 3 go out as they are. */
  lemma {:induction false} HighWrites(v: View, ps: seq<Piece>)
    requires forall i :: 0 <= i < |ps| ==> ps[i].addr >= BANK3_END && ps[i].data != []
    ensures WriteAll(v, ps) == v.(cmds := v.cmds + WritesOf(ps))
  {
    if ps == [] {
      assert v.cmds + WritesOf(ps) == v.cmds;
    } else {
      var n := |ps| - 1;
      HighWrites(v, ps[..n]);
      assert (v.cmds + WritesOf(ps[..n])) + WritesOf([ps[n]]) == v.cmds + WritesOf(ps);
    }
  }

  lemma {:induction false} PlaceShape(addr: nat, chunks: seq<seq<byte>>, i: nat)
    requires i < |chunks|
    ensures Place(addr, chunks)[i].addr >= addr && Place(addr, chunks)[i].data == chunks[i]
    decreases |chunks|
  {
    if i > 0 {
      PlaceShape(addr + |chunks[0]|, chunks[1..], i - 1);
    }
  }

  lemma FixupIsHigh(v: View, entry: nat, argc: nat, argv: nat)
    ensures WriteAll(v, FixupPieces(v, entry, argc, argv))
         == v.(cmds := v.cmds + WritesOf(FixupPieces(v, entry, argc, argv)))
  {
    var ps := FixupPieces(v, entry, argc, argv);
    forall i | 0 <= i < |ps| ensures ps[i].addr >= BANK3_END && ps[i].data != [] {
      if i < |ps| - 1 {
        PlaceShape(StageStart(v), Chunks(v.bank3, CHUNK), i);
      }
    }
    HighWrites(v, ps);
  }

  /** The trampoline that the fixup of `v` appends. */
  function FixupTrampoline(v: View, entry: nat, argc: nat, argv: nat): seq<byte> {
    Trampoline(StageEnd(v), BANK3_START, StageStart(v), StageEnd(v) - StageStart(v), entry, argc, argv)
  }

  /** Memory after the fixup: the staged data and the trampoline, above everything else. */
  lemma FixupMemory(v: View, m: Mem, entry: nat, argc: nat, argv: nat, x: int)
    requires v.workaround
    ensures ExecuteAll(m, Fixup(v, entry, argc, argv).cmds)(x)
         == Store(Store(ExecuteAll(m, v.cmds), StageStart(v), v.bank3),
                  StageEnd(v), FixupTrampoline(v, entry, argc, argv))(x)
  {
    hide ExecuteAll, Store, FixupTrampoline, FixupPieces, Fixup, StageStart, StageEnd, ChunkPieces, Direct;
    FixupParts(v, entry, argc, argv);
    ExecuteWrites(m, v.cmds, FixupPieces(v, entry, argc, argv));
    StagedStore(ExecuteAll(m, v.cmds), StageStart(v), v.bank3, StageEnd(v), FixupTrampoline(v, entry, argc, argv), x);
  }

  lemma FixupParts(v: View, entry: nat, argc: nat, argv: nat)
    requires v.workaround
    ensures FixupPieces(v, entry, argc, argv)
         == ChunkPieces(Piece(StageStart(v), v.bank3)) + [Piece(StageEnd(v), FixupTrampoline(v, entry, argc, argv))]
    ensures Fixup(v, entry, argc, argv) == v.(cmds := v.cmds + WritesOf(FixupPieces(v, entry, argc, argv)))
  {
    hide WriteAll, WritesOf, FixupPieces, FixupTrampoline, StageStart, StageEnd, ChunkPieces;
    FixupIsHigh(v, entry, argc, argv);
    StagedPieces(v, entry, argc, argv);
  }

  lemma StagedPieces(v: View, entry: nat, argc: nat, argv: nat)
    ensures FixupPieces(v, entry, argc, argv)
         == ChunkPieces(Piece(StageStart(v), v.bank3)) + [Piece(StageEnd(v), FixupTrampoline(v, entry, argc, argv))]
  {
    hide StageStart, StageEnd, ChunkPieces, Trampoline;
  }

  lemma StagedStore(m: Mem, start: nat, data: seq<byte>, end: nat, t: seq<byte>, x: int)
    ensures Direct(m, ChunkPieces(Piece(start, data)) + [Piece(end, t)])(x) == Store(Store(m, start, data), end, t)(x)
  {
    DirectSnoc(m, ChunkPieces(Piece(start, data)), Piece(end, t));
    ChunksStoreWhole(m, start, Chunks(data, CHUNK), x);
  }

  /** The staged data and the trampoline are in place in `m`. */
  ghost predicate Staged(v: View, m: Mem, entry: nat, argc: nat, argv: nat) {
    && Holds(m, StageStart(v), v.bank3)
    && Holds(m, StageEnd(v), FixupTrampoline(v, entry, argc, argv))
  }

  lemma TableWord(m: Mem, base: nat, t: seq<byte>, o: nat, w: nat)
    requires Holds(m, base, t) && o + 4 <= |t| && t[o..o + 4] == ToLE(w, 4) && w < WORD
    ensures Word(m, base + o) == w
  {
    HeldWord(m, base, t, o, w);
  }

  /** The trampoline's copy loop is well set up: it ends, inside bank 3, without touching its source or itself. */
  lemma FixupIsReady(v: View, m: Mem, entry: nat, argc: nat, argv: nat)
    requires Staged(v, m, entry, argc, argv) && |v.bank3| <= BANK3_END - BANK3_START
    requires StageEnd(v) + TRAMPOLINE_SIZE <= WORD && entry < WORD && argc < WORD && argv < WORD
    ensures StageStart(v) % 256 == 0 && Top(v.cmds) <= StageStart(v) && BANK3_END <= StageStart(v)
    ensures var size := StageEnd(v) - StageStart(v);
            size % 4 == 0 && |v.bank3| <= size <= BANK3_END - BANK3_START && CopyReady(m, StageEnd(v), size / 4)
    ensures Word(m, StageEnd(v) + TABLE) == StageStart(v) && Word(m, StageEnd(v) + TABLE + 8) == BANK3_START
    ensures Word(m, StageEnd(v) + TABLE + 12) == entry
    ensures Word(m, StageEnd(v) + TABLE + 16) == argc && Word(m, StageEnd(v) + TABLE + 20) == argv
    ensures Word(m, StageEnd(v) + DEST) == StageEnd(v) + 1
  {
    hide Word, ToLE, Holds, Trampoline, CodeAt;
    var start, end, t := StageStart(v), StageEnd(v), FixupTrampoline(v, entry, argc, argv);
    StageGeometry(v);
    TableWord(m, end, t, 0x1c, start);
    TableWord(m, end, t, 0x20, end);
    TableWord(m, end, t, 0x24, BANK3_START);
    TableWord(m, end, t, 0x28, entry);
    TableWord(m, end, t, 0x2c, argc);
    TableWord(m, end, t, 0x30, argv);
    TableWord(m, end, t, DEST, end + 1);
    HeldCode(m, end, t);
  }

  lemma HeldCode(m: Mem, base: nat, t: seq<byte>)
    requires Holds(m, base, t) && |t| >= TABLE && t[..TABLE] == COPY_CODE
    ensures CodeAt(m, base)
  {
    assert forall i :: 0 <= i < TABLE ==> t[i] == t[..TABLE][i];
  }

  lemma StageGeometry(v: View)
    requires |v.bank3| <= BANK3_END - BANK3_START
    ensures StageStart(v) % 256 == 0 && StageEnd(v) % 4 == 0
    ensures Top(v.cmds) <= StageStart(v) && BANK3_END <= StageStart(v)
    ensures var size := StageEnd(v) - StageStart(v);
            size % 4 == 0 && |v.bank3| <= size <= BANK3_END - BANK3_START
  {
    hide AlignUp, Top;
    AlignedBy4(StageStart(v));
    WholeWords(StageStart(v), StageEnd(v), |v.bank3|);
  }

  lemma AlignedBy4(n: int)
    requires n % 256 == 0
    ensures n % 4 == 0
  {
    assert n == 4 * (n / 256 * 64);
  }

  lemma WholeWords(start: int, end: int, n: int)
    requires start % 4 == 0 && end % 4 == 0 && start + n <= end < start + n + 4 && n <= BANK3_END - BANK3_START
    ensures (end - start) % 4 == 0 && end - start <= BANK3_END - BANK3_START
  {
    assert end - start == 4 * (end / 4 - start / 4);
  }

  /** Running the trampoline copies the staged data to bank 3 and enters the program. */
  lemma TrampolineRestores(v: View, m: Mem, entry: nat, argc: nat, argv: nat, reg: int -> int, z: bool)
    returns (d: Cpu)
    requires Staged(v, m, entry, argc, argv) && |v.bank3| <= BANK3_END - BANK3_START
    requires StageEnd(v) + TRAMPOLINE_SIZE <= WORD && entry < WORD && argc < WORD && argv < WORD
    ensures var words := (StageEnd(v) - StageStart(v)) / 4;
            Run(Cpu(reg, z, true, StageEnd(v), m), 5 * words + 8) == Running(d)
    ensures IsCopy(d.mem, m, StageStart(v), BANK3_START, StageEnd(v) - StageStart(v))
    ensures d.pc == entry - entry % 2 && d.thumb == (entry % 2 == 1) && d.reg(0) == argc && d.reg(1) == argv
  {
    hide Run, Word, Staged, CopyReady, IsCopy;
    FixupIsReady(v, m, entry, argc, argv);
    d := CopyRoutine(Cpu(reg, z, true, StageEnd(v), m), StageEnd(v), (StageEnd(v) - StageStart(v)) / 4);
  }

  // ---- The whole load ----

  /** A stream that has loaded the segments. */
  function Loaded(segs: seq<Piece>): View {
    WriteAll(View(true, [], []), LoadPieces(segs))
  }

  /** The commands of a load: segments, fixup, arguments. */
  function LoadCommands(segs: seq<Piece>, entry: nat, args: Piece, argc: nat, argv: nat): seq<Command> {
    Write(Fixup(Loaded(segs), entry, argc, argv), args).cmds + [Command(ARGS, argc, argv, [])]
  }

  /** Where the argument blob overlaps what is staged, it repeats it. */
  ghost predicate Repeats(v: View, entry: nat, argc: nat, argv: nat, args: Piece) {
    forall x {:trigger args.Has(x)} :: args.Has(x) ==>
      && (StageStart(v) <= x < StageStart(v) + |v.bank3| ==> args.data[x - args.addr] == v.bank3[x - StageStart(v)])
      && (StageEnd(v) <= x < StageEnd(v) + |FixupTrampoline(v, entry, argc, argv)| ==>
            args.data[x - args.addr] == FixupTrampoline(v, entry, argc, argv)[x - StageEnd(v)])
  }

  lemma LoadedMirrors(segs: seq<Piece>, m: Mem)
    ensures Loaded(segs).workaround && Mirrors(Loaded(segs), m, LoadPieces(segs))
  {
    assert [] + LoadPieces(segs) == LoadPieces(segs);
    WriteAllMirrors(View(true, [], []), m, [], LoadPieces(segs));
  }

  /** Memory outside bank 3 when the arguments have been written after the fixup. */
  lemma ArgsMemory(v: View, m: Mem, entry: nat, args: Piece, argc: nat, argv: nat, x: int)
    requires v.workaround && !InBank3(x)
    ensures ExecuteAll(m, Write(Fixup(v, entry, argc, argv), args).cmds)(x)
         == Store(Store(Store(ExecuteAll(m, v.cmds), StageStart(v), v.bank3),
                        StageEnd(v), FixupTrampoline(v, entry, argc, argv)), args.addr, args.data)(x)
  {
    hide ExecuteAll, Store, FixupTrampoline, Fixup, StageStart, StageEnd, Direct, Outside, HeldBack, WritesOf,
      FixupPieces;
    var w := Fixup(v, entry, argc, argv);
    FixupParts(v, entry, argc, argv);
    ExecuteWrites(m, w.cmds, Outside(true, args));
    OutsideMemory(ExecuteAll(m, w.cmds), args, x);
    FixupMemory(v, m, entry, argc, argv, x);
    StorePointwise(ExecuteAll(m, w.cmds), Store(Store(ExecuteAll(m, v.cmds), StageStart(v), v.bank3), StageEnd(v),
                                                FixupTrampoline(v, entry, argc, argv)), args.addr, args.data, x);
    if args.data == [] {
      StoreNothing(ExecuteAll(m, w.cmds), args.addr, x);
    }
  }

  lemma StoreNothing(m: Mem, a: int, x: int)
    ensures Store(m, a, [])(x) == m(x)
  {
  }

  lemma StorePointwise(m: Mem, n: Mem, a: int, data: seq<byte>, x: int)
    requires m(x) == n(x)
    ensures Store(m, a, data)(x) == Store(n, a, data)(x)
  {
  }

  /**
   * The argument blob is written last, over the staged data and the trampoline if it meets them: they are
   * intact exactly where it repeats them.
   */
  lemma StageSurvivesIff(v: View, m: Mem, entry: nat, args: Piece, argc: nat, argv: nat)
    requires v.workaround
    ensures Staged(v, ExecuteAll(m, Write(Fixup(v, entry, argc, argv), args).cmds), entry, argc, argv)
         <==> Repeats(v, entry, argc, argv, args)
  {
    hide ExecuteAll, FixupTrampoline, Fixup, StageStart, StageEnd, Write;
    StageBounds(v);
    var m1 := ExecuteAll(m, Write(Fixup(v, entry, argc, argv), args).cmds);
    forall x | StageStart(v) <= x
      ensures m1(x) == Store(Store(Store(ExecuteAll(m, v.cmds), StageStart(v), v.bank3),
                                   StageEnd(v), FixupTrampoline(v, entry, argc, argv)), args.addr, args.data)(x)
    {
      ArgsMemory(v, m, entry, args, argc, argv, x);
    }
    var t := FixupTrampoline(v, entry, argc, argv);
    if Staged(v, m1, entry, argc, argv) {
      forall x | args.Has(x)
        ensures StageStart(v) <= x < StageStart(v) + |v.bank3| ==>
                  args.data[x - args.addr] == v.bank3[x - StageStart(v)]
        ensures StageEnd(v) <= x < StageEnd(v) + |t| ==> args.data[x - args.addr] == t[x - StageEnd(v)]
      {
        assert StageStart(v) <= x ==> m1(x) == args.data[x - args.addr];
      }
    }
    if Repeats(v, entry, argc, argv, args) {
      forall x | StageStart(v) <= x < StageStart(v) + |v.bank3| ensures m1(x) == v.bank3[x - StageStart(v)] {
        assert args.Has(x) ==> args.data[x - args.addr] == v.bank3[x - StageStart(v)];
      }
      forall x | StageEnd(v) <= x < StageEnd(v) + |t| ensures m1(x) == t[x - StageEnd(v)] {
        assert args.Has(x) ==> args.data[x - args.addr] == t[x - StageEnd(v)];
      }
    }
  }

  /** The ARGS command at the end of a load does nothing to memory. */
  lemma LoadCommandsMemory(segs: seq<Piece>, m: Mem, entry: nat, args: Piece, argc: nat, argv: nat)
    ensures ExecuteAll(m, LoadCommands(segs, entry, args, argc, argv))
         == ExecuteAll(m, Write(Fixup(Loaded(segs), entry, argc, argv), args).cmds)
  {
    hide Loaded, Fixup, Write;
    var cs := Write(Fixup(Loaded(segs), entry, argc, argv), args).cmds;
    assert (cs + [Command(ARGS, argc, argv, [])])[..|cs|] == cs;
  }

  /** Conditions under which every address of the load has 32 bits. */
  ghost predicate Fits(segs: seq<Piece>, entry: nat, argc: nat, argv: nat) {
    StageEnd(Loaded(segs)) + TRAMPOLINE_SIZE <= WORD && entry < WORD && argc < WORD && argv < WORD
  }

  lemma WrittenBelowTop(cs: seq<Command>, x: int)
    requires Written(cs, x)
    ensures x < Top(cs)
  {
  }

  /** Below the staging area and outside bank 3, the load is the direct load with the arguments on top. */
  lemma LoadBelow(segs: seq<Piece>, m: Mem, entry: nat, args: Piece, argc: nat, argv: nat, x: int)
    requires x < StageStart(Loaded(segs)) && !InBank3(x)
    ensures ExecuteAll(m, LoadCommands(segs, entry, args, argc, argv))(x)
         == Store(Direct(m, Resident(segs)), args.addr, args.data)(x)
  {
    hide Loaded, LoadCommands, ExecuteAll, FixupTrampoline, Direct, LoadPieces, Resident, StageStart, StageEnd, Write,
      Fixup, Covered, Written;
    var v := Loaded(segs);
    StageBounds(v);
    LoadedMirrors(segs, m);
    LoadCommandsMemory(segs, m, entry, args, argc, argv);
    ArgsMemory(v, m, entry, args, argc, argv, x);
    SegmentsStoreWhole(m, segs, x);
    assert Direct(m, LoadPieces(segs))(x) == ExecuteAll(m, v.cmds)(x);
  }

  /** The reset may leave anything in bank 3 and touches nothing else. */
  ghost predicate AfterReset(m1: Mem, m2: Mem) {
    forall x {:trigger m2(x)} :: !InBank3(x) ==> m2(x) == m1(x)
  }

  /** What is staged survives the reset. */
  lemma ResetKeepsStage(v: View, m1: Mem, m2: Mem, entry: nat, argc: nat, argv: nat)
    requires Staged(v, m1, entry, argc, argv) && AfterReset(m1, m2) && |v.bank3| <= BANK3_END - BANK3_START
    ensures Staged(v, m2, entry, argc, argv)
  {
    StageGeometry(v);
    hide StageStart, StageEnd, FixupTrampoline;
  }

  /** In `d` bank 3 begins with the `n` octets staged at `start`, and the rest is as it was loaded. */
  ghost predicate Restored(d: Mem, m1: Mem, start: int, n: int) {
    forall x {:trigger d(x)} ::
      && (BANK3_START <= x < BANK3_START + n ==> d(x) == m1(start + x - BANK3_START))
      && (!InBank3(x) ==> d(x) == m1(x))
  }

  /** What the reset left in bank 3 does not matter. */
  lemma CopyAfterReset(d: Mem, m1: Mem, m2: Mem, start: int, n: int)
    requires AfterReset(m1, m2) && IsCopy(d, m2, start, BANK3_START, n)
    requires BANK3_END <= start && n <= BANK3_END - BANK3_START
    ensures Restored(d, m1, start, n)
  {
    forall x ensures BANK3_START <= x < BANK3_START + n ==> d(x) == m1(start + x - BANK3_START) {
      assert d(x) == if BANK3_START <= x < BANK3_START + n then m2(start + x - BANK3_START) else m2(x);
    }
    forall x ensures !InBank3(x) ==> d(x) == m1(x) {
      assert !InBank3(x) ==> d(x) == m2(x);
    }
  }

  /**
   * What the load is meant to leave at `x`: the segments and the arguments over them, except that arguments
   * in bank 3 are not sent.
   */
  function Meant(m: Mem, segs: seq<Piece>, args: Piece, x: int): byte {
    if InBank3(x) then Direct(m, Resident(segs))(x) else Store(Direct(m, Resident(segs)), args.addr, args.data)(x)
  }

  /** What the trampoline makes of an address outside bank 3. */
  lemma RestoredRest(segs: seq<Piece>, m: Mem, entry: nat, args: Piece, argc: nat, argv: nat, d: Mem, x: int)
    requires Restored(d, ExecuteAll(m, LoadCommands(segs, entry, args, argc, argv)), StageStart(Loaded(segs)),
                      StageEnd(Loaded(segs)) - StageStart(Loaded(segs)))
    requires !InBank3(x)
    ensures x < StageStart(Loaded(segs)) ==> d(x) == Meant(m, segs, args, x)
    ensures args.Has(x) ==> d(x) == args.data[x - args.addr]
  {
    hide LoadCommands, ExecuteAll, Direct, Resident, StageStart, StageEnd, Loaded, Mirrors, Write, Fixup,
      FixupTrampoline;
    assert d(x) == ExecuteAll(m, LoadCommands(segs, entry, args, argc, argv))(x);
    hide Restored;
    if x < StageStart(Loaded(segs)) {
      LoadBelow(segs, m, entry, args, argc, argv, x);
    }
    LoadedMirrors(segs, m);
    LoadCommandsMemory(segs, m, entry, args, argc, argv);
    ArgsMemory(Loaded(segs), m, entry, args, argc, argv, x);
  }

  /** What the trampoline makes of an address covered by a segment. */
  lemma RestoredSegment(segs: seq<Piece>, m: Mem, entry: nat, args: Piece, argc: nat, argv: nat, d: Mem, x: int)
    requires Covered(Resident(segs), x)
    requires Staged(Loaded(segs), ExecuteAll(m, LoadCommands(segs, entry, args, argc, argv)), entry, argc, argv)
    requires Restored(d, ExecuteAll(m, LoadCommands(segs, entry, args, argc, argv)), StageStart(Loaded(segs)),
                      StageEnd(Loaded(segs)) - StageStart(Loaded(segs)))
    ensures d(x) == Meant(m, segs, args, x)
  {
    hide LoadCommands, ExecuteAll, Direct, Resident, LoadPieces, StageStart, StageEnd, Loaded, FixupTrampoline, Top,
      Written, Covered;
    var v, m1 := Loaded(segs), ExecuteAll(m, LoadCommands(segs, entry, args, argc, argv));
    LoadedMirrors(segs, m);
    StageGeometry(v);
    SegmentsStoreWhole(m, segs, x);
    if InBank3(x) {
      assert d(x) == m1(StageStart(v) + x - BANK3_START) == v.bank3[x - BANK3_START];
    } else {
      WrittenBelowTop(v.cmds, x);
      RestoredRest(segs, m, entry, args, argc, argv, d, x);
    }
  }

  /** Segments and arguments are in `d` as they are meant to be, and nothing else below the staging area has changed. */
  ghost predicate Loads(d: Mem, m: Mem, segs: seq<Piece>, args: Piece) {
    && (forall x {:trigger Covered(Resident(segs), x)} :: Covered(Resident(segs), x) ==>
          d(x) == Meant(m, segs, args, x))
    && (forall x {:trigger args.Has(x)} :: args.Has(x) && !InBank3(x) ==> d(x) == args.data[x - args.addr])
    && (forall x {:trigger Meant(m, segs, args, x)} :: x < StageStart(Loaded(segs)) && !InBank3(x) ==>
          d(x) == Meant(m, segs, args, x))
  }

  lemma RestoredLoads(segs: seq<Piece>, m: Mem, entry: nat, args: Piece, argc: nat, argv: nat, d: Mem)
    requires Staged(Loaded(segs), ExecuteAll(m, LoadCommands(segs, entry, args, argc, argv)), entry, argc, argv)
    requires Restored(d, ExecuteAll(m, LoadCommands(segs, entry, args, argc, argv)), StageStart(Loaded(segs)),
                      StageEnd(Loaded(segs)) - StageStart(Loaded(segs)))
    ensures Loads(d, m, segs, args)
  {
    hide LoadCommands, ExecuteAll, Direct, Resident, StageStart, StageEnd, Loaded, Covered, Staged, Restored, Meant;
    forall x | Covered(Resident(segs), x) ensures d(x) == Meant(m, segs, args, x) {
      RestoredSegment(segs, m, entry, args, argc, argv, d, x);
    }
    forall x | !InBank3(x)
      ensures x < StageStart(Loaded(segs)) ==> d(x) == Meant(m, segs, args, x)
      ensures args.Has(x) ==> d(x) == args.data[x - args.addr]
    {
      RestoredRest(segs, m, entry, args, argc, argv, d, x);
    }
  }

  /** When the device has executed the load, data and trampoline are staged. */
  lemma LoadStages(segs: seq<Piece>, m: Mem, entry: nat, args: Piece, argc: nat, argv: nat)
    requires Repeats(Loaded(segs), entry, argc, argv, args)
    ensures Staged(Loaded(segs), ExecuteAll(m, LoadCommands(segs, entry, args, argc, argv)), entry, argc, argv)
    ensures |Loaded(segs).bank3| <= BANK3_END - BANK3_START
  {
    hide Loaded, LoadCommands, ExecuteAll, Repeats, Staged, Direct, Covered, Written;
    LoadedMirrors(segs, m);
    LoadCommandsMemory(segs, m, entry, args, argc, argv);
    StageSurvivesIff(Loaded(segs), m, entry, args, argc, argv);
  }

  /**
   * The workaround preserves the image. For every list of segments, every argument blob that spares what is
   * staged and every initial memory: let the device execute the commands of the load, let the reset leave
   * anything at all in bank 3, and then run the trampoline. It reaches the program's entry point with the
   * argument count and vector in r0 and r1, and by then every octet of every segment is where a direct load
   * would have put it, the arguments outside bank 3 are in place, and below the staging area nothing else
   * has changed outside bank 3.
   */
  lemma LoadPreservesImage(segs: seq<Piece>, m: Mem, entry: nat, args: Piece, argc: nat, argv: nat, m2: Mem,
                           reg: int -> int, z: bool)
    returns (d: Cpu)
    requires Fits(segs, entry, argc, argv) && Repeats(Loaded(segs), entry, argc, argv, args)
    requires AfterReset(ExecuteAll(m, LoadCommands(segs, entry, args, argc, argv)), m2)
    ensures var v := Loaded(segs);
            Run(Cpu(reg, z, true, StageEnd(v), m2), 5 * ((StageEnd(v) - StageStart(v)) / 4) + 8) == Running(d)
    ensures Loads(d.mem, m, segs, args)
    ensures d.pc == entry - entry % 2 && d.thumb == (entry % 2 == 1) && d.reg(0) == argc && d.reg(1) == argv
  {
    hide LoadCommands, Run, ExecuteAll, StageStart, StageEnd, Staged, IsCopy, Loaded, AfterReset, Restored, Loads,
      Repeats;
    var v, m1 := Loaded(segs), ExecuteAll(m, LoadCommands(segs, entry, args, argc, argv));
    LoadStages(segs, m, entry, args, argc, argv);
    ResetKeepsStage(v, m1, m2, entry, argc, argv);
    d := TrampolineRestores(v, m2, entry, argc, argv, reg, z);
    StageGeometry(v);
    CopyAfterReset(d.mem, m1, m2, StageStart(v), StageEnd(v) - StageStart(v));
    RestoredLoads(segs, m, entry, args, argc, argv, d.mem);
  }

  /** End to end: the program that the trampoline enters finds its arguments in r0 and r1. */
  lemma ProgramSeesArguments(segs: seq<Piece>, m: Mem, entry: nat, args: seq<seq<byte>>, out: nat, m2: Mem,
                             reg: int -> int, z: bool)
    returns (d: Cpu)
    requires args != [] && Placement(args, out) >= 0 && out < WORD
    requires forall i, j :: 0 <= i < |args| && 0 <= j < |args[i]| ==> args[i][j] != 0
    requires Fits(segs, entry, |args|, Placement(args, out) + StringSize(args))
    requires var blob := Piece(Placement(args, out), Blob(args, out, 16));
             var argv := Placement(args, out) + StringSize(args);
             && (forall x :: blob.Has(x) ==> !InBank3(x)) && Repeats(Loaded(segs), entry, |args|, argv, blob)
             && AfterReset(ExecuteAll(m, LoadCommands(segs, entry, blob, |args|, argv)), m2)
    ensures var v := Loaded(segs);
            Run(Cpu(reg, z, true, StageEnd(v), m2), 5 * ((StageEnd(v) - StageStart(v)) / 4) + 8) == Running(d)
    ensures d.pc == entry - entry % 2
    ensures IsArgv(d.mem, d.reg(0), d.reg(1), args)
  {
    hide Run, ExecuteAll, LoadCommands, Image, StageStart, StageEnd, Loaded, AlignUp, IsArgv, Covered, Direct,
      Resident, AfterReset, Repeats, Meant;
    var base := Placement(args, out);
    var blob := Piece(base, Blob(args, out, 16));
    d := LoadPreservesImage(segs, m, entry, blob, |args|, base + StringSize(args), m2, reg, z);
    LoadsHolds(d.mem, m, segs, blob);
    hide Loads;
    PlacementFits(out, TotalSize(args));
    HoldsSlice(d.mem, base, blob.data, 0, TotalSize(args));
    assert blob.data[0..0 + TotalSize(args)] == Image(args, base);
    AlignedBy4(base);
    ImageIsArgv(d.mem, args, base);
  }

  lemma LoadsHolds(d: Mem, m: Mem, segs: seq<Piece>, args: Piece)
    requires Loads(d, m, segs, args) && forall x :: args.Has(x) ==> !InBank3(x)
    ensures Holds(d, args.addr, args.data)
  {
    hide Covered, Resident, Meant;
    forall x | args.addr <= x < args.addr + |args.data| ensures d(x) == args.data[x - args.addr] {
      assert args.Has(x);
    }
  }

  /**
   * The argument blob is written after the fixup, so what of it lies in bank 3 is held back and staged by
   * nobody: the blob is sent whole exactly when none of it lies there.
   */
  lemma ArgsSentWholeIff(v: View, args: Piece)
    requires v.workaround && args.data != []
    ensures Write(v, args).cmds == v.cmds + [WriteOf(args)] <==> forall x :: args.Has(x) ==> !InBank3(x)
  {
    if Diverts(true, args) {
      var lo := Max(BANK3_START, args.addr);
      assert args.Has(lo) && InBank3(lo);
      var sent := WritesOf(Outside(true, args));
      assert forall i :: 0 <= i < |sent| ==> |sent[i].data| < |args.data|;
      assert |sent| == 1 ==> |sent[0].data| != |WriteOf(args).data|;
      assert v.cmds + sent != v.cmds + [WriteOf(args)] by {
        assert (v.cmds + sent)[|v.cmds|..] == sent;
        assert (v.cmds + [WriteOf(args)])[|v.cmds|..] == [WriteOf(args)];
      }
    } else {
      assert WritesOf([args]) == [WriteOf(args)];
    }
  }

  /** Of a blob that lies wholly in bank 3 nothing at all is sent. */
  lemma ArgsInBank3AreLost(v: View, args: Piece)
    requires v.workaround && forall x :: args.Has(x) ==> InBank3(x)
    ensures Write(v, args).cmds == v.cmds
  {
    if args.data != [] {
      assert args.Has(args.addr) && args.Has(args.addr + |args.data| - 1);
      assert WritesOf(Outside(true, args)) == [];
    }
  }

  /** Only an output address passed to the constructor by hand leads there, such as 0x78000. */
  lemma ArgsInBank3Example()
    ensures Placement([[97]], 0x78000) == 0x77f00
    ensures forall x :: Piece(0x77f00, Blob([[97]], 0x78000, 16)).Has(x) ==> InBank3(x)
  {
    hide TotalSize, Image, BlobAt;
    var args: seq<seq<byte>> := [[97]];
    OneStringSize(args);
    assert Placement(args, 0x78000) == 0x77f00;
    hide Placement, Align;
    BlobSize(args, 0x77f00);
  }

  lemma OneStringSize(args: seq<seq<byte>>)
    requires args == [[97]]
    ensures TotalSize(args) == 12
  {
    assert Strings(args) == Strings([]) + [97] + [0];
    assert |Strings(args)| == 2;
    hide Strings, AlignUp;
  }

  lemma BlobSize(args: seq<seq<byte>>, base: nat)
    requires TotalSize(args) == 12
    ensures |BlobAt(args, base, 16)| == 16
  {
    hide Image, AlignUp, TotalSize;
  }

  /**
   * The default settings lead to an overlap. With one segment that ends at 0xbff00, outside bank 3, and the
   * argument "a", trampoline and arguments both start there, and the arguments win.
   */
  lemma ArgsOverTrampolineExample(seg: Piece, m: Mem, entry: nat)
    requires BANK3_END <= seg.addr && 0 < |seg.data| <= CHUNK && seg.addr + |seg.data| == 0xbff00
    ensures var blob := Piece(Placement([[97]], 0xc0000), Blob([[97]], 0xc0000, 16));
            && StageEnd(Loaded([seg])) == blob.addr == 0xbff00
            && !Staged(Loaded([seg]), ExecuteAll(m, LoadCommands([seg], entry, blob, 1, 0xbff04)), entry, 1, 0xbff04)
  {
    hide Placement, Align, TotalSize, Loaded, LoadCommands, ExecuteAll, Write, Repeats, StageEnd, Staged, BlobAt;
    var args: seq<seq<byte>> := [[97]];
    var v, blob := Loaded([seg]), Piece(0xbff00, BlobAt(args, 0xbff00, 16));
    OneSegment(seg);
    DefaultPlacementOfOne(args);
    FirstOctets(v, args, entry);
    FirstDiffers(v, entry, 1, 0xbff04, blob);
    LoadCommandsMemory([seg], m, entry, blob, 1, 0xbff04);
    StageSurvivesIff(v, m, entry, blob, 1, 0xbff04);
  }

  lemma DefaultPlacementOfOne(args: seq<seq<byte>>)
    requires args == [[97]]
    ensures Placement(args, 0xc0000) == 0xbff00
  {
    OneStringSize(args);
    hide TotalSize, Align;
    assert Placement(args, 0xc0000) == Align(0xbfef5, 256);
    AlignedUp(0xbfef5, 0xbfe, 0xf5);
  }

  lemma AlignedUp(n: int, q: int, r: int)
    requires n == 256 * q + r && 0 < r < 256
    ensures Align(n, 256) == 256 * (q + 1)
  {
  }

  lemma FirstDiffers(v: View, entry: nat, argc: nat, argv: nat, args: Piece)
    requires args.data != [] && args.addr == StageEnd(v)
    requires args.data[0] != FixupTrampoline(v, entry, argc, argv)[0]
    ensures !Repeats(v, entry, argc, argv, args)
  {
    TrampolineSize(v, entry, argc, argv);
    hide FixupTrampoline, StageStart, StageEnd;
    assert args.Has(args.addr);
  }

  lemma OneSegment(seg: Piece)
    requires BANK3_END <= seg.addr && 0 < |seg.data| <= CHUNK && seg.addr + |seg.data| == 0xbff00
    ensures Loaded([seg]) == View(true, [WriteOf(seg)], []) && StageEnd(Loaded([seg])) == 0xbff00
  {
    var v0 := View(true, [], []);
    assert Chunks(seg.data, CHUNK) == [seg.data];
    assert ChunkPieces(seg) == [seg];
    assert [seg][..0] == [];
    assert LoadPieces([seg]) == [] + [seg];
    HighWrites(v0, [seg]);
    assert WritesOf([seg]) == [WriteOf(seg)];
    assert [WriteOf(seg)][..0] == [];
    assert Top([WriteOf(seg)]) == 0xbff00;
  }

  lemma FirstOctets(v: View, args: seq<seq<byte>>, entry: nat)
    requires args == [[97]]
    ensures var t, blob := FixupTrampoline(v, entry, 1, 0xbff04), BlobAt(args, 0xbff00, 16);
            |t| > 0 && |blob| > 0 && t[0] == 0x06 && blob[0] == 97
  {
    hide StageStart, StageEnd, ToLE;
    var t := FixupTrampoline(v, entry, 1, 0xbff04);
    assert t[0] == t[..TABLE][0] by {
      StageBounds(v);
    }
    assert Strings(args) == Strings([]) + [97] + [0];
    assert Strings(args)[0] == 97;
    hide Strings, AlignUp, TotalSize, Pointers;
    assert Image(args, 0xbff00)[0] == Strings(args)[0];
  }

  /** Without the workaround the commands of a load are a direct load. */
  lemma {:induction false} WithoutWorkaround(m: Mem, v: View, ps: seq<Piece>)
    requires !v.workaround
    ensures !WriteAll(v, ps).workaround
    ensures forall x :: ExecuteAll(m, WriteAll(v, ps).cmds)(x) == Direct(ExecuteAll(m, v.cmds), ps)(x)
  {
    if ps != [] {
      var init, p := ps[..|ps| - 1], ps[|ps| - 1];
      var w := WriteAll(v, init);
      WithoutWorkaround(m, v, init);
      if p.data != [] {
        assert WritesOf([p]) == [WriteOf(p)];
        ExecuteOne(m, w.cmds, p);
      }
    }
  }

  /**
   * The staging area and the trampoline fit in RAM exactly when the trampoline's end does; the builder
   * itself does not look.
   */
  lemma FitsInRam(v: View, entry: nat, argc: nat, argv: nat)
    requires v.workaround
    ensures (forall x :: Written(Fixup(v, entry, argc, argv).cmds, x) ==> IsRamAddress(x)) <==>
              (forall x :: Written(v.cmds, x) ==> IsRamAddress(x)) && StageEnd(v) + TRAMPOLINE_SIZE <= 0xc0000
  {
    hide Trampoline, StageStart, StageEnd, ChunkPieces, Fixup, Written, Covered;
    var start, end, w := StageStart(v), StageEnd(v), Fixup(v, entry, argc, argv);
    forall x ensures Written(w.cmds, x) <==>
        Written(v.cmds, x) || start <= x < start + |v.bank3| || end <= x < end + TRAMPOLINE_SIZE {
      FixupWrites(v, entry, argc, argv, x);
    }
    FixupWrites(v, entry, argc, argv, 0);
    assert Written(w.cmds, end + TRAMPOLINE_SIZE - 1);
  }

  /** In particular nothing fits once the last octet of RAM has been written. */
  lemma OverrunsRam(v: View, entry: nat, argc: nat, argv: nat)
    requires v.workaround && Written(v.cmds, 0xbffff)
    ensures exists x :: Written(Fixup(v, entry, argc, argv).cmds, x) && !IsRamAddress(x)
  {
    WrittenBelowTop(v.cmds, 0xbffff);
    assert StageEnd(v) >= StageStart(v) >= Top(v.cmds) > 0xbffff;
    hide StageStart, StageEnd, Fixup, Written, Top;
    FitsInRam(v, entry, argc, argv);
  }

  lemma FixupWrites(v: View, entry: nat, argc: nat, argv: nat, x: int)
    requires v.workaround
    ensures Written(Fixup(v, entry, argc, argv).cmds, x) <==>
              || Written(v.cmds, x)
              || StageStart(v) <= x < StageStart(v) + |v.bank3|
              || StageEnd(v) <= x < StageEnd(v) + TRAMPOLINE_SIZE
    ensures BANK3_END <= StageStart(v) && StageStart(v) + |v.bank3| <= StageEnd(v)
  {
    StageBounds(v);
    hide Trampoline, ChunkPieces, Fixup, FixupPieces, Written, Covered, StageStart, StageEnd, WritesOf;
    FixupParts(v, entry, argc, argv);
    var start, end := StageStart(v), StageEnd(v);
    var staged := ChunkPieces(Piece(start, v.bank3));
    var t := Piece(end, FixupTrampoline(v, entry, argc, argv));
    TrampolineSize(v, entry, argc, argv);
    hide FixupTrampoline;
    WrittenAppend(v.cmds, staged + [t], x);
    CoveredAppend(staged, t, x);
    StagedCovers(start, v.bank3, x);
  }

  lemma TrampolineSize(v: View, entry: nat, argc: nat, argv: nat)
    ensures |FixupTrampoline(v, entry, argc, argv)| == TRAMPOLINE_SIZE
  {
  }

  lemma StageBounds(v: View)
    ensures BANK3_END <= StageStart(v) && StageStart(v) + |v.bank3| <= StageEnd(v) && StageEnd(v) % 4 == 0
  {
    hide AlignUp, Top;
  }

  lemma StagedCovers(start: nat, data: seq<byte>, x: int)
    ensures Covered(ChunkPieces(Piece(start, data)), x) <==> start <= x < start + |data|
  {
    ChunksStoreWhole(_ => 0, start, Chunks(data, CHUNK), x);
  }
}
