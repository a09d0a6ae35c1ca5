/**
 * The stream object itself: every operation is proved to do to the emitted octets, the range set and the
 * held-back data exactly what the functions of `BootStream` say.
 */
module BootLoader {
  import opened Bytes
  import opened Wrappers
  import opened Thumb
  import opened BootCommand
  import opened BootArgs
  import opened BootStream
  import opened BootImage
  import MemoryMap

  class Stream {
    var buf: seq<byte>
    const bank3Workaround: bool
    const memory: MemoryMap.Memory
    var bank3Data: seq<byte>
    ghost var cmds: seq<Command>

    /** No write has overlapped an earlier one. */
    ghost predicate Clean()
      reads memory
    {
      memory.number == None
    }

    ghost predicate Valid()
      reads this`buf, this`cmds, memory
    {
      && buf == EncodeAll(cmds)
      && (forall i :: 0 <= i < |cmds| ==> cmds[i].Valid() && (cmds[i].op == WRITE ==> cmds[i].data != []))
      && (Clean() ==> MemoryMap.Normal(memory.ranges))
      && (Clean() ==> forall x :: MemoryMap.Covers(memory.ranges, x) <==> Written(cmds, x))
    }

    ghost function State(): View
      reads this
    {
      View(bank3Workaround, cmds, bank3Data)
    }

    constructor (bank3Workaround: bool)
      ensures Valid() && Clean() && fresh(memory) && this.bank3Workaround == bank3Workaround
      ensures State() == View(bank3Workaround, [], [])
    {
      this.bank3Workaround := bank3Workaround;
      memory := new MemoryMap.Memory();
      buf, bank3Data, cmds := [], [], [];
    }

    /** Nothing that `p` would write has been written before. */
    ghost predicate Fresh(p: Piece)
      reads this
    {
      Unwritten(cmds, bank3Workaround, p.addr, p.addr + |p.data|)
    }

    method Cmd(op: byte, length: nat, addr: nat) returns (n: nat)
      requires length < 0x10000 && addr < WORD
      modifies this`buf
      ensures buf == old(buf) + Command(op, length, addr, []).Header() && n == 8
    {
      buf := buf + ([SYNC, op] + ToLE(length, 2) + ToLE(addr, 4));
      return 8;
    }

    /** A command without a payload. */
    method CmdPlain(op: byte, length: nat, addr: nat) returns (n: nat)
      requires Valid() && op != WRITE && length < 0x10000 && addr < WORD
      modifies this`buf, this`cmds
      ensures Valid() && cmds == old(cmds) + [Command(op, length, addr, [])] && n == 8
    {
      n := Cmd(op, length, addr);
      ghost var c := Command(op, length, addr, []);
      EncodeAllAppend(cmds, [c]);
      assert EncodeAll([c]) == c.Header();
      PlainKeepsWritten(cmds, c);
      cmds := cmds + [c];
    }

    /** Keeps bank 3 data aside and returns the rest. */
    method Bank3MemoryRanges(p: Piece) returns (ps: seq<Piece>)
      requires p.data != []
      modifies this`bank3Data
      ensures ps == Outside(bank3Workaround, p)
      ensures bank3Data == HeldBack(bank3Workaround, old(bank3Data), p)
    {
      hide Overlay;
      ps := [];
      if bank3Workaround {
        var memStart, memEnd := p.addr, p.addr + |p.data|;
        var bank3Start, bank3End := Max(BANK3_START, memStart), Min(BANK3_END, memEnd);
        if bank3Start < bank3End {
          if memStart < bank3Start {
            ps := ps + [Piece(memStart, p.data[..bank3Start - memStart])];
          }
          bank3Data := Overlay(bank3Data, bank3Start - BANK3_START, p.data[bank3Start - memStart..bank3End - memStart]);
          if memEnd > bank3End {
            ps := ps + [Piece(bank3End, p.data[bank3End - memStart..])];
          }
          return;
        }
      }
      ps := [p];
    }

    /**
     * Writes `data`. The stream stays clean exactly when nothing is written twice, and then there is no exception.
     * Otherwise `None`, an exception, is certain after an earlier overlap; without one, a write that is not
     * divided gets through exactly when it meets nothing below the highest range.
     */
    method CmdWrite(addr: nat, data: seq<byte>) returns (total: Option<nat>)
      requires Valid() && |data| < 0x10000 && addr + |data| <= WORD
      modifies this, memory
      ensures total.Some? ==> Valid() && State() == Write(old(State()), Piece(addr, data))
      ensures total.Some? ==> Adds(old(cmds), cmds, bank3Workaround, Piece(addr, data))
      ensures total.Some? ==> total.value == |buf| - |old(buf)|
      ensures total.Some? ==> (Clean() <==> old(Clean()) && old(Fresh(Piece(addr, data))))
      ensures old(Clean()) && old(Fresh(Piece(addr, data))) ==> total.Some?
      ensures data != [] && !Diverts(bank3Workaround, Piece(addr, data)) ==>
                (total.Some? <==> old(Clean()) && BelowLastClear(old(memory.ranges), Piece(addr, data)))
    {
      hide Outside, HeldBack, EncodeAll, Written, Valid, Covered, Emittable, WritesOf, Adds, Unwritten, NoneWritten,
        BelowLastClear, Diverts, Write;
      var p := Piece(addr, data);
      WriteIs(State(), p);
      if data == [] {
        EmptyWrite(cmds, bank3Workaround, p);
        return Some(0);
      }
      PartsOfWrite(cmds, bank3Workaround, p);
      var ps := Bank3MemoryRanges(p);
      total := EmitPieces(ps);
    }

    method EmitPieces(ps: seq<Piece>) returns (total: Option<nat>)
      requires Valid() && Emittable(ps)
      modifies this`buf, this`cmds, memory
      ensures total.Some? ==> Valid() && cmds == old(cmds) + WritesOf(ps) && total.value == |buf| - |old(buf)|
      ensures total.Some? ==> (Clean() <==> old(Clean()) && NoneWritten(old(cmds), ps))
      ensures old(Clean()) && NoneWritten(old(cmds), ps) ==> total.Some?
      ensures |ps| == 1 ==> (total.Some? <==> old(Clean()) && BelowLastClear(old(memory.ranges), ps[0]))
    {
      hide EncodeAll, Written, Valid, NoneWritten, BelowLastClear;
      ghost var was := cmds;
      var n: nat := 0;
      assert was + WritesOf(ps[..0]) == was;
      NoneOfNone(was, ps);
      for k := 0 to |ps|
        invariant Valid() && cmds == was + WritesOf(ps[..k])
        invariant n == |buf| - |old(buf)|
        invariant Clean() <==> old(Clean()) && NoneWritten(was, ps[..k])
        invariant if k == 0 then memory.ranges == old(memory.ranges) && (Clean() <==> old(Clean()))
                  else old(Clean()) && BelowLastClear(old(memory.ranges), ps[0])
      {
        PieceFresh(was, ps, k);
        var t := CmdWritePiece(ps[k], was, ps[..k]);
        if t == None {
          PrefixFresh(was, ps, k + 1);
          return None;
        }
        n := n + t.value;
        assert was + WritesOf(ps[..k + 1]) == (was + WritesOf(ps[..k])) + [WriteOf(ps[k])];
      }
      assert ps[..|ps|] == ps;
      return Some(n);
    }

    /** One WRITE command with its payload, and the note of what it covers. */
    method CmdWritePiece(p: Piece, ghost was: seq<Command>, ghost before: seq<Piece>) returns (n: Option<nat>)
      requires Valid() && cmds == was + WritesOf(before) && p.data != [] && |p.data| < 0x10000 && p.addr < WORD
      requires forall x :: p.Has(x) ==> !Covered(before, x)
      modifies this`buf, this`cmds, memory
      ensures n.Some? ==> Valid() && cmds == old(cmds) + [WriteOf(p)] && n.value == |buf| - |old(buf)|
      ensures n.Some? ==> (Clean() <==> old(Clean()) && NoneWritten(was, [p]))
      ensures old(Clean()) && NoneWritten(was, [p]) ==> n.Some?
      ensures n.Some? <==> old(Clean()) && BelowLastClear(old(memory.ranges), p)
    {
      hide EncodeAll, MemoryMap.Covers, MemoryMap.Normal, MemoryMap.Clear, MemoryMap.Joined, MemoryMap.Lower,
        NoneWritten;
      var t := Cmd(WRITE, |p.data|, p.addr);
      buf := buf + p.data;
      t := t + |p.data|;
      if Clean() {
        ClearIff(memory.ranges, was, before, p);
      }
      label Adding:
      var ok := memory.Add(p.addr, p.addr + |p.data|);
      if !ok {
        return None;
      }
      if Clean() {
        JoinedIs(old@Adding(memory.ranges), memory.ranges, cmds, p);
      }
      EncodeOneMore(cmds, p);
      cmds := cmds + [WriteOf(p)];
      return Some(t);
    }

    /** Writes data in chunks at consecutive addresses. */
    method WriteChunked(addr: nat, data: seq<byte>) returns (at: Option<nat>)
      requires Valid() && addr + |data| <= WORD
      modifies this, memory
      ensures at.Some? ==> Valid() && State() == WriteAll(old(State()), ChunkPieces(Piece(addr, data)))
      ensures at.Some? ==> Adds(old(cmds), cmds, bank3Workaround, Piece(addr, data))
      ensures at.Some? ==> at.value == addr + |data|
      ensures at.Some? ==> (Clean() <==> old(Clean()) && old(Fresh(Piece(addr, data))))
      ensures old(Clean()) && old(Fresh(Piece(addr, data))) ==> at.Some?
    {
      hide EncodeAll, Written, Valid, Chunks, Concat, Write, Unwritten;
      var chunks := Chunks(data, CHUNK);
      ghost var ps, was := Place(addr, chunks), cmds;
      var end := addr;
      ConcatNone(chunks);
      NoneUnwritten(was, bank3Workaround, addr);
      for k := 0 to |chunks|
        invariant Valid() && State() == WriteAll(old(State()), ps[..k])
        invariant end == addr + |Concat(chunks[..k])|
        invariant Clean() <==> old(Clean()) && Unwritten(was, bank3Workaround, addr, end)
        invariant forall x :: Written(cmds, x) <==>
                    Written(was, x) || (addr <= x < end && !(bank3Workaround && InBank3(x)))
      {
        PlaceAt(addr, chunks, k);
        ghost var next := end + |chunks[k]|;
        NextUnwritten(was, cmds, bank3Workaround, addr, end, next, addr + |data|);
        var t := CmdWrite(end, chunks[k]);
        if t == None {
          return None;
        }
        end := end + |chunks[k]|;
        assert ps[..k + 1][..k] == ps[..k];
      }
      assert chunks[..|chunks|] == chunks && ps[..|ps|] == ps;
      return Some(end);
    }

    /** Stages the bank 3 data and appends the trampoline; returns the address to start at. */
    method Bank3Fixup(entry: nat, argc: nat, argv: nat) returns (start: Option<nat>)
      requires Valid() && |bank3Data| <= BANK3_END - BANK3_START
      requires bank3Workaround ==> StageEnd(State()) + TRAMPOLINE_SIZE <= WORD
      modifies this, memory
      ensures start.Some? <==> !bank3Workaround || old(Clean())
      ensures start.Some? ==> Valid() && (Clean() <==> old(Clean()))
      ensures start.Some? ==> State() == Fixup(old(State()), entry, argc, argv)
      ensures start.Some? ==> start.value == FixupEntry(old(State()), entry)
      ensures start.Some? && bank3Workaround ==>
                AddsWithin(old(cmds), cmds, StageStart(old(State())), StageEnd(old(State())) + TRAMPOLINE_SIZE)
    {
      hide EncodeAll, Written, Valid, Write, WriteAll, TrampolinePiece, Fixup, FixupEntry, StageStart, StageEnd, AlignUp,
        Top, ChunkPieces, AddsWithin;
      if !bank3Workaround {
        NoFixup(State(), entry, argc, argv);
        return Some(entry);
      }
      FixupSteps(State(), entry, argc, argv);
      var end := HighestEnd();
      if end == None {
        return None;
      }
      var at := StageAt(AlignUp(Max(end.value, BANK3_END), 256), entry, argc, argv);
      return Some(at + MAC_RESET);
    }

    /** Writes the staged data from `stage` on, then the trampoline on the next word boundary. */
    method StageAt(stage: nat, entry: nat, argc: nat, argv: nat) returns (end: nat)
      requires Valid() && Clean() && bank3Workaround && BANK3_END <= stage && Top(cmds) <= stage
      requires AlignUp(stage + |bank3Data|, 4) + TRAMPOLINE_SIZE <= WORD
      modifies this, memory
      ensures Valid() && Clean() && end == AlignUp(stage + |old(bank3Data)|, 4)
      ensures State() == Write(WriteAll(old(State()), ChunkPieces(Piece(stage, old(bank3Data)))),
                               TrampolinePiece(end, stage, entry, argc, argv))
      ensures AddsWithin(old(cmds), cmds, stage, end + TRAMPOLINE_SIZE)
    {
      hide EncodeAll, Written, Valid, Write, WriteAll, Trampoline, AlignUp, Top, ChunkPieces;
      forall x | Written(cmds, x) ensures x < stage {
        WrittenBelowTop(cmds, x);
      }
      var at := WriteChunked(stage, bank3Data);
      end := AlignUp(at.value, 4);
      var t := Trampoline(end, BANK3_START, stage, end - stage, entry, argc, argv);
      var _ := CmdWrite(end, t);
    }

    /** `None` is the exception that a number in the list raises. */
    method HighestEnd() returns (end: Option<nat>)
      requires Valid()
      ensures end == if Clean() then Some(Top(cmds)) else None
    {
      var top := 0;
      for k := 0 to |memory.ranges|
        invariant Clean() ==> top == RangesTop(memory.ranges[..k])
      {
        if memory.ranges[k].end > top {
          top := memory.ranges[k].end;
        }
        assert memory.ranges[..k + 1][..k] == memory.ranges[..k];
      }
      if memory.number != None {
        return None;
      }
      assert memory.ranges[..|memory.ranges|] == memory.ranges;
      SameTop(memory.ranges, cmds);
      return Some(top);
    }

    /** Writes the segments. It succeeds and leaves the stream clean exactly when they do not overlap. */
    method LoadSegments(segs: seq<Piece>) returns (ok: bool)
      requires Valid() && Clean() && State() == View(bank3Workaround, [], []) && Loadable(segs)
      modifies this, memory
      ensures ok ==> Valid() && State() == WriteAll(View(bank3Workaround, [], []), LoadPieces(segs))
      ensures ok && Clean() <==> Apart(bank3Workaround, Resident(segs))
      ensures ok ==> WritesSegments(bank3Workaround, segs, cmds)
    {
      hide EncodeAll, Valid, Write, WriteAll, ChunkPieces, Written, Covered, Apart, Resident, Unwritten, WritesSegments;
      ghost var v0 := State();
      NothingWritten(v0);
      NoneApart(bank3Workaround, segs);
      for k := 0 to |segs|
        invariant Valid() && State() == WriteAll(v0, LoadPieces(segs[..k]))
        invariant forall x :: Written(cmds, x) <==> Covered(Resident(segs[..k]), x) && !(bank3Workaround && InBank3(x))
        invariant Clean() <==> Apart(bank3Workaround, Resident(segs[..k]))
      {
        var seg := segs[k];
        NextSegment(segs, k, v0);
        NextResident(segs, k);
        if !IsVirtualAddress(seg.addr) {
          ApartNext(bank3Workaround, Resident(segs[..k]), seg, cmds);
          var t := WriteChunked(seg.addr, seg.data);
          if t == None {
            ApartPrefix(bank3Workaround, segs, k + 1);
            return false;
          }
          forall x ensures Covered(Resident(segs[..k + 1]), x) <==> Covered(Resident(segs[..k]), x) || seg.Has(x) {
            CoveredAppend(Resident(segs[..k]), seg, x);
          }
        }
      }
      assert segs[..|segs|] == segs;
      LoadWritesSegments(bank3Workaround, segs);
      return true;
    }

    /**
     * The `load` step of a boot sequence: the segments, the fixup, the argument blob and the ARGS
     * command. Returns the address to start at, or `None` if an overlap leads to an exception.
     */
    method Load(segs: seq<Piece>, entry: nat, args: BootArguments) returns (start: Option<nat>)
      requires Valid() && Clean() && State() == View(bank3Workaround, [], []) && Loadable(segs)
      requires args.outputAddress < WORD && |args.args| < 0x10000
      requires args.args != [] ==> Placement(args.args, args.outputAddress) >= 0
      requires bank3Workaround ==> StageEnd(Loaded(segs)) + TRAMPOLINE_SIZE <= WORD
      requires var blob := BlobPiece(args.args, args.outputAddress);
               |blob.data| < 0x10000 && blob.addr + |blob.data| <= WORD
      modifies this, memory, args
      ensures args.args == old(args.args)
      ensures start.Some? ==> Valid() && ParseAll(buf) == Some(cmds)
      ensures start.Some? ==> Emitted(bank3Workaround, segs, entry, BlobPiece(args.args, args.outputAddress),
                                      |args.args|, Vector(args.args, args.outputAddress), cmds, start.value)
      ensures start.Some? ==> WritesLoad(bank3Workaround, segs, BlobPiece(args.args, args.outputAddress), cmds)
      ensures start.Some? && bank3Workaround ==> Apart(true, Resident(segs))
      ensures Apart(bank3Workaround, Resident(segs)) ==>
                ArgsFresh(bank3Workaround, segs, entry, BlobPiece(args.args, args.outputAddress), |args.args|,
                          Vector(args.args, args.outputAddress)) ==>
                start.Some?
    {
      hide EncodeAll, Valid, Write, WriteAll, LoadPieces, Written, Blob, Fixup, Placement, Apart, Resident, Unwritten,
        Emitted, ArgsFresh, BlobPiece, Loaded, StageEnd, Vector, WritesSegments, WritesLoad;
      var ok := LoadSegments(segs);
      if !ok {
        return None;
      }
      EncodeDefault(args);
      start := LoadRest(segs, entry, Piece(args.loadAddress, args.blob), args.argc, args.argv);
      if start.Some? {
        EmittedWrites(bank3Workaround, segs, entry, BlobPiece(args.args, args.outputAddress), args.argc, args.argv, cmds,
                      start.value);
      }
    }

    /** What comes after the segments. */
    method LoadRest(ghost segs: seq<Piece>, entry: nat, blob: Piece, argc: nat, argv: nat) returns (start: Option<nat>)
      requires Valid() && State() == WriteAll(View(bank3Workaround, [], []), LoadPieces(segs))
      requires bank3Workaround ==> StageEnd(Loaded(segs)) + TRAMPOLINE_SIZE <= WORD
      requires |blob.data| < 0x10000 && blob.addr + |blob.data| <= WORD && argc < 0x10000 && argv < WORD
      modifies this, memory
      ensures start.Some? ==> Valid() && ParseAll(buf) == Some(cmds)
      ensures start.Some? ==> Emitted(bank3Workaround, segs, entry, blob, argc, argv, cmds, start.value)
      ensures start.Some? && bank3Workaround ==> old(Clean())
      ensures old(Clean()) && ArgsFresh(bank3Workaround, segs, entry, blob, argc, argv) ==> start.Some?
    {
      HeldBackBound(bank3Workaround, segs);
      hide Valid, Write, WriteAll, LoadPieces, Written, Fixup, Unwritten, FixupEntry, StageStart, AddsWithin;
      start := Bank3Fixup(entry, argc, argv);
      if start == None {
        return;
      }
      var ok := WriteArguments(blob, argc, argv);
      if !ok {
        return None;
      }
    }

    /** The argument blob and the ARGS command. */
    method WriteArguments(blob: Piece, argc: nat, argv: nat) returns (ok: bool)
      requires Valid() && |blob.data| < 0x10000 && blob.addr + |blob.data| <= WORD && argc < 0x10000 && argv < WORD
      modifies this, memory
      ensures ok ==> Valid() && ParseAll(buf) == Some(cmds)
      ensures ok ==> cmds == Write(old(State()), blob).cmds + [Command(ARGS, argc, argv, [])]
      ensures old(Clean()) && old(Fresh(blob)) ==> ok
    {
      hide Valid, Write, Unwritten;
      var written := CmdWrite(blob.addr, blob.data);
      if written == None {
        return false;
      }
      var _ := CmdPlain(ARGS, argc, argv);
      ParsesBack();
      return true;
    }

    /** The device reads exactly the commands that were emitted. */
    lemma ParsesBack()
      requires Valid()
      ensures ParseAll(buf) == Some(cmds)
    {
      ParseInvertsPrint(cmds);
    }
  }

  /** Nothing in [lo, hi) has been written, bank 3 apart if that is kept aside. */
  ghost predicate Unwritten(cs: seq<Command>, workaround: bool, lo: int, hi: int) {
    forall x {:trigger Written(cs, x)} :: lo <= x < hi && !(workaround && InBank3(x)) ==> !Written(cs, x)
  }

  /** The piece meets none of the ranges but perhaps the last. */
  ghost predicate BelowLastClear(rs: seq<MemoryMap.Range>, p: Piece) {
    MemoryMap.Clear(MemoryMap.Lower(rs), p.addr, p.addr + |p.data|)
  }

  /** Nothing that the pieces cover has been written. */
  ghost predicate NoneWritten(cs: seq<Command>, ps: seq<Piece>) {
    forall x {:trigger Covered(ps, x)} {:trigger Written(cs, x)} :: Covered(ps, x) ==> !Written(cs, x)
  }

  lemma UnwrittenOutside(cs: seq<Command>, workaround: bool, p: Piece)
    ensures NoneWritten(cs, Outside(workaround, p)) <==> Unwritten(cs, workaround, p.addr, p.addr + |p.data|)
  {
    hide Written, Covered, Outside;
    forall x ensures Covered(Outside(workaround, p), x) <==> p.Has(x) && !(workaround && InBank3(x)) {
      OutsideHas(workaround, p, x);
    }
  }

  lemma WriteIs(v: View, p: Piece)
    ensures Write(v, p) == if p.data == [] then v
                           else View(v.workaround, v.cmds + WritesOf(Outside(v.workaround, p)),
                                     HeldBack(v.workaround, v.bank3, p))
  {
  }

  lemma EmptyWrite(cs: seq<Command>, workaround: bool, p: Piece)
    requires p.data == []
    ensures Adds(cs, cs, workaround, p) && Unwritten(cs, workaround, p.addr, p.addr + |p.data|)
  {
    hide Written;
  }

  /** What a write comes to, part by part. */
  lemma PartsOfWrite(cs: seq<Command>, workaround: bool, p: Piece)
    requires p.data != [] && |p.data| < 0x10000 && p.addr + |p.data| <= WORD
    ensures Emittable(Outside(workaround, p)) && (!Diverts(workaround, p) ==> Outside(workaround, p) == [p])
    ensures NoneWritten(cs, Outside(workaround, p)) <==> Unwritten(cs, workaround, p.addr, p.addr + |p.data|)
    ensures Adds(cs, cs + WritesOf(Outside(workaround, p)), workaround, p)
  {
    assert !Diverts(workaround, p) ==> Outside(workaround, p) == [p];
    hide Outside, Written, Covered, Emittable, WritesOf, Adds, Unwritten, NoneWritten;
    OutsideShape(workaround, p);
    UnwrittenOutside(cs, workaround, p);
    AddsOutside(cs, workaround, p);
  }

  lemma NoneOfNone(cs: seq<Command>, ps: seq<Piece>)
    ensures NoneWritten(cs, ps[..0])
  {
  }

  lemma PrefixFresh(cs: seq<Command>, ps: seq<Piece>, k: nat)
    requires k <= |ps|
    ensures NoneWritten(cs, ps) ==> NoneWritten(cs, ps[..k])
  {
    hide Written;
    forall x | Covered(ps[..k], x) ensures Covered(ps, x) {
      var i :| 0 <= i < k && ps[..k][i].Has(x);
      assert ps[i].Has(x);
    }
  }

  lemma NoneUnwritten(cs: seq<Command>, workaround: bool, a: int)
    ensures Unwritten(cs, workaround, a, a)
  {
  }

  /** One more stretch is unwritten when it was before and the commands since then wrote something else. */
  lemma NextUnwritten(was: seq<Command>, now: seq<Command>, workaround: bool, lo: int, mid: int, hi: int, end: int)
    requires lo <= mid <= hi <= end
    requires forall x :: Written(now, x) <==> Written(was, x) || (lo <= x < mid && !(workaround && InBank3(x)))
    ensures Unwritten(was, workaround, lo, hi) <==>
              Unwritten(was, workaround, lo, mid) && Unwritten(now, workaround, mid, hi)
    ensures Unwritten(was, workaround, lo, end) ==> Unwritten(was, workaround, lo, hi)
  {
    hide Written;
  }

  /** The ranges are clear where the commands have not written. */
  lemma ClearIff(rs: seq<MemoryMap.Range>, was: seq<Command>, before: seq<Piece>, p: Piece)
    requires forall x :: MemoryMap.Covers(rs, x) <==> Written(was + WritesOf(before), x)
    requires forall x :: p.Has(x) ==> !Covered(before, x)
    ensures MemoryMap.Clear(rs, p.addr, p.addr + |p.data|) <==> NoneWritten(was, [p])
    ensures MemoryMap.Clear(rs, p.addr, p.addr + |p.data|) ==> BelowLastClear(rs, p)
  {
    hide Written, Covered, WritesOf;
    forall x ensures (Covered([p], x) <==> p.Has(x)) && (p.Has(x) ==> (MemoryMap.Covers(rs, x) <==> Written(was, x))) {
      CoveredAppend([], p, x);
      NothingCovered(x);
      assert [] + [p] == [p];
      WrittenAppend(was, before, x);
    }
    forall x | MemoryMap.Covers(MemoryMap.Lower(rs), x) ensures MemoryMap.Covers(rs, x) {
      var i :| 0 <= i < |MemoryMap.Lower(rs)| && MemoryMap.Lower(rs)[i].start <= x < MemoryMap.Lower(rs)[i].end;
      assert rs[i].start <= x < rs[i].end;
    }
  }

  lemma NothingCovered(x: int)
    ensures !Covered([], x)
  {
  }

  /** What the joined ranges cover is what the commands write with one more. */
  lemma JoinedIs(was: seq<MemoryMap.Range>, now: seq<MemoryMap.Range>, cs: seq<Command>, p: Piece)
    requires MemoryMap.Joined(was, now, p.addr, p.addr + |p.data|)
    requires forall x :: MemoryMap.Covers(was, x) <==> Written(cs, x)
    ensures forall x :: MemoryMap.Covers(now, x) <==> Written(cs + [WriteOf(p)], x)
  {
    hide Written, MemoryMap.Covers;
    forall x ensures MemoryMap.Covers(now, x) <==> Written(cs + [WriteOf(p)], x) {
      WriteIsWritten(cs, p, x);
    }
  }

  /** The commands `now` write what `was` wrote, and `p` except for what is diverted. */
  ghost predicate Adds(was: seq<Command>, now: seq<Command>, workaround: bool, p: Piece) {
    forall x :: Written(now, x) <==> Written(was, x) || (p.Has(x) && !(workaround && InBank3(x)))
  }

  /** The commands `now` write what `was` wrote, and something in [lo, hi). */
  ghost predicate AddsWithin(was: seq<Command>, now: seq<Command>, lo: int, hi: int) {
    forall x :: Written(now, x) ==> Written(was, x) || lo <= x < hi
  }

  lemma AddsOutside(was: seq<Command>, workaround: bool, p: Piece)
    requires p.data != []
    ensures Adds(was, was + WritesOf(Outside(workaround, p)), workaround, p)
  {
    hide Written, Covered, Outside, WritesOf;
    forall x ensures Written(was + WritesOf(Outside(workaround, p)), x) <==>
                     Written(was, x) || (p.Has(x) && !(workaround && InBank3(x))) {
      WrittenAppend(was, Outside(workaround, p), x);
      OutsideHas(workaround, p, x);
    }
  }

  lemma OutsideHas(workaround: bool, p: Piece, x: int)
    ensures Covered(Outside(workaround, p), x) <==> p.Has(x) && !(workaround && InBank3(x))
  {
    if workaround {
      OutsideCovers(p, x);
    } else {
      assert Outside(false, p) == [p];
      CoveredAppend([], p, x);
      assert [] + [p] == [p];
    }
  }

  lemma PlainKeepsWritten(cs: seq<Command>, c: Command)
    requires c.op != WRITE
    ensures forall x :: Written(cs + [c], x) <==> Written(cs, x)
  {
    forall x ensures Written(cs + [c], x) <==> Written(cs, x) {
      if Written(cs, x) {
        var i :| 0 <= i < |cs| && cs[i].op == WRITE && cs[i].addr <= x < cs[i].addr + |cs[i].data|;
        assert (cs + [c])[i] == cs[i];
      }
    }
  }

  lemma WriteIsWritten(cs: seq<Command>, p: Piece, x: int)
    ensures Written(cs + [WriteOf(p)], x) <==> Written(cs, x) || p.Has(x)
  {
    assert WritesOf([p]) == [WriteOf(p)];
    WrittenAppend(cs, [p], x);
    assert [] + [p] == [p];
    CoveredAppend([], p, x);
  }

  lemma EncodeOneMore(cs: seq<Command>, p: Piece)
    ensures EncodeAll(cs + [WriteOf(p)]) == EncodeAll(cs) + WriteOf(p).Header() + p.data
  {
    EncodeAllAppend(cs, [WriteOf(p)]);
    assert EncodeAll([WriteOf(p)]) == WriteOf(p).Encode();
  }

  /** Non-empty pieces that a header can describe, in address order and disjoint. */
  ghost predicate Emittable(ps: seq<Piece>) {
    && (forall i :: 0 <= i < |ps| ==> ps[i].data != [] && |ps[i].data| < 0x10000 && ps[i].addr < WORD)
    && (forall i, j :: 0 <= i < j < |ps| ==> ps[i].addr + |ps[i].data| <= ps[j].addr)
  }

  lemma PieceFresh(cs: seq<Command>, ps: seq<Piece>, k: nat)
    requires Emittable(ps) && k < |ps|
    ensures forall x :: ps[k].Has(x) ==> !Covered(ps[..k], x)
    ensures NoneWritten(cs, ps[..k + 1]) <==> NoneWritten(cs, ps[..k]) && NoneWritten(cs, [ps[k]])
  {
    BeforePiece(ps, k);
    hide Written, Covered, Emittable;
    assert ps[..k + 1] == ps[..k] + [ps[k]];
    forall x ensures Covered(ps[..k + 1], x) <==> Covered(ps[..k], x) || Covered([ps[k]], x) {
      CoveredConcat(ps[..k], [ps[k]], x);
    }
  }

  lemma BeforePiece(ps: seq<Piece>, k: nat)
    requires Emittable(ps) && k < |ps|
    ensures forall x :: ps[k].Has(x) ==> !Covered(ps[..k], x)
  {
  }

  /** The parts of a piece are exactly its octets outside bank 3. */
  lemma OutsideShape(workaround: bool, p: Piece)
    requires p.data != [] && |p.data| < 0x10000 && p.addr + |p.data| <= WORD
    ensures Emittable(Outside(workaround, p))
    ensures forall x :: Covered(Outside(workaround, p), x) <==> p.Has(x) && !(workaround && InBank3(x))
  {
    forall x ensures Covered(Outside(workaround, p), x) <==> p.Has(x) && !(workaround && InBank3(x)) {
      if workaround {
        OutsideCovers(p, x);
      } else {
        assert [] + [p] == [p];
        CoveredAppend([], p, x);
      }
    }
  }

  lemma ConcatNone(chunks: seq<seq<byte>>)
    ensures Concat(chunks[..0]) == []
  {
  }

  /** Where the `k`-th chunk goes. */
  lemma {:induction false} PlaceAt(addr: nat, chunks: seq<seq<byte>>, k: nat)
    requires k < |chunks|
    ensures Place(addr, chunks)[k] == Piece(addr + |Concat(chunks[..k])|, chunks[k])
    ensures |Concat(chunks[..k + 1])| == |Concat(chunks[..k])| + |chunks[k]| <= |Concat(chunks)|
  {
    assert chunks[..k + 1] == chunks[..k] + [chunks[k]] && chunks == chunks[..k + 1] + chunks[k + 1..];
    ConcatAppend(chunks[..k], [chunks[k]]);
    ConcatAppend(chunks[..k + 1], chunks[k + 1..]);
    assert Concat([chunks[k]]) == chunks[k];
    PlaceOffset(addr, chunks, k);
  }

  lemma {:induction false} PlaceOffset(addr: nat, chunks: seq<seq<byte>>, k: nat)
    requires k < |chunks|
    ensures Place(addr, chunks)[k] == Piece(addr + |Concat(chunks[..k])|, chunks[k])
    decreases k
  {
    if k > 0 {
      PlaceOffset(addr + |chunks[0]|, chunks[1..], k - 1);
      assert chunks[..k] == [chunks[0]] + chunks[1..][..k - 1];
      ConcatAppend([chunks[0]], chunks[1..][..k - 1]);
      assert Concat([chunks[0]]) == chunks[0];
    }
  }

  lemma WriteAllSnoc(v: View, ps: seq<Piece>, p: Piece)
    ensures WriteAll(v, ps + [p]) == Write(WriteAll(v, ps), p)
  {
    assert (ps + [p])[..|ps|] == ps;
  }

  /** The trampoline at `end` that moves what is staged from `stage` on to bank 3. */
  function TrampolinePiece(end: nat, stage: nat, entry: nat, argc: nat, argv: nat): Piece
    requires end % 4 == 0 && stage <= end
  {
    Piece(end, Trampoline(end, BANK3_START, stage, end - stage, entry, argc, argv))
  }

  lemma NoFixup(v: View, entry: nat, argc: nat, argv: nat)
    requires !v.workaround
    ensures Fixup(v, entry, argc, argv) == v && FixupEntry(v, entry) == entry
  {
  }

  /** The fixup, step by step. */
  lemma FixupSteps(v: View, entry: nat, argc: nat, argv: nat)
    requires v.workaround && |v.bank3| <= BANK3_END - BANK3_START
    ensures var start, end := StageStart(v), StageEnd(v);
            && start == AlignUp(Max(Top(v.cmds), BANK3_END), 256) && end == AlignUp(start + |v.bank3|, 4)
            && Top(v.cmds) <= start && BANK3_END <= start && start + |v.bank3| <= end && end % 4 == 0
            && FixupEntry(v, entry) == end + MAC_RESET
            && Fixup(v, entry, argc, argv) ==
                 Write(WriteAll(v, ChunkPieces(Piece(start, v.bank3))), TrampolinePiece(end, start, entry, argc, argv))
  {
    hide Trampoline, Write, AlignUp, Top, ChunkPieces, WriteAll, FixupPieces;
    StageGeometry(v);
    FixupParts(v, entry, argc, argv);
    WriteAllSnoc(v, ChunkPieces(Piece(StageStart(v), v.bank3)),
                 Piece(StageEnd(v), FixupTrampoline(v, entry, argc, argv)));
  }

  function RangesTop(rs: seq<MemoryMap.Range>): nat {
    if rs == [] then 0
    else
      var t, r := RangesTop(rs[..|rs| - 1]), rs[|rs| - 1];
      if r.end > t then r.end else t
  }

  lemma {:induction false} RangesTopBounds(rs: seq<MemoryMap.Range>)
    ensures forall i :: 0 <= i < |rs| ==> rs[i].end <= RangesTop(rs)
    ensures RangesTop(rs) > 0 ==> exists i :: 0 <= i < |rs| && rs[i].end == RangesTop(rs)
  {
    if rs != [] {
      RangesTopBounds(rs[..|rs| - 1]);
    }
  }

  lemma {:induction false} TopReached(cs: seq<Command>)
    requires forall i :: 0 <= i < |cs| && cs[i].op == WRITE ==> cs[i].data != []
    ensures Top(cs) > 0 ==> Written(cs, Top(cs) - 1)
  {
    if cs != [] {
      var init, c := cs[..|cs| - 1], cs[|cs| - 1];
      TopReached(init);
      if Top(cs) == Top(init) {
        if Top(init) > 0 {
          var x := Top(init) - 1;
          var i :| 0 <= i < |init| && init[i].op == WRITE && init[i].addr <= x < init[i].addr + |init[i].data|;
          assert cs[i] == init[i];
        }
      } else {
        assert cs[|cs| - 1] == c;
      }
    }
  }

  /** The range set and the commands agree on the highest address. */
  lemma SameTop(rs: seq<MemoryMap.Range>, cs: seq<Command>)
    requires MemoryMap.Normal(rs) && forall x :: MemoryMap.Covers(rs, x) <==> Written(cs, x)
    requires forall i :: 0 <= i < |cs| && cs[i].op == WRITE ==> cs[i].data != []
    ensures RangesTop(rs) == Top(cs)
  {
    RangesTopBounds(rs);
    TopReached(cs);
    if RangesTop(rs) > 0 {
      var i :| 0 <= i < |rs| && rs[i].end == RangesTop(rs);
      assert MemoryMap.Covers(rs, rs[i].end - 1);
      WrittenBelowTop(cs, rs[i].end - 1);
    }
    if Top(cs) > 0 {
      assert MemoryMap.Covers(rs, Top(cs) - 1);
    }
  }

  /** Segments within 32 bits. */
  ghost predicate Loadable(segs: seq<Piece>) {
    forall i :: 0 <= i < |segs| ==> segs[i].addr + |segs[i].data| <= WORD
  }

  /** Written is what a segment outside the virtual addresses has, except for bank 3 if that is kept aside. */
  ghost predicate WritesSegments(workaround: bool, segs: seq<Piece>, cs: seq<Command>) {
    forall x {:trigger Written(cs, x)} ::
      Written(cs, x) <==> InSegment(segs, x) && !(workaround && 0x70000 <= x < 0x80000)
  }

  lemma LoadWritesSegments(workaround: bool, segs: seq<Piece>)
    ensures WritesSegments(workaround, segs, WriteAll(View(workaround, [], []), LoadPieces(segs)).cmds)
  {
    hide Written, WriteAll, InSegment;
    forall x ensures Written(WriteAll(View(workaround, [], []), LoadPieces(segs)).cmds, x) <==>
                     InSegment(segs, x) && !(workaround && 0x70000 <= x < 0x80000) {
      LoadWrites(workaround, segs, x);
    }
  }

  /** No address is written twice; bank 3, if that is kept aside, may be. */
  ghost predicate Apart(workaround: bool, ps: seq<Piece>) {
    forall i, j, x {:trigger ps[i].Has(x), ps[j].Has(x)} ::
      0 <= i < j < |ps| && ps[i].Has(x) && ps[j].Has(x) ==> workaround && InBank3(x)
  }

  lemma NoneApart(workaround: bool, segs: seq<Piece>)
    ensures Apart(workaround, Resident(segs[..0])) && forall x :: !Covered(Resident(segs[..0]), x)
  {
  }

  lemma NextResident(segs: seq<Piece>, k: nat)
    requires k < |segs|
    ensures Resident(segs[..k + 1]) ==
              if IsVirtualAddress(segs[k].addr) then Resident(segs[..k]) else Resident(segs[..k]) + [segs[k]]
  {
    assert segs[..k + 1][..k] == segs[..k];
  }

  lemma ApartNext(workaround: bool, ps: seq<Piece>, p: Piece, cs: seq<Command>)
    requires forall x :: Written(cs, x) <==> Covered(ps, x) && !(workaround && InBank3(x))
    ensures Apart(workaround, ps + [p]) <==>
              Apart(workaround, ps) && Unwritten(cs, workaround, p.addr, p.addr + |p.data|)
  {
    hide Written, Covered, Apart;
    ApartOneMore(workaround, ps, p);
    if forall x :: p.Has(x) && Covered(ps, x) ==> workaround && InBank3(x) {
      assert Unwritten(cs, workaround, p.addr, p.addr + |p.data|);
    } else {
      var x :| p.Has(x) && Covered(ps, x) && !(workaround && InBank3(x));
      assert Written(cs, x);
    }
  }

  lemma ApartOneMore(workaround: bool, ps: seq<Piece>, p: Piece)
    ensures Apart(workaround, ps + [p]) <==>
              Apart(workaround, ps) && forall x :: p.Has(x) && Covered(ps, x) ==> workaround && InBank3(x)
  {
    var qs := ps + [p];
    if Apart(workaround, qs) {
      ApartShorter(workaround, ps, qs);
      forall x | p.Has(x) && Covered(ps, x) ensures workaround && InBank3(x) {
        var i :| 0 <= i < |ps| && ps[i].Has(x);
        assert qs[i].Has(x) && qs[|ps|].Has(x);
      }
    }
    if Apart(workaround, ps) && forall x :: p.Has(x) && Covered(ps, x) ==> workaround && InBank3(x) {
      forall i, j, x | 0 <= i < j < |qs| && qs[i].Has(x) && qs[j].Has(x) ensures workaround && InBank3(x) {
        assert ps[i].Has(x);
        if j < |ps| {
          assert ps[j].Has(x);
        } else {
          assert p.Has(x) && Covered(ps, x);
        }
      }
      assert Apart(workaround, qs);
    }
  }

  lemma {:induction false} ApartPrefix(workaround: bool, segs: seq<Piece>, k: nat)
    requires k <= |segs|
    ensures Apart(workaround, Resident(segs)) ==> Apart(workaround, Resident(segs[..k]))
    decreases |segs| - k
  {
    hide Resident, Apart;
    if k == |segs| {
      assert segs[..k] == segs;
    } else {
      ApartPrefix(workaround, segs, k + 1);
      NextResident(segs, k);
      ApartShorter(workaround, Resident(segs[..k]), Resident(segs[..k + 1]));
    }
  }

  lemma ApartShorter(workaround: bool, ps: seq<Piece>, qs: seq<Piece>)
    requires ps <= qs
    ensures Apart(workaround, qs) ==> Apart(workaround, ps)
  {
    if Apart(workaround, qs) {
      forall i, j, x | 0 <= i < j < |ps| && ps[i].Has(x) && ps[j].Has(x) ensures workaround && InBank3(x) {
        assert qs[i].Has(x) && qs[j].Has(x);
      }
    }
  }

  /** The address of the argument vector. */
  function Vector(args: seq<seq<byte>>, out: nat): nat
    requires args != [] ==> Placement(args, out) >= 0
  {
    if args == [] then 0 else Address(args, out) + StringSize(args)
  }

  /** The stream after segments, fixup and argument blob. */
  function LoadState(w: bool, segs: seq<Piece>, entry: nat, args: Piece, argc: nat, argv: nat): View {
    Write(Fixup(WriteAll(View(w, [], []), LoadPieces(segs)), entry, argc, argv), args)
  }

  /** The argument blob and its address. */
  function BlobPiece(args: seq<seq<byte>>, out: nat): (p: Piece)
    requires args != [] ==> Placement(args, out) >= 0
    ensures p.addr % 256 == 0 && |p.data| % 16 == 0
  {
    BlobSizes(args, out);
    Piece(Address(args, out), Blob(args, out, 16))
  }

  lemma BlobSizes(args: seq<seq<byte>>, out: nat)
    requires args != [] ==> Placement(args, out) >= 0
    ensures Address(args, out) % 256 == 0 && |Blob(args, out, 16)| % 16 == 0
  {
    if args != [] {
      hide Align, AlignUp, Image, TotalSize, StringSize, Zeros;
      PlacementFits(out, TotalSize(args));
      assert |Blob(args, out, 16)| == AlignUp(TotalSize(args), 16);
    }
  }

  /** `cmds` are the commands of the load, and `start` is where to start. */
  ghost predicate Emitted(w: bool, segs: seq<Piece>, entry: nat, args: Piece, argc: nat, argv: nat, cmds: seq<Command>,
                          start: nat) {
    && cmds == LoadState(w, segs, entry, args, argc, argv).cmds + [Command(7, argc, argv, [])]
    && start == FixupEntry(WriteAll(View(w, [], []), LoadPieces(segs)), entry)
  }

  /**
   * Written is what the segments have, the staged data and the trampoline, and the arguments; of segments and
   * arguments not what lies in bank 3, if that is kept aside.
   */
  ghost predicate WritesLoad(w: bool, segs: seq<Piece>, args: Piece, cs: seq<Command>) {
    var v := WriteAll(View(w, [], []), LoadPieces(segs));
    forall x {:trigger Written(cs, x)} ::
      Written(cs, x) <==>
      || ((InSegment(segs, x) || args.Has(x)) && !(w && 0x70000 <= x < 0x80000))
      || (w && StageStart(v) <= x < StageStart(v) + |v.bank3|)
      || (w && StageEnd(v) <= x < StageEnd(v) + 108)
  }

  lemma EmittedWrites(w: bool, segs: seq<Piece>, entry: nat, args: Piece, argc: nat, argv: nat, cmds: seq<Command>,
                      start: nat)
    requires Emitted(w, segs, entry, args, argc, argv, cmds, start)
    ensures WritesLoad(w, segs, args, cmds)
  {
    hide Written, WriteAll, LoadPieces, InSegment, Fixup, Write, StageStart, StageEnd, WritesOf, Outside, HeldBack, Covered;
    var v := WriteAll(View(w, [], []), LoadPieces(segs));
    var f := Fixup(v, entry, argc, argv);
    SameWorkaround(w, segs, entry, argc, argv);
    PlainKeepsWritten(Write(f, args).cmds, Command(ARGS, argc, argv, []));
    forall x ensures Written(cmds, x) <==>
                     || ((InSegment(segs, x) || args.Has(x)) && !(w && 0x70000 <= x < 0x80000))
                     || (w && StageStart(v) <= x < StageStart(v) + |v.bank3|)
                     || (w && StageEnd(v) <= x < StageEnd(v) + 108) {
      LoadWrites(w, segs, x);
      WriteIs(f, args);
      WrittenAppend(f.cmds, Outside(w, args), x);
      OutsideHas(w, args, x);
      if w {
        FixupWrites(v, entry, argc, argv, x);
      } else {
        NoFixup(v, entry, argc, argv);
      }
    }
  }

  lemma SameWorkaround(w: bool, segs: seq<Piece>, entry: nat, argc: nat, argv: nat)
    ensures var v := WriteAll(View(w, [], []), LoadPieces(segs));
            v.workaround == w && Fixup(v, entry, argc, argv).workaround == w
  {
    hide LoadPieces, WriteAll, Fixup, FixupPieces, WritesOf, FixupTrampoline, ChunkPieces, StageStart, StageEnd;
    var v := WriteAll(View(w, [], []), LoadPieces(segs));
    if w {
      hide Mirrors;
      LoadedMirrors(segs, _ => 0);
      FixupParts(v, entry, argc, argv);
    } else {
      NoneHeldBack(View(false, [], []), LoadPieces(segs));
      NoFixup(v, entry, argc, argv);
    }
  }

  lemma HeldBackBound(w: bool, segs: seq<Piece>)
    ensures |WriteAll(View(w, [], []), LoadPieces(segs)).bank3| <= BANK3_END - BANK3_START
  {
    hide WriteAll, LoadPieces, Direct, ExecuteAll, Covered, Written;
    if w {
      LoadedMirrors(segs, _ => 0);
    } else {
      NoneHeldBack(View(false, [], []), LoadPieces(segs));
    }
  }

  /** The arguments as the loader encodes them. */
  method EncodeDefault(args: BootArguments)
    requires args.outputAddress < WORD && (args.args != [] ==> Placement(args.args, args.outputAddress) >= 0)
    modifies args
    ensures args.args == old(args.args) && args.argc == |args.args|
    ensures args.loadAddress >= 0 && Piece(args.loadAddress, args.blob) == BlobPiece(args.args, args.outputAddress)
    ensures 0 <= args.argv < WORD && args.argv == Vector(args.args, args.outputAddress)
  {
    hide Placement, Blob, BlobAt, TotalSize;
    DefaultPlacement(args.args, args.outputAddress);
    args.Encode(None, None, 16);
    VectorBelow(args.args);
  }

  lemma VectorBelow(args: seq<seq<byte>>)
    ensures args != [] ==> StringSize(args) < TotalSize(args)
  {
  }

  /** The argument blob overlaps nothing written before it. */
  ghost predicate ArgsFresh(w: bool, segs: seq<Piece>, entry: nat, args: Piece, argc: nat, argv: nat) {
    var v := Fixup(WriteAll(View(w, [], []), LoadPieces(segs)), entry, argc, argv);
    Unwritten(v.cmds, w, args.addr, args.addr + |args.data|)
  }

  lemma NothingWritten(v: View)
    requires v.cmds == []
    ensures WriteAll(v, LoadPieces([])) == v && forall x :: !Written(v.cmds, x)
  {
  }

  lemma {:induction false} WriteAllAppend(v: View, ps: seq<Piece>, qs: seq<Piece>)
    ensures WriteAll(v, ps + qs) == WriteAll(WriteAll(v, ps), qs)
  {
    if qs == [] {
      assert ps + qs == ps;
    } else {
      WriteAllAppend(v, ps, qs[..|qs| - 1]);
      assert (ps + qs)[..|ps + qs| - 1] == ps + qs[..|qs| - 1];
    }
  }

  lemma NextSegment(segs: seq<Piece>, k: nat, v: View)
    requires k < |segs|
    ensures WriteAll(v, LoadPieces(segs[..k + 1])) ==
              if IsVirtualAddress(segs[k].addr) then WriteAll(v, LoadPieces(segs[..k]))
              else WriteAll(WriteAll(v, LoadPieces(segs[..k])), ChunkPieces(segs[k]))
  {
    assert segs[..k + 1][..k] == segs[..k];
    if IsVirtualAddress(segs[k].addr) {
      assert LoadPieces(segs[..k]) + [] == LoadPieces(segs[..k]);
    } else {
      WriteAllAppend(v, LoadPieces(segs[..k]), ChunkPieces(segs[k]));
    }
  }

  lemma {:induction false} NoneHeldBack(v: View, ps: seq<Piece>)
    requires !v.workaround
    ensures WriteAll(v, ps).bank3 == v.bank3 && !WriteAll(v, ps).workaround
  {
    if ps != [] {
      NoneHeldBack(v, ps[..|ps| - 1]);
    }
  }
}
