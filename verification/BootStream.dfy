/**
 * The boot stream builder with its bank 3 workaround: everything addressed to [0x70000, 0x80000) is
 * kept aside, staged above the rest of the image, and copied back by a trampoline at start-up.
 */
module BootStream {
  import opened Bytes
  import opened Thumb
  import opened ThumbReset
  import opened BootCommand
  import opened BootArgs

  const BANK3_START := 0x70000
  const BANK3_END := 0x80000
  const CHUNK := 32768

  predicate InBank3(x: int) {
    BANK3_START <= x < BANK3_END
  }

  function Max(a: int, b: int): int {
    if a >= b then a else b
  }

  function Min(a: int, b: int): int {
    if a <= b then a else b
  }

  /** A run of octets for an address: an ELF segment, one chunk of it, or the payload of a command. */
  datatype Piece = Piece(addr: nat, data: seq<byte>) {
    predicate Has(x: int) {
      addr <= x < addr + |data|
    }
  }

  function WriteOf(p: Piece): Command {
    Command(WRITE, |p.data|, p.addr, p.data)
  }

  function WritesOf(ps: seq<Piece>): (cs: seq<Command>)
    ensures |cs| == |ps| && forall i :: 0 <= i < |ps| ==> cs[i] == WriteOf(ps[i])
  {
    seq(|ps|, i requires 0 <= i < |ps| => WriteOf(ps[i]))
  }

  ghost predicate Written(cs: seq<Command>, x: int) {
    exists i :: 0 <= i < |cs| && cs[i].op == WRITE && cs[i].addr <= x < cs[i].addr + |cs[i].data|
  }

  ghost predicate Covered(ps: seq<Piece>, x: int) {
    exists i :: 0 <= i < |ps| && ps[i].Has(x)
  }

  // ---- What each operation does to the stream ----

  /** The commands emitted so far and the data held back from bank 3. */
  datatype View = View(workaround: bool, cmds: seq<Command>, bank3: seq<byte>)

  predicate Diverts(workaround: bool, p: Piece) {
    workaround && Max(BANK3_START, p.addr) < Min(BANK3_END, p.addr + |p.data|)
  }

  /** The parts of `p` that are written at once. */
  function Outside(workaround: bool, p: Piece): (ps: seq<Piece>)
  {
    if !Diverts(workaround, p) then [p]
    else
      (if p.addr < BANK3_START then [Piece(p.addr, p.data[..BANK3_START - p.addr])] else []) +
      (if p.addr + |p.data| > BANK3_END then [Piece(BANK3_END, p.data[BANK3_END - p.addr..])] else [])
  }

  /** Seeking to `off` and writing `d`: a gap left by the seek reads as zeros. */
  function Overlay(buf: seq<byte>, off: nat, d: seq<byte>): (r: seq<byte>)
    requires d != []
    ensures |r| == Max(|buf|, off + |d|)
    ensures forall i :: 0 <= i < |r| ==> r[i] == if off <= i < off + |d| then d[i - off] else if i < |buf| then buf[i] else 0
  {
    var padded := if |buf| < off then buf + Zeros(off - |buf|) else buf;
    if off + |d| >= |padded| then padded[..off] + d else padded[..off] + d + padded[off + |d|..]
  }

  function HeldBack(workaround: bool, bank3: seq<byte>, p: Piece): seq<byte> {
    if !Diverts(workaround, p) then bank3
    else
      var lo, hi := Max(BANK3_START, p.addr), Min(BANK3_END, p.addr + |p.data|);
      Overlay(bank3, lo - BANK3_START, p.data[lo - p.addr..hi - p.addr])
  }

  function Write(v: View, p: Piece): View {
    if p.data == [] then v
    else v.(cmds := v.cmds + WritesOf(Outside(v.workaround, p)), bank3 := HeldBack(v.workaround, v.bank3, p))
  }

  function WriteAll(v: View, ps: seq<Piece>): View {
    if ps == [] then v else Write(WriteAll(v, ps[..|ps| - 1]), ps[|ps| - 1])
  }

  /** Consecutive chunks of a piece. */
  function Place(addr: nat, chunks: seq<seq<byte>>): (ps: seq<Piece>)
    ensures |ps| == |chunks|
    decreases |chunks|
  {
    if chunks == [] then [] else [Piece(addr, chunks[0])] + Place(addr + |chunks[0]|, chunks[1..])
  }

  function ChunkPieces(p: Piece): seq<Piece> {
    Place(p.addr, Chunks(p.data, CHUNK))
  }

  /** A piece is written in chunks of 32 KiB, one after the other, the last of which may be shorter. */
  lemma {:induction false} ChunkSizes(p: Piece, i: nat)
    requires i < |ChunkPieces(p)|
    ensures ChunkPieces(p)[i].addr == p.addr + 0x8000 * i
    ensures |ChunkPieces(p)[i].data| == if 0x8000 * (i + 1) <= |p.data| then 0x8000 else |p.data| - 0x8000 * i
    decreases i
  {
    hide Chunks;
    ChunksStep(p);
    if i > 0 {
      ChunkSizes(Piece(p.addr + 0x8000, p.data[0x8000..]), i - 1);
    }
  }

  lemma ChunksStep(p: Piece)
    ensures p.data == [] ==> ChunkPieces(p) == []
    ensures 0 < |p.data| <= 0x8000 ==> ChunkPieces(p) == [p]
    ensures |p.data| > 0x8000 ==>
              ChunkPieces(p) == [Piece(p.addr, p.data[..0x8000])] + ChunkPieces(Piece(p.addr + 0x8000, p.data[0x8000..]))
  {
    if |p.data| > 0x8000 {
      var rest := Chunks(p.data[0x8000..], CHUNK);
      var cs := [p.data[..0x8000]] + rest;
      assert Chunks(p.data, CHUNK) == cs;
      assert cs[1..] == rest;
    }
  }

  predicate IsVirtualAddress(addr: int) {
    0x100000 <= addr < 0xfc0000
  }

  /** The chunks that loading the segments writes; segments at virtual addresses go elsewhere. */
  function LoadPieces(segs: seq<Piece>): seq<Piece> {
    if segs == [] then []
    else
      var s := segs[|segs| - 1];
      LoadPieces(segs[..|segs| - 1]) + if IsVirtualAddress(s.addr) then [] else ChunkPieces(s)
  }

  /** The end of the highest range written. */
  function Top(cs: seq<Command>): (t: nat)
    ensures forall i :: 0 <= i < |cs| && cs[i].op == WRITE ==> cs[i].addr + |cs[i].data| <= t
  {
    if cs == [] then 0
    else
      var c := cs[|cs| - 1];
      var t := Top(cs[..|cs| - 1]);
      if c.op == WRITE && t < c.addr + |c.data| then c.addr + |c.data| else t
  }

  /** The copy routine and its table, then the reset routine and its three words. */
  const TEMPLATE: seq<byte> := COPY_CODE + Zeros(24) + RESET_CODE + Zeros(4) + CONTROL_AND_REQUEST
  const TRAMPOLINE_SIZE := 108
  const MAC_RESET := 0x35

  /** The trampoline for a copy of [src, src + size) to `dst`, when it is itself loaded at `address`. */
  function Trampoline(address: nat, dst: nat, src: nat, size: nat, entry: nat, argc: nat, argv: nat): (t: seq<byte>)
    requires address % 4 == 0
    ensures |t| == TRAMPOLINE_SIZE
    ensures t[..TABLE] == COPY_CODE
    ensures t[0x1c..0x20] == ToLE(src, 4) && t[0x20..0x24] == ToLE(src + size, 4) && t[0x24..0x28] == ToLE(dst, 4)
    ensures t[0x28..0x2c] == ToLE(entry, 4) && t[0x2c..0x30] == ToLE(argc, 4) && t[0x30..0x34] == ToLE(argv, 4)
    ensures t[DEST..DEST + 4] == ToLE(address + 1, 4)
  {
    var table := ToLE(src, 4) + ToLE(src + size, 4) + ToLE(dst, 4) + ToLE(entry, 4) + ToLE(argc, 4) + ToLE(argv, 4);
    TEMPLATE[..TABLE] + table + TEMPLATE[CODE_AND_TABLE..DEST] + ToLE(address + 1, 4) + TEMPLATE[DEST + 4..]
  }

  function StageStart(v: View): nat {
    AlignUp(Max(Top(v.cmds), BANK3_END), 256)
  }

  function StageEnd(v: View): nat {
    AlignUp(StageStart(v) + |v.bank3|, 4)
  }

  /** The staged data and the trampoline after it. */
  function FixupPieces(v: View, entry: nat, argc: nat, argv: nat): seq<Piece> {
    var start, end := StageStart(v), StageEnd(v);
    ChunkPieces(Piece(start, v.bank3)) + [Piece(end, Trampoline(end, BANK3_START, start, end - start, entry, argc, argv))]
  }

  function Fixup(v: View, entry: nat, argc: nat, argv: nat): View {
    if v.workaround then WriteAll(v, FixupPieces(v, entry, argc, argv)) else v
  }

  function FixupEntry(v: View, entry: nat): nat {
    if v.workaround then StageEnd(v) + MAC_RESET else entry
  }
}
