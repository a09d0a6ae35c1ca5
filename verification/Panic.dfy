/**
 * Extraction of the panic partition: a walk over tagged, length-prefixed, padded records, each stored in an
 * archive under a name of its own.
 */
module Panic {
  import opened Bytes

  // ---- Reading a partition ----

  /** Up to `count` octets at `offset`, fewer at the end. */
  function Slice(s: seq<byte>, offset: nat, count: nat): (r: seq<byte>)
    ensures |r| <= count
  {
    if offset >= |s| then []
    else if offset + count <= |s| then s[offset..offset + count]
    else s[offset..]
  }

  datatype Partition = Partition(flash: seq<byte>, start: nat, end: nat) {
    predicate Valid() {
      start <= end <= |flash|
    }

    /** The octets between the partition's addresses. */
    function Contents(): seq<byte>
      requires Valid()
    {
      flash[start..end]
    }

    /** The offset within the partition is compared with the address at which the partition ends. */
    function Pread(count: nat, offset: nat): seq<byte> {
      if offset >= end then [] else Slice(flash, start + offset, Size(count, offset))
    }

    function Size(count: nat, offset: nat): nat {
      if offset >= end then 0 else if count < end - offset then count else end - offset
    }

    /** What reads of the partition can reach. */
    function Reach(): seq<byte> {
      Slice(flash, start, end)
    }
  }

  lemma PreadReaches(p: Partition, count: nat, offset: nat)
    ensures p.Pread(count, offset) == Slice(p.Reach(), offset, count)
  {
    hide Slice;
    SliceIs(p.flash, p.start, p.end);
    SliceIs(p.Reach(), offset, count);
    SliceIs(p.flash, p.start + offset, p.Size(count, offset));
    assert p.Pread(count, offset) == Slice(p.Reach(), offset, count);
  }

  /** How long a slice is, and what is in it. */
  lemma SliceIs(s: seq<byte>, offset: nat, count: nat)
    ensures var r := Slice(s, offset, count);
            && |r| == (if offset >= |s| then 0 else if offset + count <= |s| then count else |s| - offset)
            && forall k :: 0 <= k < |r| ==> r[k] == s[offset + k]
  {
  }

  /** A read stays within the partition exactly under these circumstances. */
  lemma PreadIsSliceIff(p: Partition, count: nat, offset: nat)
    requires p.Valid()
    ensures p.Pread(count, offset) == Slice(p.Contents(), offset, count) <==>
            || count == 0 || offset + count <= p.end - p.start
            || p.start == 0 || p.end == |p.flash|
            || offset >= p.end || p.start + offset >= |p.flash|
  {
    hide Slice;
    SliceIs(p.Contents(), offset, count);
    SliceIs(p.flash, p.start + offset, p.Size(count, offset));
    var a, b := p.Pread(count, offset), Slice(p.Contents(), offset, count);
    assert |a| == |b| ==> a == b;
  }

  lemma PreadOvershootExample()
    ensures var p := Partition([1, 2, 3, 4], 1, 2);
            p.Contents() == [2] && p.Pread(8, 0) == [2, 3]
  {
  }

  // ---- Records ----

  const ERASED: seq<byte> := [0xff, 0xff, 0xff, 0xff]

  datatype Record = Record(tag: seq<byte>, data: seq<byte>)

  predicate Ended(s: seq<byte>) {
    |s| < 8 || s[..4] == ERASED
  }

  /** Where the records end. */
  lemma EndMarks(s: seq<byte>)
    ensures Records(s) == [] <==> |s| < 8 || s[..4] == [0xff, 0xff, 0xff, 0xff]
  {
  }

  /** How far the record at the front of `s` extends, with its padding. */
  function Extent(s: seq<byte>): (n: nat)
    requires |s| >= 8
    ensures n >= 8
  {
    var n := 8 + |Slice(s, 8, FromLE(s[4..8]))|;
    n + Pad(n)
  }

  /** What is missing to a multiple of four. */
  function Pad(n: nat): nat {
    (4 - n % 4) % 4
  }

  /** The records from the front of `s` on. */
  function Records(s: seq<byte>): seq<Record>
    decreases |s|
  {
    if Ended(s) then []
    else [Record(s[..4], Slice(s, 8, FromLE(s[4..8])))] + Records(Drop(s, Extent(s)))
  }

  function Drop(s: seq<byte>, n: nat): (r: seq<byte>)
    ensures n <= |s| ==> |r| == |s| - n
    ensures n > |s| ==> r == []
  {
    if n <= |s| then s[n..] else []
  }

  /** A record as it is written: tag, length, data, and padding of any content to a multiple of four. */
  datatype Written = Written(record: Record, pad: seq<byte>) {
    predicate Valid() {
      && |record.tag| == 4 && record.tag != ERASED && |record.data| < 0x1_0000_0000
      && |pad| < 4 && (|record.data| + |pad|) % 4 == 0
    }

    function Octets(): seq<byte>
      requires Valid()
    {
      record.tag + ToLE(|record.data|, 4) + record.data + pad
    }
  }

  predicate AllValid(ws: seq<Written>) {
    forall i :: 0 <= i < |ws| ==> ws[i].Valid()
  }

  function Image(ws: seq<Written>): seq<byte>
    requires AllValid(ws)
  {
    if ws == [] then [] else ws[0].Octets() + Image(ws[1..])
  }

  function Contained(ws: seq<Written>): (rs: seq<Record>)
    ensures |rs| == |ws|
  {
    seq(|ws|, i requires 0 <= i < |ws| => ws[i].record)
  }

  lemma FirstRecord(w: Written, rest: seq<byte>)
    requires w.Valid()
    ensures Records(w.Octets() + rest) == [w.record] + Records(rest)
  {
    hide ToLE, FromLE, Pad, Records, Slice, Drop, Written.Octets;
    var s, n := w.Octets() + rest, |w.record.data|;
    Layout(w, rest);
    LE4(n);
    assert FromLE(s[4..8]) == n;
    Padding(n, |w.pad|);
    assert Extent(s) == 8 + n + |w.pad|;
    RecordsStep(s);
  }

  lemma Layout(w: Written, rest: seq<byte>)
    requires w.Valid()
    ensures var s, n := w.Octets() + rest, |w.record.data|;
            && |s| >= 8 && s[..4] == w.record.tag && s[4..8] == ToLE(n, 4)
            && Slice(s, 8, n) == w.record.data && Drop(s, 8 + n + |w.pad|) == rest
  {
    hide ToLE;
    var s, n := w.Octets() + rest, |w.record.data|;
    var len := ToLE(n, 4);
    assert s[..4] == w.record.tag;
    assert s[4..8] == len;
    assert s[8..8 + n] == w.record.data;
    assert s[8 + n + |w.pad|..] == rest;
  }

  lemma Padding(n: nat, pad: nat)
    requires pad < 4 && (n + pad) % 4 == 0
    ensures Pad(8 + n) == pad
  {
  }

  lemma RecordsStep(s: seq<byte>)
    ensures Records(s) ==
            if Ended(s) then []
            else [Record(s[..4], Slice(s, 8, FromLE(s[4..8])))] + Records(Drop(s, Extent(s)))
  {
  }

  /** The records of an image are read back in order, followed by whatever can be read after them. */
  lemma {:induction false} RecordsReadBack(ws: seq<Written>, tail: seq<byte>)
    requires AllValid(ws)
    ensures Records(Image(ws) + tail) == Contained(ws) + Records(tail)
  {
    hide Records, Written.Octets;
    if ws == [] {
      assert Image(ws) + tail == tail;
      assert [] + Records(tail) == Records(tail);
    } else {
      RecordsReadBack(ws[1..], tail);
      FirstRecord(ws[0], Image(ws[1..]) + tail);
      assert Image(ws) + tail == ws[0].Octets() + (Image(ws[1..]) + tail);
      assert Contained(ws) == [ws[0].record] + Contained(ws[1..]);
    }
  }

  /** So exactly the image's records are read when an end follows, and more are read otherwise. */
  lemma ExactlyTheRecordsIff(ws: seq<Written>, tail: seq<byte>)
    requires AllValid(ws)
    ensures Records(Image(ws) + tail) == Contained(ws) <==> Ended(tail)
  {
    RecordsReadBack(ws, tail);
    assert Ended(tail) <==> Records(tail) == [];
    assert |Contained(ws) + Records(tail)| == |ws| + |Records(tail)|;
    assert Contained(ws) + [] == Contained(ws);
  }

  // ---- Records in a partition ----

  /** Reads reach all of a partition, and possibly more behind it. */
  lemma ContentsReached(p: Partition)
    requires p.Valid()
    ensures p.Contents() <= p.Reach()
  {
  }

  /**
   * A partition that holds an image and then `fill` is extracted exactly when an end is found in what can be
   * read after the image. An erased tag in the partition is one; without it the flash behind decides.
   */
  lemma PartitionExtractedIff(p: Partition, ws: seq<Written>, fill: seq<byte>)
    requires p.Valid() && AllValid(ws) && p.Contents() == Image(ws) + fill
    ensures |Image(ws)| <= |p.Reach()| && fill <= p.Reach()[|Image(ws)|..]
    ensures Records(p.Reach()) == Contained(ws) <==> Ended(p.Reach()[|Image(ws)|..])
    ensures |fill| >= 8 ==> (Records(p.Reach()) == Contained(ws) <==> fill[..4] == ERASED)
    ensures p.end == |p.flash| || p.start == 0 ==> (Records(p.Reach()) == Contained(ws) <==> Ended(fill))
  {
    hide Records, Image, Partition.Reach, Partition.Contents, Contained;
    ContentsReached(p);
    var image, r := Image(ws), p.Reach();
    Continues(image, fill, r);
    ExactlyTheRecordsIff(ws, r[|image|..]);
    if p.end == |p.flash| || p.start == 0 {
      WholeReach(p);
      assert (image + fill)[|image|..] == fill;
    }
  }

  lemma Continues(image: seq<byte>, fill: seq<byte>, r: seq<byte>)
    requires image + fill <= r
    ensures r == image + r[|image|..] && fill <= r[|image|..]
    ensures |fill| >= 8 ==> (Ended(r[|image|..]) <==> fill[..4] == ERASED)
  {
    var n, m := |image|, |image| + |fill|;
    assert r[..m] == image + fill;
    assert r[..n] == r[..m][..n] == image;
    assert r[n..m] == r[..m][n..] == fill;
    assert r[n..][..|fill|] == r[n..m];
    assert |fill| >= 8 ==> r[n..][..4] == r[n..][..|fill|][..4];
  }

  lemma WholeReach(p: Partition)
    requires p.Valid() && (p.end == |p.flash| || p.start == 0)
    ensures p.Reach() == p.Contents()
  {
  }

  /** A partition filled to its end by a record, with another record behind it: both are extracted. */
  lemma RunsOn(a: Written, b: Written)
    requires a.Valid() && b.Valid() && |a.Octets()| == |b.Octets()| == 8
    ensures var p := Partition(a.Octets() + a.Octets() + b.Octets(), 8, 16);
            p.Contents() == Image([a]) && Records(p.Reach()) == [a.record, b.record]
  {
    hide Written.Octets, Records;
    var x, y := a.Octets(), b.Octets();
    TwoImages(a, b);
    MiddleOf(x, y);
    RecordsReadBack([a, b], []);
    assert (x + y) + [] == x + y;
    NoRecords();
    assert Contained([a, b]) + [] == [a.record, b.record];
  }

  lemma NoRecords()
    ensures Records([]) == []
  {
  }

  lemma TwoImages(a: Written, b: Written)
    requires a.Valid() && b.Valid()
    ensures Image([a]) == a.Octets() && Image([a, b]) == a.Octets() + b.Octets()
  {
    hide Written.Octets;
    assert Image([b]) == b.Octets() + Image([]) == b.Octets();
    assert [a, b][1..] == [b];
    assert Image([a]) == a.Octets() + Image([]) == a.Octets();
  }

  lemma MiddleOf(x: seq<byte>, y: seq<byte>)
    requires |x| == |y| == 8
    ensures var p := Partition(x + x + y, 8, 16); p.Contents() == x && p.Reach() == x + y
  {
  }

  // ---- Names ----

  function Digit(v: nat): char
    requires v < 10
  {
    "0123456789"[v]
  }

  function Decimal(v: nat): (s: string)
    ensures s != []
  {
    if v < 10 then [Digit(v)] else Decimal(v / 10) + [Digit(v % 10)]
  }

  function Numbered(i: nat, fn: string): string {
    Decimal(i) + "_" + fn
  }

  lemma {:induction false} DecimalInjective(a: nat, b: nat)
    requires Decimal(a) == Decimal(b)
    ensures a == b
  {
    DecimalEnds(a);
    DecimalEnds(b);
    hide Decimal, Digit;
    DigitInjective(a % 10, b % 10);
    if a >= 10 && b >= 10 {
      DecimalInjective(a / 10, b / 10);
    }
  }

  lemma DecimalEnds(a: nat)
    ensures var s := Decimal(a);
            && s[|s| - 1] == Digit(a % 10) && (|s| == 1 <==> a < 10)
            && (a >= 10 ==> s[..|s| - 1] == Decimal(a / 10))
  {
    hide Digit;
  }

  lemma DigitInjective(x: nat, y: nat)
    requires x < 10 && y < 10 && Digit(x) == Digit(y)
    ensures x == y
  {
  }

  lemma NumberedInjective(i: nat, j: nat, fn: string)
    requires Numbered(i, fn) == Numbered(j, fn)
    ensures i == j
  {
    var n := |Numbered(i, fn)| - |fn| - 1;
    assert Numbered(i, fn)[..n] == Decimal(i) && Numbered(j, fn)[..n] == Decimal(j);
    DecimalInjective(i, j);
  }

  /** The name of a tag; octets that are not ASCII are replaced. */
  function BaseName(tag: seq<byte>): string {
    if tag == [0x63, 0x6f, 0x6e, 0x73] then "console.txt"
    else if tag == [0x74, 0x72, 0x63, 0x65] then "trace.bin"
    else seq(|tag|, i requires 0 <= i < |tag| => AsciiChar(tag[i]))
  }

  function AsciiChar(b: byte): char {
    if b < 0x80 then b as char else '\U{FFFD}'
  }

  /** The archive keeps a name only up to a NUL. */
  function Stored(fn: string): (s: string)
    ensures s <= fn
  {
    if fn == [] || fn[0] == '\0' then [] else [fn[0]] + Stored(fn[1..])
  }

  /** Every number below i is taken. */
  predicate Taken(names: seq<string>, fn: string, i: nat) {
    forall j :: 1 <= j < i ==> Numbered(j, fn) in names
  }

  /** The numbered names below i. */
  function NumberedBelow(fn: string, i: nat): set<string> {
    if i <= 1 then {} else NumberedBelow(fn, i - 1) + {Numbered(i - 1, fn)}
  }

  /** Only as many numbers are taken as there are names. */
  lemma FewTaken(names: seq<string>, fn: string, i: nat)
    requires i >= 1 && Taken(names, fn, i)
    ensures i - 1 <= |names|
  {
    CountNumbered(fn, i);
    SetOfSeq(names);
    BelowTaken(names, fn, i, i);
    SubsetCard(NumberedBelow(fn, i), set n | n in names);
  }

  lemma {:induction false} BelowTaken(names: seq<string>, fn: string, i: nat, k: nat)
    requires k <= i && Taken(names, fn, i)
    ensures forall x :: x in NumberedBelow(fn, k) ==> x in names
  {
    hide Numbered;
    if k > 1 {
      BelowTaken(names, fn, i, k - 1);
    }
  }

  lemma {:induction false} NotBelow(fn: string, i: nat, k: nat)
    requires 1 <= k <= i
    ensures Numbered(i, fn) !in NumberedBelow(fn, k)
  {
    if k > 1 {
      NotBelow(fn, i, k - 1);
      if Numbered(i, fn) == Numbered(k - 1, fn) {
        NumberedInjective(i, k - 1, fn);
      }
      hide Numbered;
    }
  }

  lemma {:induction false} CountNumbered(fn: string, i: nat)
    requires i >= 1
    ensures |NumberedBelow(fn, i)| == i - 1
  {
    hide Numbered;
    if i > 1 {
      CountNumbered(fn, i - 1);
      NotBelow(fn, i - 1, i - 1);
    }
  }

  lemma {:induction false} SetOfSeq(names: seq<string>)
    ensures |set n | n in names| <= |names|
  {
    var all := set n | n in names;
    if names == [] {
      assert all == {};
    } else {
      SetOfSeq(names[1..]);
      assert all == (set n | n in names[1..]) + {names[0]};
    }
  }

  lemma {:induction false} SubsetCard(a: set<string>, b: set<string>)
    requires a <= b
    ensures |a| <= |b|
  {
    if a != {} {
      var x :| x in a;
      SubsetCard(a - {x}, b - {x});
    }
  }

  /** The base name if it is free, otherwise the first free numbered one. */
  ghost predicate Chosen(names: seq<string>, base: string, fn: string) {
    if base !in names then fn == base
    else exists i :: i >= 1 && fn == Numbered(i, base) && fn !in names && Taken(names, base, i)
  }

  method ChooseName(names: seq<string>, base: string) returns (fn: string)
    ensures Chosen(names, base, fn) && fn !in names
  {
    fn := base;
    if fn in names {
      var i := 1;
      while Numbered(i, fn) in names
        invariant i >= 1 && Taken(names, fn, i)
        decreases |names| + 1 - i
      {
        FewTaken(names, fn, i + 1);
        i := i + 1;
      }
      fn := Numbered(i, fn);
    }
  }

  // ---- Extraction ----

  datatype Entry = Entry(name: string, data: seq<byte>)

  function Names(zf: seq<Entry>): (names: seq<string>)
    ensures |names| == |zf|
  {
    seq(|zf|, i requires 0 <= i < |zf| => zf[i].name)
  }

  /** One entry for each record, in order, each named after its tag among the names before it. */
  ghost predicate Extracted(records: seq<Record>, zf: seq<Entry>) {
    |zf| == |records| &&
    forall i :: 0 <= i < |zf| ==> EntryFor(zf[..i], records[i], zf[i])
  }

  ghost predicate EntryFor(before: seq<Entry>, r: Record, e: Entry) {
    e.data == r.data &&
    exists fn :: Chosen(Names(before), BaseName(r.tag), fn) && fn !in Names(before) && e.name == Stored(fn)
  }

  method Execute(p: Partition) returns (zf: seq<Entry>)
    ensures Extracted(Records(p.Reach()), zf)
    ensures Distinct(zf) <==> NulsApart(Records(p.Reach()))
  {
    hide Records, Extracted, Chosen, BaseName, Stored, Pad, FromLE, Slice, Drop, Partition.Pread, Partition.Reach,
      Distinct, NulsApart;
    ghost var image := p.Reach();
    ghost var done: seq<Record> := [];
    zf := [];
    var offset := 0;
    Starts(image);
    while true
      invariant offset % 4 == 0 && Records(image) == done + Records(Drop(image, offset))
      invariant Extracted(done, zf)
      decreases |image| - offset
    {
      PreadReaches(p, 8, offset);
      RecordsUnfold(image, offset, done);
      var hdr := p.Pread(8, offset);
      if |hdr| < 8 {
        break;
      }
      var tag := hdr[..4];
      if tag == ERASED {
        break;
      }
      var size := FromLE(hdr[4..]);
      offset := offset + |hdr|;
      PreadReaches(p, size, offset);
      var data := p.Pread(size, offset);
      offset := offset + |data|;
      var fn := ChooseName(Names(zf), BaseName(tag));
      Appended(done, zf, Record(tag, data), fn);
      zf := zf + [Entry(Stored(fn), data)];
      done := done + [Record(tag, data)];
      offset := offset + Pad(offset);
    }
    assert done + [] == done;
    TagsAreFour(image);
    NamesDistinctIff(Records(image), zf);
  }

  lemma Starts(image: seq<byte>)
    ensures Extracted([], []) && Records(image) == [] + Records(Drop(image, 0))
  {
    assert Drop(image, 0) == image;
  }

  lemma Appended(done: seq<Record>, zf: seq<Entry>, r: Record, fn: string)
    requires Extracted(done, zf)
    requires Chosen(Names(zf), BaseName(r.tag), fn) && fn !in Names(zf)
    ensures Extracted(done + [r], zf + [Entry(Stored(fn), r.data)])
  {
    var e := Entry(Stored(fn), r.data);
    assert EntryFor(zf, r, e);
    hide EntryFor;
    var zf' := zf + [e];
    forall i | 0 <= i < |zf'| ensures EntryFor(zf'[..i], (done + [r])[i], zf'[i]) {
      assert zf'[..i] == if i < |zf| then zf[..i] else zf;
    }
  }

  lemma RecordsUnfold(image: seq<byte>, offset: nat, done: seq<Record>)
    requires offset % 4 == 0
    ensures var hdr := Slice(image, offset, 8);
            if |hdr| < 8 || hdr[..4] == ERASED then Records(Drop(image, offset)) == []
            else
              var data := Slice(image, offset + 8, FromLE(hdr[4..]));
              var next := offset + 8 + |data| + Pad(offset + 8 + |data|);
              && next > offset && next % 4 == 0 && offset + 8 <= |image|
              && done + Records(Drop(image, offset)) ==
                 done + [Record(hdr[..4], data)] + Records(Drop(image, next))
  {
    hide Records, FromLE, Pad, Slice, Drop;
    var s, hdr := Drop(image, offset), Slice(image, offset, 8);
    RecordsStep(s);
    HeaderAt(image, offset);
    if |hdr| == 8 && hdr[..4] != ERASED {
      var size := FromLE(hdr[4..]);
      var data := Slice(image, offset + 8, size);
      Shifted(image, offset, 8, size);
      SamePad(offset, 8 + |data|);
      var n := Extent(s);
      DropDrop(image, offset, n);
      assert done + ([Record(hdr[..4], data)] + Records(Drop(s, n))) ==
             done + [Record(hdr[..4], data)] + Records(Drop(s, n));
    }
  }

  lemma HeaderAt(image: seq<byte>, offset: nat)
    ensures var s, hdr := Drop(image, offset), Slice(image, offset, 8);
            && (|s| < 8 <==> |hdr| < 8) && |hdr| <= 8
            && (|s| >= 8 ==> s[..4] == hdr[..4] && s[4..8] == hdr[4..] && offset + 8 <= |image|)
  {
    var s, hdr := Drop(image, offset), Slice(image, offset, 8);
    if |s| >= 8 {
      assert hdr == s[..8];
      assert hdr[..4] == s[..4];
      assert hdr[4..] == s[4..8];
    }
  }

  lemma DropDrop(image: seq<byte>, offset: nat, n: nat)
    ensures Drop(Drop(image, offset), n) == Drop(image, offset + n)
  {
    if offset + n <= |image| {
      assert image[offset..][n..] == image[offset + n..];
    }
  }

  lemma Shifted(image: seq<byte>, offset: nat, at: nat, count: nat)
    ensures Slice(Drop(image, offset), at, count) == Slice(image, offset + at, count)
  {
  }

  lemma SamePad(offset: nat, n: nat)
    requires offset % 4 == 0
    ensures Pad(offset + n) == Pad(n) && (offset + n + Pad(n)) % 4 == 0
  {
  }

  // ---- Distinct names ----

  lemma {:induction false} StoredIsClean(fn: string)
    ensures '\0' !in Stored(fn)
    ensures '\0' !in fn ==> Stored(fn) == fn
    ensures '\0' in fn ==> |Stored(fn)| < |fn|
  {
    if fn != [] {
      StoredIsClean(fn[1..]);
      assert fn == [fn[0]] + fn[1..];
    }
  }

  lemma {:induction false} DecimalIsClean(i: nat)
    ensures '\0' !in Decimal(i)
  {
    if i >= 10 {
      DecimalIsClean(i / 10);
    }
  }

  lemma BaseNames(tag: seq<byte>)
    requires |tag| == 4
    ensures |BaseName(tag)| >= 4 && ('\0' in BaseName(tag) <==> 0 in tag)
    ensures 0 in tag ==> |BaseName(tag)| == 4
  {
    var fn := BaseName(tag);
    if 0 in tag {
      var i :| 0 <= i < 4 && tag[i] == 0;
      assert fn[i] == '\0';
    }
  }

  /** A tag with a NUL keeps the beginning of its name whatever is taken; other names are new. */
  lemma NameOf(before: seq<Entry>, r: Record, e: Entry)
    requires EntryFor(before, r, e) && |r.tag| == 4
    requires forall i :: 0 <= i < |before| ==> '\0' !in before[i].name
    ensures '\0' !in e.name
    ensures if 0 in r.tag then e.name == Stored(BaseName(r.tag)) && |e.name| < 4
            else e.name !in Names(before) && |e.name| >= 4
  {
    var base := BaseName(r.tag);
    BaseNames(r.tag);
    hide BaseName;
    var fn :| Chosen(Names(before), base, fn) && fn !in Names(before) && e.name == Stored(fn);
    StoredIsClean(fn);
    hide Stored;
    if 0 in r.tag {
      assert base !in Names(before);
    } else if fn != base {
      var i :| i >= 1 && fn == Numbered(i, base);
      DecimalIsClean(i);
    }
  }

  predicate Distinct(zf: seq<Entry>) {
    forall i, j :: 0 <= i < j < |zf| ==> zf[i].name != zf[j].name
  }

  /** No two tags with a NUL have names that begin alike. */
  predicate NulsApart(records: seq<Record>) {
    forall i, j :: 0 <= i < j < |records| && 0 in records[i].tag && 0 in records[j].tag ==>
                     Stored(BaseName(records[i].tag)) != Stored(BaseName(records[j].tag))
  }

  lemma EntryClean(before: seq<Entry>, r: Record, e: Entry)
    requires EntryFor(before, r, e)
    ensures '\0' !in e.name
  {
    var fn :| Chosen(Names(before), BaseName(r.tag), fn) && fn !in Names(before) && e.name == Stored(fn);
    StoredIsClean(fn);
  }

  lemma CleanNames(records: seq<Record>, zf: seq<Entry>, n: nat)
    requires Extracted(records, zf) && n <= |zf|
    ensures forall i :: 0 <= i < n ==> '\0' !in zf[i].name
  {
    hide EntryFor;
    forall i | 0 <= i < n ensures '\0' !in zf[i].name {
      EntryClean(zf[..i], records[i], zf[i]);
    }
  }

  lemma EntryName(records: seq<Record>, zf: seq<Entry>, j: nat)
    requires Extracted(records, zf) && j < |zf|
    requires forall i :: 0 <= i < |records| ==> |records[i].tag| == 4
    ensures if 0 in records[j].tag then
              zf[j].name == Stored(BaseName(records[j].tag)) && |zf[j].name| < 4
            else (forall i :: 0 <= i < j ==> zf[i].name != zf[j].name) && |zf[j].name| >= 4
  {
    CleanNames(records, zf, j);
    assert EntryFor(zf[..j], records[j], zf[j]);
    hide EntryFor, Extracted, Stored, BaseName;
    NameOf(zf[..j], records[j], zf[j]);
    var names := Names(zf[..j]);
    assert forall i :: 0 <= i < j ==> names[i] == zf[i].name;
    assert forall i :: 0 <= i < j ==> names[i] in names;
  }

  /** The entries have pairwise distinct names exactly when the tags with a NUL begin differently. */
  lemma NamesDistinctIff(records: seq<Record>, zf: seq<Entry>)
    requires Extracted(records, zf)
    requires forall i :: 0 <= i < |records| ==> |records[i].tag| == 4
    ensures Distinct(zf) <==> NulsApart(records)
  {
    hide EntryFor, Stored, BaseName;
    forall j | 0 <= j < |zf|
      ensures if 0 in records[j].tag then
                zf[j].name == Stored(BaseName(records[j].tag)) && |zf[j].name| < 4
              else (forall i :: 0 <= i < j ==> zf[i].name != zf[j].name) && |zf[j].name| >= 4
    {
      EntryName(records, zf, j);
    }
    if !Distinct(zf) {
      var i, j :| 0 <= i < j < |zf| && zf[i].name == zf[j].name;
      assert 0 in records[i].tag && 0 in records[j].tag;
    }
  }

  /** What the names are: two tags have names of their own, others are their text. */
  lemma FirstNames(r: Record, e: Entry)
    requires EntryFor([], r, e) && |r.tag| == 4 && 0 !in r.tag
    ensures r.tag == [0x63, 0x6f, 0x6e, 0x73] ==> e.name == "console.txt"
    ensures r.tag == [0x74, 0x72, 0x63, 0x65] ==> e.name == "trace.bin"
    ensures r.tag != [0x63, 0x6f, 0x6e, 0x73] && r.tag != [0x74, 0x72, 0x63, 0x65] ==>
              |e.name| == 4 && forall i :: 0 <= i < 4 ==>
                e.name[i] as int == if r.tag[i] < 0x80 then r.tag[i] as int else 0xfffd
  {
    var fn :| Chosen(Names([]), BaseName(r.tag), fn) && fn !in Names([]) && e.name == Stored(fn);
    assert fn == BaseName(r.tag);
    BaseNames(r.tag);
    StoredIsClean(fn);
    hide Stored;
  }

  /** A second entry of the same name is numbered. */
  lemma SecondNames(e: Entry, r: Record, f: Entry)
    requires EntryFor([e], r, f) && |r.tag| == 4 && 0 !in r.tag && e.name == BaseName(r.tag)
    ensures f.name == "1_" + e.name
  {
    var base := e.name;
    assert Names([e]) == [base];
    BaseNames(r.tag);
    hide BaseName, Chosen, Stored, Names;
    var fn :| Chosen([base], base, fn) && f.name == Stored(fn);
    FirstNumber(base, fn);
    StoredIsClean(fn);
  }

  lemma FirstNumber(base: string, fn: string)
    requires Chosen([base], base, fn)
    ensures fn == "1_" + base
  {
    assert Decimal(1) == "1";
    hide Decimal;
    assert |Numbered(1, base)| > |base|;
    assert Numbered(1, base) !in [base];
    var i :| i >= 1 && fn == Numbered(i, base) && Taken([base], base, i);
    assert i == 1;
  }

  /** The records of any octets have four-octet tags. */
  lemma {:induction false} TagsAreFour(s: seq<byte>)
    ensures forall i :: 0 <= i < |Records(s)| ==> |Records(s)[i].tag| == 4
    decreases |s|
  {
    if !Ended(s) {
      TagsAreFour(Drop(s, Extent(s)));
    }
  }

  /** Two records tagged "ab" and two NULs get the same name. */
  lemma SameNameExample()
    ensures var r := Record([0x61, 0x62, 0, 0], []);
            !NulsApart([r, r])
  {
    var r := Record([0x61, 0x62, 0, 0], []);
    assert 0 in r.tag by {
      assert r.tag[2] == 0;
    }
    assert [r, r][0] == [r, r][1];
  }
}
