/**
 * The argument image: NUL-terminated strings, then a vector of pointers to them. Two scripts build
 * it, the loader and a debugger extension; both are modelled against one layout.
 */
module BootArgs {
  import opened Bytes
  import opened Wrappers
  import opened Thumb

  /** The strings, each followed by its NUL. */
  function Strings(args: seq<seq<byte>>): seq<byte> {
    if args == [] then [] else Strings(args[..|args| - 1]) + args[|args| - 1] + [0]
  }

  function Offset(args: seq<seq<byte>>, i: nat): nat
    requires i <= |args|
  {
    |Strings(args[..i])|
  }

  function Zeros(n: nat): (z: seq<byte>)
    ensures |z| == n && forall i :: 0 <= i < n ==> z[i] == 0
  {
    seq(n, _ => 0)
  }

  function StringSize(args: seq<seq<byte>>): (n: nat) {
    AlignUp(|Strings(args)|, 4)
  }

  function TotalSize(args: seq<seq<byte>>): nat {
    StringSize(args) + 4 * (|args| + 1)
  }

  /** Pointers to the first `n` strings of an image at `base`. */
  function Pointers(args: seq<seq<byte>>, base: nat, n: nat): (p: seq<byte>)
    requires n <= |args|
    ensures |p| == 4 * n
  {
    if n == 0 then [] else Pointers(args, base, n - 1) + ToLE(base + Offset(args, n - 1), 4)
  }

  /** The image of `args` at `base`. */
  function Image(args: seq<seq<byte>>, base: nat): (b: seq<byte>)
    ensures |b| == TotalSize(args)
  {
    Strings(args) + Zeros(StringSize(args) - |Strings(args)|) + Pointers(args, base, |args|) + ToLE(0, 4)
  }

  // ---- Reading an image the way a C program does ----

  ghost predicate Holds(m: Mem, a: int, data: seq<byte>) {
    forall x {:trigger m(x)} :: a <= x < a + |data| ==> m(x) == data[x - a]
  }

  lemma HoldsSlice(m: Mem, a: int, data: seq<byte>, o: nat, n: nat)
    requires Holds(m, a, data) && o + n <= |data|
    ensures Holds(m, a + o, data[o..o + n])
  {
  }

  /** The C string at `p` is `s`. */
  ghost predicate IsCString(m: Mem, p: int, s: seq<byte>) {
    && (forall i :: 0 <= i < |s| ==> s[i] != 0)
    && Holds(m, p, s + [0])
  }

  /** `argc` and `argv` describe exactly `args`, with a null pointer after the last one. */
  ghost predicate IsArgv(m: Mem, argc: int, argv: int, args: seq<seq<byte>>) {
    && argc == |args| && argv % 4 == 0
    && (forall i :: 0 <= i < |args| ==> IsCString(m, Word(m, argv + 4 * i), args[i]))
    && Word(m, argv + 4 * argc) == 0
  }

  /** A memory has at most one C string at each address, so an argument vector is read in one way only. */
  lemma CStringUnique(m: Mem, p: int, s: seq<byte>, t: seq<byte>)
    requires IsCString(m, p, s) && IsCString(m, p, t)
    ensures s == t
  {
    assert m(p + |s|) == 0 && m(p + |t|) == 0;
    assert forall x :: p <= x < p + |s| ==> m(x) == s[x - p];
    assert forall x :: p <= x < p + |t| ==> m(x) == t[x - p];
    assert |s| == |t|;
    forall i | 0 <= i < |s| ensures s[i] == t[i] {
      assert m(p + i) == s[i];
    }
  }

  lemma {:induction false} StringsPrefix(args: seq<seq<byte>>, i: nat)
    requires i < |args|
    ensures Offset(args, i) + |args[i]| + 1 <= |Strings(args)|
    ensures Strings(args)[Offset(args, i)..Offset(args, i) + |args[i]| + 1] == args[i] + [0]
    decreases |args|
  {
    var n := |args| - 1;
    if i < n {
      StringsPrefix(args[..n], i);
      assert args[..n][..i] == args[..i];
      var o := Offset(args, i);
      assert Strings(args)[o..o + |args[i]| + 1] == Strings(args[..n])[o..o + |args[i]| + 1];
    } else {
      var o := Offset(args, i);
      assert Strings(args)[o..] == args[i] + [0];
    }
  }

  lemma {:induction false} PointersAt(args: seq<seq<byte>>, base: nat, n: nat, i: nat)
    requires i < n <= |args|
    ensures Pointers(args, base, n)[4 * i..4 * i + 4] == ToLE(base + Offset(args, i), 4)
  {
    if i == n - 1 {
      assert Pointers(args, base, n)[4 * i..] == ToLE(base + Offset(args, i), 4);
    } else {
      PointersAt(args, base, n - 1, i);
      assert Pointers(args, base, n)[4 * i..4 * i + 4] == Pointers(args, base, n - 1)[4 * i..4 * i + 4];
    }
  }

  lemma HeldWord(m: Mem, a: int, data: seq<byte>, o: nat, v: nat)
    requires Holds(m, a, data) && o + 4 <= |data| && v < WORD && data[o..o + 4] == ToLE(v, 4)
    ensures Word(m, a + o) == v
  {
    HoldsSlice(m, a, data, o, 4);
    assert Fetch(m, a + o, 4) == data[o..o + 4];
    LE4(v);
  }

  /** The three parts of an image in memory. */
  lemma HeldParts(m: Mem, args: seq<seq<byte>>, base: nat)
    requires Holds(m, base, Image(args, base))
    ensures Holds(m, base, Strings(args))
    ensures Holds(m, base + StringSize(args), Pointers(args, base, |args|))
    ensures Holds(m, base + StringSize(args) + 4 * |args|, ToLE(0, 4))
  {
    hide Holds, Strings, AlignUp, Pointers, ToLE;
    var img, n, k := Image(args, base), StringSize(args), |args|;
    HoldsSlice(m, base, img, 0, |Strings(args)|);
    assert img[0..0 + |Strings(args)|] == Strings(args);
    HoldsSlice(m, base, img, n, 4 * k);
    assert img[n..n + 4 * k] == Pointers(args, base, k);
    HoldsSlice(m, base, img, n + 4 * k, 4);
    assert img[n + 4 * k..n + 4 * k + 4] == ToLE(0, 4);
  }

  lemma HeldString(m: Mem, args: seq<seq<byte>>, base: nat, i: nat)
    requires Holds(m, base, Strings(args)) && Holds(m, base + StringSize(args), Pointers(args, base, |args|))
    requires base + TotalSize(args) <= WORD && i < |args|
    requires forall j :: 0 <= j < |args[i]| ==> args[i][j] != 0
    ensures IsCString(m, Word(m, base + StringSize(args) + 4 * i), args[i])
  {
    hide Word, Holds, Strings, Pointers, ToLE;
    var o := Offset(args, i);
    StringsPrefix(args, i);
    PointersAt(args, base, |args|, i);
    HeldWord(m, base + StringSize(args), Pointers(args, base, |args|), 4 * i, base + o);
    HoldsSlice(m, base, Strings(args), o, |args[i]| + 1);
  }

  /** A memory that holds the image of NUL-free arguments is read back as exactly those arguments. */
  lemma ImageIsArgv(m: Mem, args: seq<seq<byte>>, base: nat)
    requires Holds(m, base, Image(args, base)) && base % 4 == 0 && base + TotalSize(args) <= WORD
    requires forall i, j :: 0 <= i < |args| && 0 <= j < |args[i]| ==> args[i][j] != 0
    ensures IsArgv(m, |args|, base + StringSize(args), args)
  {
    hide Word, Holds, IsCString, Image, Pointers, Strings, ToLE;
    HeldParts(m, args, base);
    forall i | 0 <= i < |args| ensures IsCString(m, Word(m, base + StringSize(args) + 4 * i), args[i]) {
      HeldString(m, args, base, i);
    }
    HeldWord(m, base + StringSize(args) + 4 * |args|, ToLE(0, 4), 0, 0);
  }

  // ---- The loader's builder ----

  /** Python's alignment of a possibly negative address; `%` floors, as here. */
  function Align(n: int, a: int): int
    requires a > 0
  {
    n + (a - n % a) % a
  }

  /** Where the image goes, below the output address. */
  function Placement(args: seq<seq<byte>>, out: nat): int {
    Align(out - TotalSize(args) - 255, 256)
  }

  function Address(args: seq<seq<byte>>, out: nat): nat
    requires args != [] ==> Placement(args, out) >= 0
  {
    if args == [] then 0 else Placement(args, out)
  }

  /** The padded image; nothing at all when there are no arguments. */
  function Blob(args: seq<seq<byte>>, out: nat, sizealign: nat): seq<byte>
    requires sizealign > 0 && (args != [] ==> Placement(args, out) >= 0)
  {
    if args == [] then [] else BlobAt(args, Placement(args, out), sizealign)
  }

  function BlobAt(args: seq<seq<byte>>, base: nat, sizealign: nat): seq<byte>
    requires sizealign > 0
  {
    Image(args, base) + Zeros(AlignUp(TotalSize(args), sizealign) - TotalSize(args))
  }

  /** Upwards from `start` if that is given, else below `end` or else below the output address. */
  function LoadAddress(args: seq<seq<byte>>, start: Option<nat>, end: Option<nat>, out: nat): int {
    if start.Some? then Align(start.value, 256) else Placement(args, Limit(end, out))
  }

  function Limit(end: Option<nat>, out: nat): nat {
    if end.Some? then end.value else out
  }

  class BootArguments {
    const outputAddress: nat
    var args: seq<seq<byte>>
    var argc: nat
    var argv: int
    var loadAddress: int
    var blob: seq<byte>

    constructor (outputAddress: nat)
      ensures this.outputAddress == outputAddress && args == [] && argc == 0 && blob == []
    {
      this.outputAddress := outputAddress;
      args := [];
      argc, argv, loadAddress, blob := 0, 0, 0, [];
    }

    method Add(descr: seq<byte>)
      modifies this`args
      ensures args == old(args) + [descr]
    {
      args := args + [descr];
    }

    /**
     * Builds the image, padded to a multiple of `sizealign`: on the first 256-byte boundary from `start`, or
     * on the last one from which it ends by the limit. It must lie within 32 bits: the array of unsigned
     * pointers rejects anything else.
     */
    method Encode(start: Option<nat>, end: Option<nat>, sizealign: nat)
      requires sizealign > 0
      requires args != [] ==>
                 var at := LoadAddress(args, start, end, outputAddress);
                 0 <= at && at + TotalSize(args) <= WORD
      modifies this`argc, this`argv, this`loadAddress, this`blob
      ensures argc == |args| && (args == [] ==> argv == 0 && loadAddress == 0 && blob == [])
      ensures args != [] ==> argv == loadAddress + StringSize(args)
      ensures args != [] ==> loadAddress == LoadAddress(args, start, end, outputAddress) &&
                             loadAddress >= 0 && blob == BlobAt(args, loadAddress, sizealign)
      ensures args != [] ==> loadAddress % 256 == 0
      ensures args != [] && start.Some? ==> start.value <= loadAddress < start.value + 256
      ensures args != [] && start.None? ==>
                var limit := Limit(end, outputAddress);
                loadAddress + TotalSize(args) <= limit < loadAddress + TotalSize(args) + 256
    {
      if args == [] {
        argc, argv, loadAddress, blob := 0, 0, 0, [];
        return;
      }
      hide Strings, ToLE, AlignUp, Pointers, LoadAddress, Align, Limit;
      var output, argvOffset := CollectStrings(args);
      argc := |argvOffset|;
      var strsize := AlignUp(|output|, 4);
      var totsize := strsize + (argc + 1) * 4;
      var padsize := AlignUp(totsize, sizealign) - totsize;
      loadAddress := ChooseAddress(start, end, outputAddress, args, totsize);
      argv := loadAddress + strsize;
      output := output + Zeros(strsize - |output|);
      output := AppendVector(output, argvOffset, loadAddress, args);
      blob := output + Zeros(padsize);
    }
  }

  method ChooseAddress(start: Option<nat>, end: Option<nat>, out: nat, ghost args: seq<seq<byte>>, totsize: nat)
    returns (at: int)
    requires totsize == TotalSize(args)
    ensures at == LoadAddress(args, start, end, out) && at % 256 == 0
    ensures start.Some? ==> start.value <= at < start.value + 256
    ensures start.None? ==> at + totsize <= Limit(end, out) < at + totsize + 256
  {
    hide TotalSize, Align;
    if start.Some? {
      AlignBounds(start.value);
      at := Align(start.value, 256);
    } else if end.Some? {
      PlacementFits(end.value, totsize);
      at := Align(end.value - totsize - 255, 256);
    } else {
      PlacementFits(out, totsize);
      at := Align(out - totsize - 255, 256);
    }
  }

  method CollectStrings(args: seq<seq<byte>>) returns (output: seq<byte>, offsets: seq<nat>)
    ensures output == Strings(args) && |offsets| == |args|
    ensures forall i :: 0 <= i < |args| ==> offsets[i] == Offset(args, i)
  {
    output, offsets := [], [];
    for k := 0 to |args|
      invariant output == Strings(args[..k])
      invariant |offsets| == k && forall i :: 0 <= i < k ==> offsets[i] == Offset(args, i)
    {
      offsets := offsets + [|output|];
      output := output + args[k] + [0];
      assert args[..k + 1][..k] == args[..k];
    }
    assert args[..|args|] == args;
  }

  /** Writes the relocated pointers and the null pointer that ends them. */
  method AppendVector(strings: seq<byte>, offsets: seq<nat>, base: nat, ghost args: seq<seq<byte>>)
    returns (output: seq<byte>)
    requires |offsets| == |args| && forall i :: 0 <= i < |args| ==> offsets[i] == Offset(args, i)
    ensures output == strings + Pointers(args, base, |args|) + ToLE(0, 4)
  {
    output := strings;
    for i := 0 to |offsets|
      invariant output == strings + Pointers(args, base, i)
    {
      output := output + ToLE(offsets[i] + base, 4);
    }
    output := output + ToLE(0, 4);
  }

  lemma AlignBounds(n: int)
    ensures Align(n, 256) % 256 == 0 && n <= Align(n, 256) < n + 256
  {
  }

  lemma PlacementFits(out: nat, totsize: nat)
    ensures var la := Align(out - totsize - 255, 256);
            la % 256 == 0 && la + totsize <= out < la + totsize + 256
  {
    hide Align;
    AlignBounds(out - totsize - 255);
  }

  /** Without a start or an end the blob goes below the output address. */
  lemma DefaultPlacement(args: seq<seq<byte>>, out: nat)
    requires args != [] ==> Placement(args, out) >= 0
    ensures args == [] ==> Address(args, out) == 0 && Blob(args, out, 16) == []
    ensures args != [] ==>
              var at := LoadAddress(args, None, None, out);
              at == Address(args, out) == Placement(args, out) && at + TotalSize(args) <= out &&
              Blob(args, out, 16) == BlobAt(args, at, 16)
  {
    hide TotalSize;
    PlacementFits(out, TotalSize(args));
  }

  // ---- The debugger extension's builder ----

  const TOP := 0xc0000

  class Arglist {
    var args: seq<byte>
    var argv: seq<nat>
    ghost var added: seq<seq<byte>>

    ghost predicate Valid()
      reads this
    {
      && args == Strings(added) && |argv| == |added|
      && forall i :: 0 <= i < |added| ==> argv[i] == Offset(added, i)
    }

    constructor ()
      ensures Valid() && added == []
    {
      args, argv, added := [], [], [];
    }

    method Add(arg: seq<byte>)
      requires Valid()
      modifies this
      ensures Valid() && added == old(added) + [arg]
    {
      argv := argv + [|args|];
      args := args + arg + [0];
      ghost var was := added;
      added := added + [arg];
      assert added[..|was|] == was;
      assert forall i :: 0 <= i <= |was| ==> added[..i] == was[..i];
    }

    /** The address and octets written to the target, and what r0 and r1 are set to. */
    method Encode() returns (addr: nat, written: seq<byte>, r0: nat, r1: nat)
      requires Valid() && TotalSize(added) <= TOP
      modifies this`args
      ensures added == [] ==> written == [] && r0 == 0 && r1 == 0
      ensures added != [] ==>
                && written == Image(added, addr) && r0 == |added| && r1 == addr + StringSize(added)
                && addr % 256 == 0 && addr + |written| <= TOP && addr == TOP - AlignUp(TotalSize(added), 256)
    {
      if argv == [] {
        return 0, [], 0, 0;
      }
      var argc := |argv|;
      var strsize := AlignUp(|args|, 4);
      var totsize := strsize + (argc + 1) * 4;
      AlignedTop(totsize);
      addr := TOP - AlignUp(totsize, 256);
      args := args + Zeros(strsize - |args|);
      args := AppendVector(args, argv, addr, added);
      return addr, args, argc, addr + strsize;
    }
  }

  lemma AlignedTop(totsize: nat)
    requires totsize <= TOP
    ensures AlignUp(totsize, 256) <= TOP && (TOP - AlignUp(totsize, 256)) % 256 == 0
  {
    assert TOP % 256 == 0;
  }

  /** The two scripts put the same arguments at the same place. */
  lemma SamePlacement(totsize: nat)
    requires totsize <= TOP
    ensures Align(TOP - totsize - 255, 256) == TOP - AlignUp(totsize, 256)
  {
    var a, b := Align(TOP - totsize - 255, 256), TOP - AlignUp(totsize, 256);
    PlacementFits(TOP, totsize);
    AlignedTop(totsize);
    assert a % 256 == 0 && TOP - totsize - 255 <= a <= TOP - totsize;
    assert b % 256 == 0 && TOP - totsize - 255 <= b <= TOP - totsize;
    SameMultiple(a, b, TOP - totsize - 255);
  }

  lemma SameMultiple(a: int, b: int, low: int)
    requires a % 256 == 0 && b % 256 == 0 && low <= a <= low + 255 && low <= b <= low + 255
    ensures a == b
  {
    assert a == 256 * (a / 256) && b == 256 * (b / 256);
  }
}
