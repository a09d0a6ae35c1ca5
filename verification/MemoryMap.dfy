/**
 * The coalescing set of address ranges that a boot stream keeps of everything it has written.
 */
module MemoryMap {
  import opened Wrappers

  datatype Range = Range(start: int, end: int)

  /** The order of the sort key: pairs (start, end), compared as Python compares them. */
  predicate Leq(a: Range, b: Range) {
    a.start < b.start || (a.start == b.start && a.end <= b.end)
  }

  predicate Ordered(rs: seq<Range>) {
    forall i, j :: 0 <= i < j < |rs| ==>
      rs[i].start <= rs[j].start && (rs[i].start == rs[j].start ==> rs[i].end <= rs[j].end)
  }

  ghost predicate Covers(rs: seq<Range>, a: int) {
    exists i :: 0 <= i < |rs| && rs[i].start <= a < rs[i].end
  }

  /** Non-empty ranges in address order with at least one free address between neighbours. */
  ghost predicate Normal(rs: seq<Range>) {
    && (forall i :: 0 <= i < |rs| ==> rs[i].start < rs[i].end)
    && (forall i, j :: 0 <= i < j < |rs| ==> rs[i].end < rs[j].start)
  }

  /** Where a stable sort puts `r`: after every element that does not come later. */
  function Place(rs: seq<Range>, r: Range): (p: nat)
    requires Ordered(rs)
    ensures p <= |rs|
    ensures forall i :: 0 <= i < p ==> Leq(rs[i], r)
    ensures forall i :: p <= i < |rs| ==> Leq(r, rs[i])
  {
    if rs == [] || Leq(rs[|rs| - 1], r) then |rs| else Place(rs[..|rs| - 1], r)
  }

  function Insert(rs: seq<Range>, r: Range): (out: seq<Range>)
    requires Ordered(rs)
    ensures Ordered(out)
  {
    var p := Place(rs, r);
    rs[..p] + [r] + rs[p..]
  }

  /** The library sort of a list of ranges, by key, stable. */
  function Sort(rs: seq<Range>): (out: seq<Range>)
    ensures Ordered(out)
  {
    if rs == [] then [] else Insert(Sort(rs[..|rs| - 1]), rs[|rs| - 1])
  }

  /** With the order that `Sort` promises, what makes it a sort. */
  lemma {:induction false} SortPermutes(rs: seq<Range>)
    ensures multiset(Sort(rs)) == multiset(rs)
  {
    if rs != [] {
      hide Insert, Ordered;
      var init, r := rs[..|rs| - 1], rs[|rs| - 1];
      SortPermutes(init);
      assert Sort(rs) == Insert(Sort(init), r);
      InsertPermutes(Sort(init), r);
      hide Sort;
      LastOut(rs);
    }
  }

  lemma LastOut(rs: seq<Range>)
    requires rs != []
    ensures multiset(rs) == multiset(rs[..|rs| - 1]) + multiset{rs[|rs| - 1]}
  {
    assert rs == rs[..|rs| - 1] + [rs[|rs| - 1]];
  }

  lemma InsertPermutes(rs: seq<Range>, r: Range)
    requires Ordered(rs)
    ensures multiset(Insert(rs, r)) == multiset(rs) + multiset{r}
  {
    var p := Place(rs, r);
    hide Place, Ordered;
    assert rs == rs[..p] + rs[p..];
  }

  lemma InsertLast(rs: seq<Range>, r: Range)
    requires Ordered(rs + [r])
    ensures Ordered(rs) && Insert(rs, r) == rs + [r]
  {
    assert forall i :: 0 <= i < |rs| ==> (rs + [r])[i] == rs[i];
    if rs != [] {
      assert Leq((rs + [r])[|rs| - 1], (rs + [r])[|rs|]);
    }
    assert Place(rs, r) == |rs|;
  }

  lemma {:induction false} SortOrdered(rs: seq<Range>)
    requires Ordered(rs)
    ensures Sort(rs) == rs
  {
    if rs != [] {
      hide Insert, Leq;
      SortOrdered(rs[..|rs| - 1]);
      assert rs == rs[..|rs| - 1] + [rs[|rs| - 1]];
      InsertLast(rs[..|rs| - 1], rs[|rs| - 1]);
    }
  }

  /** Sorting a sorted list with one more element at its end puts that element in place. */
  lemma SortAppended(rs: seq<Range>, r: Range) returns (p: nat)
    requires Ordered(rs)
    ensures p <= |rs| && Sort(rs + [r]) == rs[..p] + [r] + rs[p..]
  {
    SortOrdered(rs);
    assert (rs + [r])[..|rs|] == rs;
    assert Sort(rs + [r]) == Insert(rs, r);
    p := Place(rs, r);
  }

  /** Two normal lists that cover the same addresses are the same list. */
  lemma {:induction false} NormalFormUnique(xs: seq<Range>, ys: seq<Range>)
    requires Normal(xs) && Normal(ys)
    requires forall a :: Covers(xs, a) <==> Covers(ys, a)
    ensures xs == ys
  {
    CoversHead(xs);
    CoversHead(ys);
    if xs != [] && ys != [] {
      hide Covers;
      SameHead(xs, ys);
      SameHead(ys, xs);
      TailsAlike(xs, ys);
      NormalFormUnique(xs[1..], ys[1..]);
      assert xs == [xs[0]] + xs[1..] && ys == [ys[0]] + ys[1..];
    }
  }

  lemma TailsAlike(xs: seq<Range>, ys: seq<Range>)
    requires Normal(xs) && Normal(ys) && xs != [] && ys != [] && xs[0] == ys[0]
    requires forall a :: Covers(xs, a) <==> Covers(ys, a)
    ensures Normal(xs[1..]) && Normal(ys[1..])
    ensures forall a :: Covers(xs[1..], a) <==> Covers(ys[1..], a)
  {
    hide Covers;
    forall a ensures Covers(xs[1..], a) <==> Covers(ys[1..], a) {
      TailCovers(xs, a);
      TailCovers(ys, a);
    }
  }

  lemma CoversHead(xs: seq<Range>)
    requires Normal(xs)
    ensures xs != [] ==> Covers(xs, xs[0].start)
  {
  }

  lemma SameHead(xs: seq<Range>, ys: seq<Range>)
    requires Normal(xs) && Normal(ys) && xs != [] && ys != []
    requires forall a :: Covers(xs, a) <==> Covers(ys, a)
    ensures ys[0].start <= xs[0].start && ys[0].end >= xs[0].end
  {
    assert Covers(xs, xs[0].start);
    assert Covers(ys, xs[0].start);
    assert Covers(ys, ys[0].start);
    assert Covers(xs, ys[0].start);
    if ys[0].end < xs[0].end {
      assert Covers(xs, ys[0].end);
      assert false;
    }
  }

  lemma TailCovers(xs: seq<Range>, a: int)
    requires Normal(xs) && xs != []
    ensures Covers(xs[1..], a) <==> Covers(xs, a) && a >= xs[0].end
  {
    if Covers(xs, a) && a >= xs[0].end {
      var i :| 0 <= i < |xs| && xs[i].start <= a < xs[i].end;
      assert xs[1..][i - 1] == xs[i];
    }
    if Covers(xs[1..], a) {
      var i :| 0 <= i < |xs[1..]| && xs[1..][i].start <= a < xs[1..][i].end;
      assert xs[i + 1] == xs[1..][i];
    }
  }

  lemma CoversAppend(rs: seq<Range>, r: Range, a: int)
    ensures Covers(rs + [r], a) <==> Covers(rs, a) || r.start <= a < r.end
  {
    if Covers(rs, a) {
      var i :| 0 <= i < |rs| && rs[i].start <= a < rs[i].end;
      assert (rs + [r])[i] == rs[i];
    }
    assert (rs + [r])[|rs|] == r;
  }

  /** `acc` is the coalesced form of the disjoint ranges `pre`. */
  ghost predicate Coalesced(acc: seq<Range>, pre: seq<Range>) {
    && Normal(acc) && acc != [] && pre != []
    && (forall a :: Covers(acc, a) <==> Covers(pre, a))
    && acc[|acc| - 1].end == pre[|pre| - 1].end
    && (forall i, j :: 0 <= i < j < |pre| ==> pre[i].end <= pre[j].start)
    && (forall i :: 0 <= i < |pre| ==> pre[i].start < pre[i].end)
  }

  lemma CoalesceTouching(out: seq<Range>, last: Range, pre: seq<Range>, r: Range)
    requires Coalesced(out + [last], pre) && last.end == r.start < r.end
    ensures Coalesced(out + [Range(last.start, r.end)], pre + [r])
  {
    var merged := out + [Range(last.start, r.end)];
    assert (out + [last])[|out|] == last;
    assert forall i :: 0 <= i < |out| ==> (out + [last])[i] == out[i] && merged[i] == out[i];
    forall a ensures Covers(merged, a) <==> Covers(pre + [r], a) {
      CoversAppend(out, last, a);
      CoversAppend(out, Range(last.start, r.end), a);
      CoversAppend(pre, r, a);
    }
    EndsBelow(pre);
  }

  lemma CoalesceApart(out: seq<Range>, last: Range, pre: seq<Range>, r: Range)
    requires Coalesced(out + [last], pre) && last.end < r.start < r.end
    ensures Coalesced(out + [last] + [r], pre + [r])
  {
    var acc := out + [last];
    assert acc[|out|] == last;
    forall a ensures Covers(acc + [r], a) <==> Covers(pre + [r], a) {
      CoversAppend(acc, r, a);
      CoversAppend(pre, r, a);
    }
    EndsBelow(pre);
  }

  lemma EndsBelow(pre: seq<Range>)
    requires pre != []
    requires forall i, j :: 0 <= i < j < |pre| ==> pre[i].end <= pre[j].start
    requires forall i :: 0 <= i < |pre| ==> pre[i].start < pre[i].end
    ensures forall i :: 0 <= i < |pre| ==> pre[i].end <= pre[|pre| - 1].end
  {
  }

  /** What the merging loop holds: nothing yet, a range, or the number that an overlap leaves in its place. */
  datatype Last = Nothing | Of(r: Range) | Number(n: int)

  /** How the loop ends; a number followed by another range makes it raise an exception. */
  datatype Merge = Merged(ranges: seq<Range>) | Numbered(ranges: seq<Range>, n: int) | Raises

  /** The ranges `tmp[k - 1]` and `tmp[k]` overlap, and those before do not. */
  ghost predicate FirstOverlap(tmp: seq<Range>, k: int) {
    && 0 < k < |tmp| && tmp[k - 1].start <= tmp[k].start < tmp[k - 1].end
    && forall i, j :: 0 <= i < j < k ==> tmp[i].end <= tmp[j].start
  }

  /** The merging loop over a sorted list. */
  method MergeSorted(tmp: seq<Range>) returns (out: Merge)
    requires Ordered(tmp) && tmp != []
    requires forall i :: 0 <= i < |tmp| ==> tmp[i].start < tmp[i].end
    ensures out.Merged? ==> Coalesced(out.ranges, tmp)
    ensures out.Numbered? ==> FirstOverlap(tmp, |tmp| - 1) && out.n == Later(tmp[|tmp| - 2].end, tmp[|tmp| - 1].end)
    ensures out.Raises? ==> exists k :: k < |tmp| - 1 && FirstOverlap(tmp, k)
  {
    var ranges, rlast := [], Nothing;
    for k := 0 to |tmp|
      invariant rlast.Nothing? ==> k == 0 && ranges == []
      invariant rlast.Of? ==> k > 0 && Coalesced(ranges + [rlast.r], tmp[..k])
      invariant rlast.Number? ==> k > 1 && FirstOverlap(tmp, k - 1) && rlast.n == Later(tmp[k - 2].end, tmp[k - 1].end)
    {
      hide Coalesced, FirstOverlap;
      var r := tmp[k];
      assert tmp[..k + 1] == tmp[..k] + [r];
      if rlast.Number? {
        return Raises;
      }
      if rlast.Of? {
        if rlast.r.end == r.start {
          CoalesceTouching(ranges, rlast.r, tmp[..k], r);
          rlast := Of(Range(rlast.r.start, r.end));
          continue;
        }
        if r.start < rlast.r.end {
          MeetsLast(ranges, rlast.r, tmp, k);
          rlast := Number(Later(rlast.r.end, r.end));
          continue;
        }
        CoalesceApart(ranges, rlast.r, tmp[..k], r);
        ranges := ranges + [rlast.r];
      } else {
        CoalesceOne(r);
        assert ranges + [r] == [r] && tmp[..1] == [r];
      }
      rlast := Of(r);
    }
    assert tmp[..|tmp|] == tmp;
    return if rlast.Of? then Merged(ranges + [rlast.r]) else Numbered(ranges, rlast.n);
  }

  lemma MeetsLast(out: seq<Range>, last: Range, tmp: seq<Range>, k: nat)
    requires 0 < k < |tmp| && Ordered(tmp) && Coalesced(out + [last], tmp[..k]) && tmp[k].start < last.end
    ensures FirstOverlap(tmp, k) && last.end == tmp[k - 1].end
  {
    assert Leq(tmp[k - 1], tmp[k]);
    assert forall i :: 0 <= i < k ==> tmp[..k][i] == tmp[i];
  }

  function Later(a: int, b: int): int {
    if a >= b then a else b
  }

  /** A normal list with one more range, sorted, is the list with the range in its place. */
  lemma Inserted(was: seq<Range>, r: Range) returns (p: nat)
    requires Normal(was) && r.start < r.end
    ensures var tmp := Sort(was + [r]);
            && p <= |was| && tmp == was[..p] + [r] + was[p..] && Ordered(tmp) && tmp != []
            && forall i :: 0 <= i < |tmp| ==> tmp[i].start < tmp[i].end
  {
    hide Sort;
    p := SortAppended(was, r);
  }

  /** Nothing in [start, end) is covered. */
  ghost predicate Clear(rs: seq<Range>, start: int, end: int) {
    forall a :: start <= a < end ==> !Covers(rs, a)
  }

  /** The ranges `now` cover what `was` covered, and [start, end). */
  ghost predicate Joined(was: seq<Range>, now: seq<Range>, start: int, end: int) {
    forall a :: Covers(now, a) <==> Covers(was, a) || start <= a < end
  }

  /** All but the last of the ranges. */
  function Lower(rs: seq<Range>): seq<Range> {
    if rs == [] then [] else rs[..|rs| - 1]
  }

  class Memory {
    var ranges: seq<Range>
    /** What an overlap has left at the end of the list in place of a range. */
    var number: Option<int>

    constructor ()
      ensures ranges == [] && number == None
    {
      ranges, number := [], None;
    }

    /**
     * Adds one range and merges it with the neighbours it touches. `ok` is false when that raises an exception:
     * after an earlier overlap always, and otherwise exactly when the new range meets one that is not the last.
     * When it meets the last one only, a number takes its place.
     */
    method Add(start: nat, end: nat) returns (ok: bool)
      requires (number == None ==> Normal(ranges)) && start < end
      modifies this
      ensures ok <==> old(number) == None && Clear(Lower(old(ranges)), start, end)
      ensures ok ==> (number == None <==> Clear(old(ranges), start, end))
      ensures ok && number == None ==> Normal(ranges) && Joined(old(ranges), ranges, start, end)
      ensures ok && number != None ==> old(ranges) != []
      ensures ok && number != None ==> var last := old(ranges)[|old(ranges)| - 1].end;
                                       number.value == if last > end then last else end
    {
      hide Sort, Covers, Coalesced, Clear, Joined, Normal, Ordered, FirstOverlap, Lower;
      if number != None {
        return false;
      }
      ghost var added := Range(start, end);
      var tmp := Sort(ranges + [Range(start, end)]);
      ghost var p := Inserted(ranges, added);
      var merged := MergeSorted(tmp);
      match merged
      case Raises =>
        ghost var k :| k < |tmp| - 1 && FirstOverlap(tmp, k);
        MeetsLower(ranges, added, p, tmp, k);
        return false;
      case Numbered(rs, n) =>
        MeetsHighest(ranges, added, p, tmp);
        ranges, number := rs, Some(n);
        return true;
      case Merged(rs) =>
        AllOf(ranges, added, p, tmp, rs);
        ranges := rs;
        return true;
    }
  }

  lemma CoalesceOne(r: Range)
    requires r.start < r.end
    ensures Coalesced([r], [r])
  {
  }

  /** An overlap found before the end of the list is one with a range that is not the last. */
  lemma MeetsLower(was: seq<Range>, r: Range, p: nat, tmp: seq<Range>, k: int)
    requires Normal(was) && r.start < r.end && p <= |was| && tmp == was[..p] + [r] + was[p..]
    requires FirstOverlap(tmp, k) && k < |tmp| - 1
    ensures !Clear(Lower(was), r.start, r.end)
  {
    var a := tmp[k].start;
    assert p == k - 1 || p == k;
    if p == k {
      assert was[k - 1] == tmp[k - 1];
    } else {
      assert was[k - 1] == tmp[k];
    }
    assert Lower(was)[k - 1] == was[k - 1];
    assert Covers(Lower(was), a);
  }

  /** An overlap found at the end of the list is one with the last range, and with no other. */
  lemma MeetsHighest(was: seq<Range>, r: Range, p: nat, tmp: seq<Range>)
    requires Normal(was) && r.start < r.end && p <= |was| && tmp == was[..p] + [r] + was[p..] && Ordered(tmp)
    requires FirstOverlap(tmp, |tmp| - 1)
    ensures was != [] && !Clear(was, r.start, r.end) && Clear(Lower(was), r.start, r.end)
    ensures Later(tmp[|tmp| - 2].end, tmp[|tmp| - 1].end) == Later(was[|was| - 1].end, r.end)
  {
    var k := |tmp| - 1;
    assert p == k - 1 || p == k;
    var last := was[k - 1];
    if p == k {
      assert last == tmp[k - 1] && r == tmp[k];
    } else {
      assert last == tmp[k] && r == tmp[k - 1];
    }
    assert Covers(was, tmp[k].start);
    forall a | r.start <= a < r.end ensures !Covers(Lower(was), a) {
      forall i | 0 <= i < k - 1 ensures !(was[i].start <= a < was[i].end) {
        assert tmp[i] == was[i];
      }
    }
  }

  /** A merge that finds no overlap covers the old ranges and the new one, which were disjoint. */
  lemma AllOf(was: seq<Range>, r: Range, p: nat, tmp: seq<Range>, out: seq<Range>)
    requires p <= |was| && tmp == was[..p] + [r] + was[p..] && Coalesced(out, tmp)
    ensures Normal(out) && Joined(was, out, r.start, r.end)
    ensures Clear(was, r.start, r.end) && Clear(Lower(was), r.start, r.end)
  {
    assert tmp[p] == r;
    forall a ensures Covers(out, a) <==> Covers(was, a) || r.start <= a < r.end {
      InsertedCovers(was, r, p, tmp, a);
    }
    forall i | 0 <= i < |was| ensures was[i].end <= r.start || r.end <= was[i].start {
      assert tmp[if i < p then i else i + 1] == was[i];
    }
  }

  lemma InsertedCovers(was: seq<Range>, r: Range, p: nat, tmp: seq<Range>, a: int)
    requires p <= |was| && tmp == was[..p] + [r] + was[p..]
    ensures Covers(tmp, a) <==> Covers(was, a) || r.start <= a < r.end
  {
    assert tmp[p] == r;
    if Covers(tmp, a) {
      var i :| 0 <= i < |tmp| && tmp[i].start <= a < tmp[i].end;
      if i != p {
        assert was[if i < p then i else i - 1] == tmp[i];
      }
    }
    if Covers(was, a) {
      var i :| 0 <= i < |was| && was[i].start <= a < was[i].end;
      assert tmp[if i < p then i else i + 1] == was[i];
    }
  }
}
