/**
 * Finding the synchronisation pattern in the octets a serial line delivers. The search keeps the octets
 * matched so far and, on a mismatch, falls back to the last octet alone.
 */
module HioSync {
  import opened Bytes
  import opened HioLink

  function Advance(p: seq<byte>, s: seq<byte>, c: byte): seq<byte> {
    if s + [c] <= p then s + [c] else [c]
  }

  /** What is held after reading all of `input`. */
  function Matched(p: seq<byte>, input: seq<byte>): seq<byte> {
    if input == [] then [] else Advance(p, Matched(p, input[..|input| - 1]), input[|input| - 1])
  }

  predicate EndsWith(input: seq<byte>, p: seq<byte>) {
    |p| <= |input| && input[|input| - |p|..] == p
  }

  /** The search has reported the pattern somewhere in `input`. */
  predicate Stops(p: seq<byte>, input: seq<byte>) {
    exists j | 0 <= j <= |input| :: Matched(p, input[..j]) == p
  }

  /**
   * Wherever a beginning of the pattern occurs again inside a longer beginning, the pattern goes on in the
   * same way at both places.
   */
  predicate Safe(p: seq<byte>) {
    forall b, k {:trigger p[..b], p[..k]} :: 1 <= b < k < |p| && EndsWith(p[..k], p[..b]) ==> p[b] == p[k]
  }

  // ---- What is always so ----

  /** What is held is the end of what was read, and is a beginning of the pattern or a single octet. */
  lemma {:induction false} MatchedIsRecent(p: seq<byte>, input: seq<byte>)
    ensures var s := Matched(p, input); EndsWith(input, s) && (s <= p || |s| == 1)
    ensures Matched(p, input) == [] <==> input == []
  {
    if input != [] {
      var before, c := input[..|input| - 1], input[|input| - 1];
      MatchedIsRecent(p, before);
      assert input == before + [c];
      hide EndsWith;
      EndExtends(before, Matched(p, before), c);
      EndExtends(before, [], c);
      assert [] + [c] == [c];
    }
  }

  lemma EndExtends(input: seq<byte>, s: seq<byte>, c: byte)
    requires EndsWith(input, s) || s == []
    ensures EndsWith(input + [c], s + [c])
  {
    var n := |input| - |s|;
    assert (input + [c])[n..] == input[n..] + [c];
  }

  // ---- Safe patterns are never missed ----

  /** The pattern has not occurred before the end of the input. */
  predicate Unseen(p: seq<byte>, input: seq<byte>) {
    forall j | 0 <= j < |input| :: !EndsWith(input[..j], p)
  }

  lemma UnseenBefore(p: seq<byte>, input: seq<byte>)
    requires input != [] && Unseen(p, input)
    ensures var before := input[..|input| - 1]; Unseen(p, before) && !EndsWith(before, p)
  {
    hide EndsWith;
    var before := input[..|input| - 1];
    forall j | 0 <= j < |before| ensures !EndsWith(before[..j], p) {
      assert before[..j] == input[..j];
    }
  }

  /** Every beginning of the pattern that ends the input is held. */
  lemma {:induction false} HoldsEnough(p: seq<byte>, input: seq<byte>, b: nat)
    requires Safe(p) && 1 <= b <= |p| && EndsWith(input, p[..b]) && Unseen(p, input)
    ensures b <= |Matched(p, input)|
  {
    MatchedIsRecent(p, input);
    assert input != [];
    hide Safe, EndsWith, Unseen;
    if b > 1 {
      var before, c := input[..|input| - 1], input[|input| - 1];
      EndsBefore(input, p, b);
      UnseenBefore(p, input);
      HoldsEnough(p, before, b - 1);
      MatchedIsRecent(p, before);
      Continues(p, before, Matched(p, before), b - 1, c);
    }
  }

  lemma EndsBefore(input: seq<byte>, p: seq<byte>, b: nat)
    requires 1 < b <= |p| && EndsWith(input, p[..b])
    ensures input[|input| - 1] == p[b - 1] && EndsWith(input[..|input| - 1], p[..b - 1])
  {
    var tail := input[|input| - b..];
    assert tail == p[..b];
    assert tail[b - 1] == input[|input| - 1];
    assert input[..|input| - 1][|input| - b..] == tail[..b - 1] == p[..b - 1];
  }

  lemma Continues(p: seq<byte>, before: seq<byte>, s: seq<byte>, b: nat, c: byte)
    requires Safe(p) && 1 <= b < |p| && c == p[b]
    requires EndsWith(before, s) && EndsWith(before, p[..b]) && b <= |s| && (s <= p || |s| == 1)
    requires !EndsWith(before, p)
    ensures s + [c] <= p
  {
    var k := |s|;
    SuffixOfSuffix(before, s, p[..b]);
    hide EndsWith;
    assert s <= p by {
      if |s| == 1 {
        assert s == p[..1] by {
          SameLength(s, p[..b]);
        }
      }
    }
    assert s == p[..k];
    SuffixShorter(before, s, p);
    assert p[b] == p[k];
    assert s + [c] == p[..k + 1];
  }

  lemma SuffixOfSuffix(input: seq<byte>, s: seq<byte>, t: seq<byte>)
    requires EndsWith(input, s) && EndsWith(input, t) && |t| <= |s|
    ensures EndsWith(s, t)
  {
    assert s[|s| - |t|..] == input[|input| - |t|..];
  }

  lemma SameLength(s: seq<byte>, t: seq<byte>)
    requires EndsWith(s, t) && |s| == |t|
    ensures s == t
  {
  }

  lemma SuffixShorter(input: seq<byte>, s: seq<byte>, p: seq<byte>)
    requires EndsWith(input, s) && s <= p && !EndsWith(input, p)
    ensures |s| < |p|
  {
  }

  lemma FirstOccurrenceStops(p: seq<byte>, input: seq<byte>)
    requires Safe(p) && p != [] && EndsWith(input, p) && Unseen(p, input)
    ensures Matched(p, input) == p
  {
    assert p[..|p|] == p;
    HoldsEnough(p, input, |p|);
    MatchedIsRecent(p, input);
    var s := Matched(p, input);
    assert |s| == |p|;
  }

  lemma {:induction false} SafeStops(p: seq<byte>, input: seq<byte>)
    requires Safe(p) && p != [] && EndsWith(input, p)
    ensures Stops(p, input)
    decreases |input|
  {
    if j :| 0 <= j < |input| && EndsWith(input[..j], p) {
      SafeStops(p, input[..j]);
      var i :| 0 <= i <= j && Matched(p, input[..j][..i]) == p;
      assert input[..j][..i] == input[..i];
    } else {
      FirstOccurrenceStops(p, input);
      assert input[..|input|] == input;
    }
  }

  // ---- Other patterns can be missed ----

  lemma {:induction false} PrefixIsHeld(p: seq<byte>, k: nat)
    requires k <= |p|
    ensures Matched(p, p[..k]) == p[..k]
  {
    if k > 0 {
      PrefixIsHeld(p, k - 1);
      assert p[..k][..k - 1] == p[..k - 1];
      assert p[..k - 1] + [p[k - 1]] == p[..k];
    }
  }

  lemma {:induction false} GrowsByOne(p: seq<byte>, input: seq<byte>, more: seq<byte>)
    ensures |Matched(p, input + more)| <= |Matched(p, input)| + |more|
    decreases |more|
  {
    if more == [] {
      assert input + more == input;
    } else {
      var less := more[..|more| - 1];
      GrowsByOne(p, input, less);
      assert (input + more)[..|input + more| - 1] == input + less;
    }
  }

  /** A beginning of `p` that continues differently at two places gives a stream in which `p` is missed. */
  lemma Missed(p: seq<byte>, b: nat, k: nat) returns (input: seq<byte>)
    requires 1 <= b < k < |p| && EndsWith(p[..k], p[..b]) && p[b] != p[k]
    ensures input == p[..k] + p[b..] && EndsWith(input, p) && !Stops(p, input)
  {
    input := p[..k] + p[b..];
    var n := |input|;
    Overlaps(p, b, k);
    FallsBack(p, b, k);
    hide Matched, EndsWith;
    forall j | 0 <= j <= n ensures Matched(p, input[..j]) != p {
      if j <= k {
        PrefixIsHeld(p, j);
        assert input[..j] == p[..j];
      } else {
        assert input[..j] == (p[..k] + [p[b]]) + p[b + 1..][..j - k - 1];
        GrowsByOne(p, p[..k] + [p[b]], p[b + 1..][..j - k - 1]);
      }
    }
  }

  lemma Overlaps(p: seq<byte>, b: nat, k: nat)
    requires b < k < |p| && EndsWith(p[..k], p[..b])
    ensures EndsWith(p[..k] + p[b..], p)
  {
    var input := p[..k] + p[b..];
    assert input[k - b..k] == p[..k][k - b..] == p[..b];
    assert input[k - b..] == p[..b] + p[b..] == p;
  }

  lemma FallsBack(p: seq<byte>, b: nat, k: nat)
    requires b < k < |p| && p[b] != p[k]
    ensures Matched(p, p[..k] + [p[b]]) == [p[b]]
  {
    PrefixIsHeld(p, k);
    var input := p[..k] + [p[b]];
    assert input[..k] == p[..k] && input[k] == p[b];
  }

  /** The pattern is found on every stream exactly when it is safe. */
  lemma FoundIffSafe(p: seq<byte>)
    requires p != []
    ensures Safe(p) <==> forall input :: EndsWith(input, p) ==> Stops(p, input)
  {
    if Safe(p) {
      forall input | EndsWith(input, p) ensures Stops(p, input) {
        SafeStops(p, input);
      }
    } else {
      var b, k :| 1 <= b < k < |p| && EndsWith(p[..k], p[..b]) && p[b] != p[k];
      var input := Missed(p, b, k);
    }
  }

  /** A pattern whose first octet does not come again in it is safe. */
  lemma FreshStartIsSafe(p: seq<byte>)
    requires p != [] && p[0] !in p[1..]
    ensures Safe(p)
  {
    forall b, k | 1 <= b < k < |p| ensures !EndsWith(p[..k], p[..b]) {
      assert p[..k][k - b..][0] == p[k - b] == p[1..][k - b - 1];
      assert p[..b][0] == p[0];
    }
  }

  /** For instance "aab" is not found in "aaab". */
  lemma MissedExample()
    ensures var p, input := [0x61, 0x61, 0x62], [0x61, 0x61, 0x61, 0x62];
            EndsWith(input, p) && !Stops(p, input)
  {
    var p: seq<byte>, input: seq<byte> := [0x61, 0x61, 0x62], [0x61, 0x61, 0x61, 0x62];
    assert p[..2][1..] == p[..1];
    var found := Missed(p, 1, 2);
    assert found == input;
  }

  // ---- The loop ----

  /** The octets among what arrives. */
  function Arriving(items: seq<Item>): seq<byte> {
    if items == [] then []
    else (if items[0].Octet? then [items[0].value] else []) + Arriving(items[1..])
  }

  /**
   * Reads octets until the pattern is held. It consumes no more than that, it only stops right after an
   * occurrence, and with a safe pattern it stops after the first one.
   */
  method Sync(link: Link, p: seq<byte>) returns (found: bool, ghost seen: seq<byte>)
    modifies link
    ensures Arriving(old(link.items)) == seen + Arriving(link.items)
    ensures found ==> EndsWith(seen, p)
    ensures !found ==> link.items == [] && !Stops(p, seen)
    ensures Safe(p) ==> forall j :: 0 <= j < |seen| ==> !EndsWith(seen[..j], p)
    ensures Safe(p) && !found ==> !EndsWith(seen, p)
  {
    hide Matched, Arriving, Stops, Safe, EndsWith, Holds, Gather;
    seen := [];
    SyncStarts(p, link.items);
    if p == [] {
      return true, [];
    }
    var s: seq<byte> := [];
    while s != p && link.items != []
      invariant Arriving(old(link.items)) == seen + Arriving(link.items)
      invariant Holds(p, seen, s)
      invariant forall j | 0 <= j < |seen| :: Matched(p, seen[..j]) != p
      decreases |link.items|
    {
      ghost var all := link.items;
      var r := link.Read(1);
      SyncArrives(seen, all, r, link.items);
      SyncHolds(p, seen, s, r);
      s := s + r;
      if !(s <= p) {
        s := r;
      }
      seen := seen + r;
    }
    found := s == p;
    SyncHolds(p, seen, s, []);
    MatchedIsRecent(p, seen);
    Reported(p, seen, found);
  }

  /** A read that times out while a useless octet is held drops that octet. */
  predicate Holds(p: seq<byte>, seen: seq<byte>, s: seq<byte>) {
    s == Matched(p, seen) || (s == [] && !(Matched(p, seen) <= p))
  }

  lemma SyncStarts(p: seq<byte>, items: seq<Item>)
    ensures Holds(p, [], []) && EndsWith([], []) && Arriving(items) == [] + Arriving(items)
  {
  }

  lemma SyncArrives(seen: seq<byte>, all: seq<Item>, r: seq<byte>, rest: seq<Item>)
    requires all != [] && |r| <= 1 && (r == [] ==> Gather(all, 1) == Short(rest))
    requires r != [] ==> all == Octets(r) + rest
    ensures |rest| < |all| && seen + Arriving(all) == (seen + r) + Arriving(rest)
  {
    hide Arriving, Gather, Octets;
    ArrivesOne(all, r, rest);
    Regroup(seen, r, Arriving(rest));
  }

  lemma ArrivesOne(all: seq<Item>, r: seq<byte>, rest: seq<Item>)
    requires all != [] && |r| <= 1 && (r == [] ==> Gather(all, 1) == Short(rest))
    requires r != [] ==> all == Octets(r) + rest
    ensures |rest| < |all| && Arriving(all) == r + Arriving(rest)
  {
    hide Arriving, Gather, Octets;
    ArrivingStep(all);
    if r != [] {
      OctetHead(r, all, rest);
    } else {
      QuietHead(all, rest);
    }
  }

  lemma Regroup(a: seq<byte>, b: seq<byte>, c: seq<byte>)
    ensures a + (b + c) == a + b + c
  {
  }

  lemma ArrivingStep(items: seq<Item>)
    requires items != []
    ensures Arriving(items) == (if items[0].Octet? then [items[0].value] else []) + Arriving(items[1..])
  {
  }

  lemma OctetHead(r: seq<byte>, all: seq<Item>, rest: seq<Item>)
    requires |r| == 1 && all == Octets(r) + rest
    ensures all != [] && all[0] == Octet(r[0]) && all[1..] == rest && [r[0]] == r
  {
  }

  lemma QuietHead(all: seq<Item>, rest: seq<Item>)
    requires all != [] && Gather(all, 1) == Short(rest)
    ensures all[0].Quiet? && all[1..] == rest
  {
    assert Gather(all[1..], 0) == Full([], all[1..]);
  }

  lemma SyncHolds(p: seq<byte>, seen: seq<byte>, s: seq<byte>, r: seq<byte>)
    requires |r| <= 1 && Holds(p, seen, s)
    ensures Holds(p, seen + r, if s + r <= p then s + r else r)
    ensures forall j | 0 <= j <= |seen| :: (seen + r)[..j] == seen[..j]
    ensures p != [] ==> (s == p <==> Matched(p, seen) == p)
  {
    MatchedIsRecent(p, seen);
    if r == [] {
      assert seen + r == seen && s + r == s;
    } else {
      assert (seen + r)[..|seen|] == seen && r == [r[0]];
    }
  }

  lemma Reported(p: seq<byte>, seen: seq<byte>, found: bool)
    requires p != [] && found == (Matched(p, seen) == p)
    requires forall j | 0 <= j < |seen| :: Matched(p, seen[..j]) != p
    ensures !found ==> !Stops(p, seen)
    ensures Safe(p) ==> forall j :: 0 <= j < |seen| ==> !EndsWith(seen[..j], p)
    ensures Safe(p) && !found ==> !EndsWith(seen, p)
  {
    assert seen[..|seen|] == seen;
    hide EndsWith, Safe, Matched;
    if Safe(p) {
      forall j | 0 <= j <= |seen| && EndsWith(seen[..j], p) ensures j == |seen| && found {
        var i := StopsAt(p, seen, j);
      }
    }
  }

  lemma StopsAt(p: seq<byte>, seen: seq<byte>, j: nat) returns (i: nat)
    requires p != [] && Safe(p) && j <= |seen| && EndsWith(seen[..j], p)
    ensures i <= j && Matched(p, seen[..i]) == p
  {
    hide EndsWith, Safe, Matched;
    SafeStops(p, seen[..j]);
    i :| 0 <= i <= j && Matched(p, seen[..j][..i]) == p;
    assert seen[..j][..i] == seen[..i];
  }
}
