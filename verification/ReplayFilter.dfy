/** The message-id duplicate filters: the array with lazy compaction and the ordered sets it stands in for. */
module ReplayFilter {

  /** `Status`: accepted, or the two error codes. */
  datatype Status = Ok | AlreadyProcessed | VeryOld

  predicate Sorted(s: seq<nat>) {
    forall i, j :: 0 <= i < j < |s| ==> s[i] < s[j]
  }

  /** The first position whose element is not below x. */
  function LowerBound(s: seq<nat>, x: nat): (p: nat)
    ensures p <= |s|
    ensures forall i :: 0 <= i < p ==> s[i] < x
    ensures p < |s| ==> x <= s[p]
  {
    if |s| == 0 then 0
    else if s[0] < x then 1 + LowerBound(s[1..], x)
    else 0
  }

  // ----- the stored ids, as a sequence

  /** The ids kept when the array is full. */
  function Compacted(s: seq<nat>, maxSize: nat): seq<nat> {
    if |s| == 2 * maxSize then s[maxSize..] else s
  }

  /** What a check answers and what it leaves stored. */
  function ArrayCheck(stored: seq<nat>, maxSize: nat, id: nat): (Status, seq<nat>)
    requires |stored| <= 2 * maxSize && maxSize > 0
  {
    var s := Compacted(stored, maxSize);
    var p := LowerBound(s, id);
    if s == [] || id > s[|s| - 1] then (Ok, s + [id])
    else if |s| >= maxSize && id < s[0] then (VeryOld, s)
    else if p < |s| && s[p] == id then (AlreadyProcessed, s)
    else (Ok, s[..p] + [id] + s[p..])
  }

  lemma LowerBoundInside(s: seq<nat>, id: nat)
    requires Sorted(s) && |s| > 0 && id <= s[|s| - 1]
    ensures LowerBound(s, id) < |s|
    ensures id in s <==> s[LowerBound(s, id)] == id
  {
    hide LowerBound;
    var p := LowerBound(s, id);
    if id in s {
      var k :| 0 <= k < |s| && s[k] == id;
      assert k >= p;
    }
  }

  lemma LowerBoundUnique(s: seq<nat>, id: nat, p: nat)
    requires p <= |s| && (forall i :: 0 <= i < p ==> s[i] < id) && (p < |s| ==> id <= s[p])
    ensures p == LowerBound(s, id)
  {
  }

  ghost predicate SameElements(s': seq<nat>, s: seq<nat>, id: nat) {
    |s'| == |s| + 1 && forall x :: x in s' <==> x in s || x == id
  }

  lemma InsertSorted(s: seq<nat>, p: nat, id: nat)
    requires Sorted(s) && p <= |s| && (p > 0 ==> s[p - 1] < id) && (p < |s| ==> id < s[p])
    ensures Sorted(s[..p] + [id] + s[p..]) && SameElements(s[..p] + [id] + s[p..], s, id) && id !in s
  {
    InsertElements(s, p, id);
    forall i | 0 <= i < |s| ensures s[i] != id {
      if i < p { assert s[i] <= s[p - 1]; } else { assert s[p] <= s[i]; }
    }
  }

  lemma InsertElements(s: seq<nat>, p: nat, id: nat)
    requires p <= |s|
    ensures SameElements(s[..p] + [id] + s[p..], s, id)
  {
    assert s == s[..p] + s[p..];
  }

  lemma SortedEnds(s: seq<nat>)
    requires Sorted(s) && |s| > 0
    ensures s[0] <= s[|s| - 1]
  {
  }

  lemma CompactedFacts(stored: seq<nat>, maxSize: nat)
    requires |stored| <= 2 * maxSize && maxSize > 0 && Sorted(stored)
    ensures var s := Compacted(stored, maxSize);
      && Sorted(s) && |s| < 2 * maxSize && (|stored| >= maxSize ==> |s| >= maxSize)
      && (|stored| < 2 * maxSize ==> s == stored)
  {
  }

  /** What a check finds out about the id, and what it does to the ids kept. */
  ghost predicate Answers(s: seq<nat>, maxSize: nat, id: nat, status: Status, s': seq<nat>) {
    match status
    case Ok => id !in s && SameElements(s', s, id) && (|s| >= maxSize > 0 ==> s[0] <= id)
    case AlreadyProcessed => id in s && s' == s
    case VeryOld => |s| >= maxSize > 0 && id < s[0] && id !in s && s' == s
  }

  // ----- the four outcomes of a check

  predicate IsNewest(s: seq<nat>, id: nat) {
    s == [] || id > s[|s| - 1]
  }

  predicate IsTooOld(s: seq<nat>, maxSize: nat, id: nat) {
    !IsNewest(s, id) && |s| >= maxSize && id < s[0]
  }

  lemma CheckNewest(stored: seq<nat>, maxSize: nat, id: nat, s: seq<nat>)
    requires |stored| <= 2 * maxSize && maxSize > 0 && s == Compacted(stored, maxSize) && IsNewest(s, id)
    ensures ArrayCheck(stored, maxSize, id) == (Ok, s + [id])
  {
    hide Compacted, LowerBound;
  }

  lemma CheckTooOld(stored: seq<nat>, maxSize: nat, id: nat, s: seq<nat>)
    requires |stored| <= 2 * maxSize && maxSize > 0 && s == Compacted(stored, maxSize) && IsTooOld(s, maxSize, id)
    ensures ArrayCheck(stored, maxSize, id) == (VeryOld, s)
  {
    hide Compacted, LowerBound;
  }

  lemma CheckWithin(stored: seq<nat>, maxSize: nat, id: nat, s: seq<nat>, p: nat)
    requires |stored| <= 2 * maxSize && maxSize > 0 && s == Compacted(stored, maxSize)
    requires !IsNewest(s, id) && !IsTooOld(s, maxSize, id) && p == LowerBound(s, id) < |s|
    ensures ArrayCheck(stored, maxSize, id) ==
      if s[p] == id then (AlreadyProcessed, s) else (Ok, s[..p] + [id] + s[p..])
  {
    hide Compacted, LowerBound;
  }

  lemma NewestAnswers(s: seq<nat>, maxSize: nat, id: nat)
    requires Sorted(s) && IsNewest(s, id)
    ensures Sorted(s + [id]) && Answers(s, maxSize, id, Ok, s + [id])
  {
    hide Sorted;
    InsertSorted(s, |s|, id);
    if |s| > 0 { SortedEnds(s); }
    assert s + [id] == s[..|s|] + [id] + s[|s|..];
  }

  lemma TooOldAnswers(s: seq<nat>, maxSize: nat, id: nat)
    requires Sorted(s) && maxSize > 0 && IsTooOld(s, maxSize, id)
    ensures Answers(s, maxSize, id, VeryOld, s)
  {
    hide Sorted;
    InsertSorted(s, 0, id);
  }

  lemma InsertAnswers(s: seq<nat>, maxSize: nat, id: nat, p: nat)
    requires Sorted(s) && !IsNewest(s, id) && !IsTooOld(s, maxSize, id) && p == LowerBound(s, id) < |s| && s[p] != id
    ensures var s' := s[..p] + [id] + s[p..];
      Sorted(s') && Answers(s, maxSize, id, Ok, s')
  {
    hide Sorted;
    InsertSorted(s, p, id);
  }

  lemma ArrayCheckAnswers(stored: seq<nat>, maxSize: nat, id: nat)
    requires |stored| <= 2 * maxSize && maxSize > 0 && Sorted(stored)
    ensures var (status, s') := ArrayCheck(stored, maxSize, id);
      Sorted(s') && |s'| <= 2 * maxSize && Answers(Compacted(stored, maxSize), maxSize, id, status, s')
  {
    hide Compacted, SameElements, Sorted, LowerBound, ArrayCheck, IsTooOld;
    var s := Compacted(stored, maxSize);
    CompactedFacts(stored, maxSize);
    if IsNewest(s, id) {
      CheckNewest(stored, maxSize, id, s);
      NewestAnswers(s, maxSize, id);
    } else if IsTooOld(s, maxSize, id) {
      CheckTooOld(stored, maxSize, id, s);
      TooOldAnswers(s, maxSize, id);
    } else {
      LowerBoundInside(s, id);
      var p := LowerBound(s, id);
      CheckWithin(stored, maxSize, id, s, p);
      if s[p] != id { InsertAnswers(s, maxSize, id, p); }
    }
  }

  // ----- what the comment above the code asks for

  /** The id is lower than all stored ids, or equal to any of them. */
  predicate CommentIgnores(s: seq<nat>, id: nat) {
    s != [] && ((forall i :: 0 <= i < |s| ==> id < s[i]) || id in s)
  }

  /** The code ignores what the comment asks to ignore, but for ids below all while fewer than maxSize are held. */
  lemma CommentAndCode(stored: seq<nat>, maxSize: nat, id: nat)
    requires |stored| <= 2 * maxSize && maxSize > 0 && Sorted(stored)
    ensures var s := Compacted(stored, maxSize);
      (CommentIgnores(s, id) <==> ArrayCheck(stored, maxSize, id).0 != Ok) <==> !(0 < |s| < maxSize && id < s[0])
  {
    hide Compacted, ArrayCheck;
    var s := Compacted(stored, maxSize);
    CompactedFacts(stored, maxSize);
    ArrayCheckAnswers(stored, maxSize, id);
    if s != [] {
      assert s[0] in s;
      assert (forall i :: 0 <= i < |s| ==> id < s[i]) <==> id < s[0];
    }
  }

  /** With room for two ids, 3 is accepted after 5, though it is lower than all stored ids. */
  lemma LowerIdAccepted()
    ensures CommentIgnores([5], 3) && ArrayCheck([5], 2, 3) == (Ok, [3, 5])
  {
    assert LowerBound([5], 3) == 0;
    assert [5][..0] + [3] + [5][0..] == [3, 5];
  }

  // ----- the class

  class MessageIdDuplicateChecker {
    const maxSize: nat
    const savedMessageIds: array<nat>
    var endPos: nat

    ghost predicate Valid()
      reads this, savedMessageIds
    {
      maxSize > 0 && savedMessageIds.Length == 2 * maxSize && endPos <= 2 * maxSize && Sorted(Stored())
    }

    ghost function Stored(): seq<nat>
      requires savedMessageIds.Length == 2 * maxSize && endPos <= 2 * maxSize
      reads this, savedMessageIds
    {
      savedMessageIds[..endPos]
    }

    constructor (maxSize: nat)
      requires maxSize > 0
      ensures Valid() && Stored() == [] && this.maxSize == maxSize && fresh(savedMessageIds)
    {
      this.maxSize := maxSize;
      savedMessageIds := new nat[2 * maxSize];
      endPos := 0;
    }

    /** `std::lower_bound` over the stored ids. */
    method FindLowerBound(id: nat) returns (it: nat)
      requires Valid()
      ensures it == LowerBound(Stored(), id)
    {
      var (low, high) := (0, endPos);
      while low < high
        invariant 0 <= low <= high <= endPos
        invariant forall i :: 0 <= i < low ==> savedMessageIds[i] < id
        invariant forall i :: high <= i < endPos ==> id <= savedMessageIds[i]
      {
        var mid := (low + high) / 2;
        if savedMessageIds[mid] < id {
          low := mid + 1;
        } else {
          high := mid;
        }
      }
      LowerBoundUnique(Stored(), id, low);
      it := low;
    }

    /** Moves the upper half of a full array down. */
    method Compact()
      requires Valid() && endPos == 2 * maxSize
      modifies this`endPos, savedMessageIds
      ensures Valid() && Stored() == Compacted(old(Stored()), maxSize) && endPos == maxSize
    {
      ghost var before := savedMessageIds[..];
      for i := 0 to maxSize
        invariant forall k :: 0 <= k < i ==> savedMessageIds[k] == before[maxSize + k]
        invariant forall k :: i <= k < 2 * maxSize ==> savedMessageIds[k] == before[k]
      {
        savedMessageIds[i] := savedMessageIds[maxSize + i];
      }
      endPos := maxSize;
      assert Stored() == before[maxSize..];
    }

    /** Shifts the ids from `it` on by one place and puts the new id there. */
    method Insert(it: nat, id: nat)
      requires Valid() && it <= endPos < 2 * maxSize
      modifies this`endPos, savedMessageIds
      ensures endPos == old(endPos) + 1
      ensures savedMessageIds[..endPos] == old(Stored())[..it] + [id] + old(Stored())[it..]
    {
      hide Sorted;
      ghost var before := savedMessageIds[..];
      var i := endPos;
      while i > it
        invariant it <= i <= endPos == old(endPos)
        invariant forall k :: 0 <= k < i ==> savedMessageIds[k] == before[k]
        invariant forall k :: i < k <= endPos ==> savedMessageIds[k] == before[k - 1]
      {
        savedMessageIds[i] := savedMessageIds[i - 1];
        i := i - 1;
      }
      savedMessageIds[it] := id;
      endPos := endPos + 1;
      ShiftedFrom(before, savedMessageIds[..], it, endPos - 1, id);
    }

    /** The fast path. */
    method Append(id: nat)
      requires Valid() && endPos < 2 * maxSize
      modifies this`endPos, savedMessageIds
      ensures endPos == old(endPos) + 1
      ensures savedMessageIds[..endPos] == old(Stored()) + [id]
    {
      savedMessageIds[endPos] := id;
      endPos := endPos + 1;
    }

    method Check(id: nat) returns (status: Status)
      requires Valid()
      modifies this`endPos, savedMessageIds
      ensures Valid()
      ensures (status, Stored()) == ArrayCheck(old(Stored()), maxSize, id)
    {
      hide Sorted, Compacted, ArrayCheck;
      ghost var stored := Stored();
      CompactedFacts(stored, maxSize);
      ShortKept(stored, maxSize);
      if endPos == 2 * maxSize {
        Compact();
      }
      status := CheckCompacted(id, stored);
    }

    /** The check, when the array is not full. */
    method CheckCompacted(id: nat, ghost stored: seq<nat>) returns (status: Status)
      requires Valid() && endPos < 2 * maxSize && |stored| <= 2 * maxSize && Sorted(stored)
      requires Stored() == Compacted(stored, maxSize)
      modifies this`endPos, savedMessageIds
      ensures Valid()
      ensures (status, Stored()) == ArrayCheck(stored, maxSize, id)
    {
      hide Sorted, LowerBound, Compacted, Answers, ArrayCheck;
      ghost var s := Stored();
      ArrayCheckAnswers(stored, maxSize, id);
      if endPos == 0 || id > savedMessageIds[endPos - 1] {
        CheckNewest(stored, maxSize, id, s);
        Append(id);
        return Ok;
      }
      if endPos >= maxSize && id < savedMessageIds[0] {
        CheckTooOld(stored, maxSize, id, s);
        return VeryOld;
      }
      var it := FindLowerBound(id);
      BoundIsInside(s, id);
      CheckWithin(stored, maxSize, id, s, it);
      if savedMessageIds[it] == id {
        return AlreadyProcessed;
      }
      Insert(it, id);
      status := Ok;
    }
  }

  lemma BoundIsInside(s: seq<nat>, id: nat)
    requires Sorted(s) && |s| > 0 && id <= s[|s| - 1]
    ensures LowerBound(s, id) < |s|
  {
    hide Sorted, LowerBound;
    LowerBoundInside(s, id);
  }

  /** Element by element, what `copy_backward` and the store leave. */
  lemma ShiftedFrom(before: seq<nat>, after: seq<nat>, it: nat, n: nat, id: nat)
    requires |after| == |before| && it <= n < |before| && after[it] == id
    requires forall k :: 0 <= k < it ==> after[k] == before[k]
    requires forall k :: it < k <= n ==> after[k] == before[k - 1]
    ensures after[..n + 1] == before[..n][..it] + [id] + before[..n][it..]
  {
  }

  lemma ShortKept(stored: seq<nat>, maxSize: nat)
    ensures |stored| != 2 * maxSize ==> Compacted(stored, maxSize) == stored
  {
  }

  // ----- runs: at most once

  datatype Filter = Filter(stored: seq<nat>, accepted: set<nat>)

  function Run(ids: seq<nat>, maxSize: nat): (f: Filter)
    requires maxSize > 0
    ensures |f.stored| <= 2 * maxSize && Sorted(f.stored)
  {
    if |ids| == 0 then Filter([], {})
    else
      var f := Run(ids[..|ids| - 1], maxSize);
      var id := ids[|ids| - 1];
      ArrayCheckAnswers(f.stored, maxSize, id);
      var (status, s) := ArrayCheck(f.stored, maxSize, id);
      Filter(s, if status == Ok then f.accepted + {id} else f.accepted)
  }

  /** The answer to the id at position k of a run. */
  function Answer(ids: seq<nat>, maxSize: nat, k: nat): Status
    requires maxSize > 0 && k < |ids|
  {
    ArrayCheck(Run(ids[..k], maxSize).stored, maxSize, ids[k]).0
  }

  /** Every accepted id is stored, or below the smallest stored one while at least maxSize are stored. */
  ghost predicate Remembered(f: Filter, maxSize: nat) {
    forall x :: x in f.accepted ==> x in f.stored || (|f.stored| >= maxSize > 0 && x < f.stored[0])
  }

  lemma {:induction false} RunRemembers(ids: seq<nat>, maxSize: nat)
    requires maxSize > 0
    ensures Remembered(Run(ids, maxSize), maxSize)
  {
    if |ids| > 0 {
      var f := Run(ids[..|ids| - 1], maxSize);
      var id := ids[|ids| - 1];
      RunRemembers(ids[..|ids| - 1], maxSize);
      StepRemembers(f, maxSize, id);
    }
  }

  lemma StepRemembers(f: Filter, maxSize: nat, id: nat)
    requires maxSize > 0 && |f.stored| <= 2 * maxSize && Sorted(f.stored) && Remembered(f, maxSize)
    ensures var (status, s') := ArrayCheck(f.stored, maxSize, id);
      && Remembered(Filter(s', if status == Ok then f.accepted + {id} else f.accepted), maxSize)
      && (status == Ok ==> id !in f.accepted)
  {
    hide ArrayCheck;
    CompactedFacts(f.stored, maxSize);
    ArrayCheckAnswers(f.stored, maxSize, id);
    CompactedRemembers(f, maxSize);
    var s := Compacted(f.stored, maxSize);
    var (status, s') := ArrayCheck(f.stored, maxSize, id);
    if status == Ok {
      if |s| >= maxSize {
        assert s[0] in s';
        assert s'[0] in s' && (s'[0] in s || s'[0] == id);
        SmallestFirst(s, s', id);
      }
    }
  }

  lemma SmallestFirst(s: seq<nat>, s': seq<nat>, id: nat)
    requires Sorted(s) && Sorted(s') && |s| > 0 && |s'| > 0 && s[0] <= id
    requires forall x :: x in s' <==> x in s || x == id
    ensures s'[0] == s[0]
  {
    assert s[0] in s' && s'[0] in s';
    var k :| 0 <= k < |s'| && s'[k] == s[0];
    if s'[0] in s {
      var m :| 0 <= m < |s| && s[m] == s'[0];
    }
  }

  lemma CompactedRemembers(f: Filter, maxSize: nat)
    requires maxSize > 0 && |f.stored| <= 2 * maxSize && Sorted(f.stored) && Remembered(f, maxSize)
    ensures Remembered(f.(stored := Compacted(f.stored, maxSize)), maxSize)
  {
    var s := Compacted(f.stored, maxSize);
    if |f.stored| == 2 * maxSize {
      forall x | x in f.accepted ensures x in s || x < s[0] {
        if x in f.stored {
          var k :| 0 <= k < |f.stored| && f.stored[k] == x;
          if k >= maxSize { assert s[k - maxSize] == x; }
        }
      }
    }
  }

  lemma {:induction false} AcceptedGrows(ids: seq<nat>, maxSize: nat, k: nat)
    requires maxSize > 0 && k < |ids| && Answer(ids, maxSize, k) == Ok
    ensures ids[k] in Run(ids, maxSize).accepted
  {
    hide ArrayCheck;
    var n := |ids| - 1;
    if k == n {
      assert ids[..k] == ids[..n];
    } else {
      assert ids[..n][..k] == ids[..k];
      AcceptedGrows(ids[..n], maxSize, k);
    }
  }

  /** Whatever ids arrive, and across any number of compactions, no id is accepted twice. */
  lemma AtMostOnce(ids: seq<nat>, maxSize: nat, j: nat, k: nat)
    requires maxSize > 0 && j < k < |ids| && ids[j] == ids[k]
    ensures Answer(ids, maxSize, j) != Ok || Answer(ids, maxSize, k) != Ok
  {
    if Answer(ids, maxSize, j) == Ok {
      assert ids[..k][..j] == ids[..j];
      AcceptedGrows(ids[..k], maxSize, j);
      RunRemembers(ids[..k], maxSize);
      StepRemembers(Run(ids[..k], maxSize), maxSize, ids[k]);
    }
  }

  // ----- runs: the smallest id kept

  /** The ids are enough to fill max_size places, and none of them is below this one. */
  ghost predicate HeldAbove(s: seq<nat>, maxSize: nat, low: nat) {
    |s| >= maxSize > 0 && low <= s[0]
  }

  lemma CheckKeepsLow(stored: seq<nat>, maxSize: nat, id: nat, low: nat)
    requires |stored| <= 2 * maxSize && Sorted(stored) && HeldAbove(stored, maxSize, low)
    ensures HeldAbove(ArrayCheck(stored, maxSize, id).1, maxSize, low)
  {
    hide ArrayCheck;
    CompactedFacts(stored, maxSize);
    ArrayCheckAnswers(stored, maxSize, id);
    var s := Compacted(stored, maxSize);
    var (status, s') := ArrayCheck(stored, maxSize, id);
    if status == Ok { SmallestFirst(s, s', id); }
  }

  /** Once max_size ids are held, that stays so and the smallest one never decreases, whatever is compacted. */
  lemma {:induction false} SmallestNeverDecreases(ids: seq<nat>, maxSize: nat, j: nat, k: nat)
    requires maxSize > 0 && j <= k <= |ids| && |Run(ids[..j], maxSize).stored| >= maxSize
    ensures |Run(ids[..k], maxSize).stored| >= maxSize
    ensures Run(ids[..j], maxSize).stored[0] <= Run(ids[..k], maxSize).stored[0]
    decreases k - j
  {
    hide ArrayCheck, Sorted;
    if j < k {
      SmallestNeverDecreases(ids, maxSize, j, k - 1);
      assert ids[..k][..k - 1] == ids[..k - 1];
      CheckKeepsLow(Run(ids[..k - 1], maxSize).stored, maxSize, ids[k - 1], Run(ids[..j], maxSize).stored[0]);
    }
  }
}
