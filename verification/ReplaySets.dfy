/** The set-based duplicate filters, and the lockstep of the array filter with them. */
module ReplaySets {
  import opened ReplayFilter

  ghost predicate IsMin(s: set<nat>, m: nat) {
    m in s && forall x :: x in s ==> m <= x
  }

  lemma {:induction false} MinExists(s: set<nat>)
    requires s != {}
    ensures exists m :: IsMin(s, m)
    decreases |s|
  {
    var x: nat :| x in s;
    if s == {x} {
      assert IsMin(s, x);
    } else {
      assert s == (s - {x}) + {x};
      MinExists(s - {x});
      var m :| IsMin(s - {x}, m);
      assert IsMin(s, if x < m then x else m) by {
        forall y | y in s ensures (if x < m then x else m) <= y {
          if y != x { assert y in s - {x}; }
        }
      }
    }
  }

  /** `*begin()` */
  ghost function Min(s: set<nat>): (m: nat)
    requires s != {}
    ensures IsMin(s, m)
  {
    MinExists(s);
    var m :| IsMin(s, m);
    m
  }

  /** What `IdDuplicateCheckerNew::check` answers and keeps. */
  ghost function NewCheck(ids: set<nat>, limit: nat, id: nat): (Status, set<nat>) {
    if id in ids then (AlreadyProcessed, ids)
    else
      var all := ids + {id};
      if |all| == limit + 1 then (if Min(all) == id then VeryOld else Ok, all - {Min(all)})
      else (Ok, all)
  }

  /** What `IdDuplicateCheckerOld::check` answers and keeps. */
  ghost function OldCheck(ids: set<nat>, limit: nat, id: nat): (Status, set<nat>)
    requires limit > 0
  {
    if |ids| == limit && id < Min(ids) then (VeryOld, ids)
    else if id in ids then (AlreadyProcessed, ids)
    else
      var all := ids + {id};
      if |all| > limit then (Ok, all - {Min(all)}) else (Ok, all)
  }

  // ----- what a set filter is for

  /** The set holds the `limit` largest of all ids given, or all of them if they are fewer. */
  ghost predicate IsLargest(top: set<nat>, all: set<nat>, limit: nat) {
    && top <= all
    && (|all| <= limit ==> top == all)
    && (|all| >= limit ==> |top| == limit)
    && forall x, y :: x in all && x !in top && y in top ==> x < y
  }

  function Larger(all: set<nat>, id: nat): set<nat> {
    set x | x in all && x > id
  }

  /** Too old if `limit` larger ids were given before; else a repetition is refused, and anything new accepted. */
  function Verdict(all: set<nat>, limit: nat, id: nat): Status {
    if |Larger(all, id)| >= limit then VeryOld else if id in all then AlreadyProcessed else Ok
  }

  /** Whether `limit` larger ids were given can be told from the largest ones alone. */
  lemma LargerCount(top: set<nat>, all: set<nat>, limit: nat, id: nat)
    requires IsLargest(top, all, limit)
    ensures id in top ==> |Larger(all, id)| < limit
    ensures id !in top ==> (|Larger(all, id)| >= limit <==> |top| == limit && forall y :: y in top ==> id < y)
  {
    if forall y :: y in top ==> id < y {
      assert top <= Larger(all, id);
      SubsetSize(top, Larger(all, id));
      if |all| < limit { SubsetSize(Larger(all, id), all); }
    } else {
      var y :| y in top && y <= id;
      assert Larger(all, id) <= top - {y} by {
        forall x | x in Larger(all, id) ensures x in top && x != y {
        }
      }
      SubsetSize(Larger(all, id), top - {y});
      TopSize(top, all, limit);
    }
  }

  lemma TopSize(top: set<nat>, all: set<nat>, limit: nat)
    requires IsLargest(top, all, limit)
    ensures |top| <= limit
  {
  }

  /** A check of New keeps the largest ids, and answers by what was given, not by what is kept. */
  lemma NewCheckMeans(top: set<nat>, all: set<nat>, limit: nat, id: nat)
    requires IsLargest(top, all, limit)
    ensures NewCheck(top, limit, id).0 == Verdict(all, limit, id)
    ensures IsLargest(NewCheck(top, limit, id).1, all + {id}, limit)
  {
    LargerCount(top, all, limit, id);
    TopSize(top, all, limit);
    if id in top {
      assert all + {id} == all;
    } else if |top| < limit {
      assert top == all;
    } else {
      NewCheckFull(top, all, limit, id);
    }
  }

  lemma NewCheckFull(top: set<nat>, all: set<nat>, limit: nat, id: nat)
    requires IsLargest(top, all, limit) && id !in top && |top| == limit
    ensures NewCheck(top, limit, id).0 == VeryOld <==> forall y :: y in top ==> id < y
    ensures NewCheck(top, limit, id).0 == Ok ==> id !in all
    ensures IsLargest(NewCheck(top, limit, id).1, all + {id}, limit)
  {
    var more := top + {id};
    assert |more| == limit + 1;
    var m := Min(more);
    var top' := more - {m};
    if m == id { assert top' == top; }
    assert top' <= all + {id} && |top'| == limit;
    if |all + {id}| <= limit {
      SubsetSize(more, all + {id});
      assert false;
    }
    forall x, y | x in all + {id} && x !in top' && y in top' ensures x < y {
      if x != m {
        assert x in all && x !in top && m in more;
        if y == id { assert m in top && x < m && m <= y; }
      }
    }
  }

  class IdDuplicateCheckerNew {
    const limit: nat
    var savedMessageIds: set<nat>
    /** All ids given so far. */
    ghost var given: set<nat>

    ghost predicate Valid()
      reads this
    {
      IsLargest(savedMessageIds, given, limit)
    }

    constructor (limit: nat)
      ensures Valid() && this.limit == limit && savedMessageIds == {} && given == {}
    {
      this.limit := limit;
      savedMessageIds := {};
      given := {};
    }

    method Check(id: nat) returns (status: Status)
      requires Valid()
      modifies this
      ensures Valid() && given == old(given) + {id}
      ensures status == Verdict(old(given), limit, id)
      ensures (status, savedMessageIds) == NewCheck(old(savedMessageIds), limit, id)
    {
      NewCheckMeans(savedMessageIds, given, limit, id);
      hide IsLargest, Verdict;
      given := given + {id};
      if id in savedMessageIds {
        return AlreadyProcessed;
      }
      savedMessageIds := savedMessageIds + {id};
      if |savedMessageIds| == limit + 1 {
        MinExists(savedMessageIds);
        var begin: nat :| begin in savedMessageIds && forall x :: x in savedMessageIds ==> begin <= x;
        assert begin == Min(savedMessageIds);
        var isVeryOld := begin == id;
        savedMessageIds := savedMessageIds - {begin};
        if isVeryOld {
          return VeryOld;
        }
      }
      status := Ok;
    }
  }

  class IdDuplicateCheckerOld {
    const limit: nat
    var savedMessageIds: set<nat>
    /** All ids given so far. */
    ghost var given: set<nat>

    ghost predicate Valid()
      reads this
    {
      limit > 0 && IsLargest(savedMessageIds, given, limit)
    }

    constructor (limit: nat)
      requires limit > 0
      ensures Valid() && this.limit == limit && savedMessageIds == {} && given == {}
    {
      this.limit := limit;
      savedMessageIds := {};
      given := {};
    }

    method Check(id: nat) returns (status: Status)
      requires Valid()
      modifies this
      ensures Valid() && given == old(given) + {id}
      ensures status == Verdict(old(given), limit, id)
      ensures (status, savedMessageIds) == OldCheck(old(savedMessageIds), limit, id)
    {
      NewCheckMeans(savedMessageIds, given, limit, id);
      TopSize(savedMessageIds, given, limit);
      OldIsNew(savedMessageIds, limit, id);
      hide IsLargest, Verdict, NewCheck;
      given := given + {id};
      if |savedMessageIds| == limit {
        MinExists(savedMessageIds);
        var oldest: nat :| oldest in savedMessageIds && forall x :: x in savedMessageIds ==> oldest <= x;
        assert oldest == Min(savedMessageIds);
        if id < oldest {
          return VeryOld;
        }
      }
      if id in savedMessageIds {
        return AlreadyProcessed;
      }
      savedMessageIds := savedMessageIds + {id};
      if |savedMessageIds| > limit {
        MinExists(savedMessageIds);
        var begin: nat :| begin in savedMessageIds && forall x :: x in savedMessageIds ==> begin <= x;
        assert begin == Min(savedMessageIds);
        savedMessageIds := savedMessageIds - {begin};
      }
      status := Ok;
    }
  }

  // ----- Old and New

  lemma OldIsNew(ids: set<nat>, limit: nat, id: nat)
    requires limit > 0 && |ids| <= limit
    ensures OldCheck(ids, limit, id) == NewCheck(ids, limit, id)
    ensures |NewCheck(ids, limit, id).1| <= limit
  {
    var all := ids + {id};
    if id !in ids {
      assert |all| == |ids| + 1;
      if |ids| == limit {
        assert ids != {};
        var (a, m) := (Min(all), Min(ids));
        assert m in all && (a in ids || a == id);
        if a == id { assert all - {a} == ids; }
      }
    }
  }

  ghost function OldRun(ids: seq<nat>, limit: nat): set<nat>
    requires limit > 0
  {
    if |ids| == 0 then {} else OldCheck(OldRun(ids[..|ids| - 1], limit), limit, ids[|ids| - 1]).1
  }

  ghost function NewRun(ids: seq<nat>, limit: nat): set<nat> {
    if |ids| == 0 then {} else NewCheck(NewRun(ids[..|ids| - 1], limit), limit, ids[|ids| - 1]).1
  }

  /** With equal limits the two set filters give equal answers at every step of every run. */
  lemma {:induction false} OldAndNewAgree(ids: seq<nat>, limit: nat, id: nat)
    requires limit > 0
    ensures OldRun(ids, limit) == NewRun(ids, limit) && |NewRun(ids, limit)| <= limit
    ensures OldCheck(OldRun(ids, limit), limit, id).0 == NewCheck(NewRun(ids, limit), limit, id).0
  {
    if |ids| > 0 {
      OldAndNewAgree(ids[..|ids| - 1], limit, id);
      OldIsNew(NewRun(ids[..|ids| - 1], limit), limit, ids[|ids| - 1]);
    }
    OldIsNew(NewRun(ids, limit), limit, id);
  }

  // ----- New and the array

  function Elements(s: seq<nat>): set<nat> {
    set x | x in s
  }

  /** The set holds the `limit` largest of the stored ids, or all of them if they are fewer. */
  ghost predicate IsTop(top: set<nat>, s: seq<nat>, limit: nat) {
    && top <= Elements(s)
    && (|s| <= limit ==> top == Elements(s))
    && (|s| >= limit ==> |top| == limit)
    && forall x, y :: x in s && x !in top && y in top ==> x < y
  }

  lemma {:induction false} ElementsCount(s: seq<nat>)
    requires Sorted(s)
    ensures |Elements(s)| == |s|
  {
    if |s| > 0 {
      var (front, last) := (s[..|s| - 1], s[|s| - 1]);
      ElementsCount(front);
      assert s == front + [last];
      assert Elements(s) == Elements(front) + {last};
      assert last !in front;
    }
  }

  lemma TopUnique(t: set<nat>, u: set<nat>, s: seq<nat>, limit: nat)
    requires IsTop(t, s, limit) && IsTop(u, s, limit)
    ensures t == u
  {
    if |s| >= limit && t != u {
      TopContained(t, u, s, limit);
      TopContained(u, t, s, limit);
    }
  }

  lemma TopContained(t: set<nat>, u: set<nat>, s: seq<nat>, limit: nat)
    requires IsTop(t, s, limit) && IsTop(u, s, limit) && |s| >= limit
    ensures t <= u
  {
    if x :| x in t && x !in u {
      forall y | y in u ensures y in t {
        if y !in t { assert false; }
      }
      assert u <= t - {x};
      SubsetSize(u, t - {x});
      assert false;
    }
  }

  lemma {:induction false} SubsetSize(a: set<nat>, b: set<nat>)
    requires a <= b
    ensures |a| <= |b|
    decreases |a|
  {
    if a != {} {
      var x :| x in a;
      SubsetSize(a - {x}, b - {x});
    }
  }

  /** Compaction keeps the largest ids. */
  lemma TopOfCompacted(top: set<nat>, stored: seq<nat>, limit: nat)
    requires 0 < limit && |stored| <= 2 * limit && Sorted(stored) && IsTop(top, stored, limit)
    ensures IsTop(top, Compacted(stored, limit), limit)
  {
    if |stored| == 2 * limit {
      var s := stored[limit..];
      ElementsCount(s);
      assert forall i :: 0 <= i < limit ==> s[i] == stored[limit + i];
      forall i | limit <= i < 2 * limit ensures stored[i] in s { assert s[i - limit] == stored[i]; }
      assert IsTop(Elements(s), stored, limit) by {
        forall x, y | x in stored && x !in Elements(s) && y in Elements(s) ensures x < y {
          var i :| 0 <= i < |stored| && stored[i] == x;
          var j :| 0 <= j < |s| && s[j] == y;
        }
        forall x | x in s ensures x in stored {
          var j :| 0 <= j < |s| && s[j] == x;
          assert stored[limit + j] == x;
        }
      }
      TopUnique(top, Elements(s), stored, limit);
    }
  }

  /** What the array answers to an id that is too old for the set: it may still remember it, or still have room. */
  predicate ArrayAnswerToOld(s: seq<nat>, limit: nat, id: nat, a: Status) {
    |s| >= limit > 0 && a == if id in s then AlreadyProcessed else if id < s[0] then VeryOld else Ok
  }

  /** One id, given to both: the set stays the top of the array, and only what is too old for the set may differ. */
  lemma Lockstep(stored: seq<nat>, top: set<nat>, limit: nat, id: nat)
    requires 0 < limit && |stored| <= 2 * limit && Sorted(stored) && IsTop(top, stored, limit)
    ensures var (a, stored') := ArrayCheck(stored, limit, id);
      var (n, top') := NewCheck(top, limit, id);
      && |stored'| <= 2 * limit && Sorted(stored') && IsTop(top', stored', limit)
      && (n != VeryOld ==> a == n)
      && (n == VeryOld ==> ArrayAnswerToOld(Compacted(stored, limit), limit, id, a))
  {
    hide ArrayCheck, Compacted, Sorted;
    var s := Compacted(stored, limit);
    CompactedFacts(stored, limit);
    TopOfCompacted(top, stored, limit);
    ArrayCheckAnswers(stored, limit, id);
    var (a, s') := ArrayCheck(stored, limit, id);
    ElementsCount(s);
    ElementsCount(s');
    LockstepCompacted(s, top, limit, id, a, s');
  }

  lemma LockstepCompacted(s: seq<nat>, top: set<nat>, limit: nat, id: nat, a: Status, s': seq<nat>)
    requires 0 < limit && Sorted(s) && IsTop(top, s, limit) && Answers(s, limit, id, a, s')
    requires |Elements(s)| == |s| && |Elements(s')| == |s'|
    ensures var (n, top') := NewCheck(top, limit, id);
      && IsTop(top', s', limit)
      && (n != VeryOld ==> a == n)
      && (n == VeryOld ==> ArrayAnswerToOld(s, limit, id, a))
  {
    if id in top {
      assert id in s;
      SmallestIsFirst(s, id);
    } else if |s| < limit {
      assert top == Elements(s) && id !in s;
      assert Elements(s') == top + {id};
    } else {
      LockstepFull(s, top, limit, id, a, s');
    }
  }

  lemma LockstepFull(s: seq<nat>, top: set<nat>, limit: nat, id: nat, a: Status, s': seq<nat>)
    requires 0 < limit <= |s| && id !in top
    requires Sorted(s) && IsTop(top, s, limit) && Answers(s, limit, id, a, s')
    ensures var (n, top') := NewCheck(top, limit, id);
      && IsTop(top', s', limit)
      && (n != VeryOld ==> a == n)
      && (n == VeryOld ==> ArrayAnswerToOld(s, limit, id, a))
  {
    var all := top + {id};
    assert |all| == limit + 1;
    var m := Min(all);
    if m == id {
      assert all - {m} == top;
      SmallestIsFirst(s, id);
      assert forall x :: x in top ==> id < x;
    } else {
      assert m in top && m < id && id !in s;
      var top' := all - {m};
      SmallestIsFirst(s, m);
      forall x, y | x in s' && x !in top' && y in top' ensures x < y {
        if x != m { assert x in s && x !in top && x < m; }
      }
    }
  }

  lemma SmallestIsFirst(s: seq<nat>, x: nat)
    requires Sorted(s)
    ensures x in s ==> s[0] <= x
  {
  }

  /** Given the same ids, the array filter accepts every id that the set filter accepts, and its set stays the top. */
  lemma {:induction false} ArraySimulatesSet(ids: seq<nat>, limit: nat, id: nat)
    requires limit > 0
    ensures IsTop(NewRun(ids, limit), Run(ids, limit).stored, limit)
    ensures NewCheck(NewRun(ids, limit), limit, id).0 == Ok ==> ArrayCheck(Run(ids, limit).stored, limit, id).0 == Ok
  {
    hide IsTop, ArrayCheck, NewCheck;
    if |ids| == 0 {
      EmptyTop(limit);
    } else {
      ArraySimulatesSet(ids[..|ids| - 1], limit, id);
      Lockstep(Run(ids[..|ids| - 1], limit).stored, NewRun(ids[..|ids| - 1], limit), limit, ids[|ids| - 1]);
    }
    Lockstep(Run(ids, limit).stored, NewRun(ids, limit), limit, id);
  }

  lemma EmptyTop(limit: nat)
    ensures limit > 0 ==> IsTop({}, [], limit)
  {
  }

  // ----- what was given decides

  /** After any run the set is the `limit` largest of the distinct ids given, or all of them if they are fewer. */
  lemma {:induction false} NewHoldsLargest(ids: seq<nat>, limit: nat)
    ensures IsLargest(NewRun(ids, limit), Elements(ids), limit)
  {
    hide NewCheck, IsLargest;
    if |ids| == 0 {
      NothingGiven(limit);
    } else {
      var (front, last) := (ids[..|ids| - 1], ids[|ids| - 1]);
      NewHoldsLargest(front, limit);
      NewCheckMeans(NewRun(front, limit), Elements(front), limit, last);
      assert ids == front + [last];
      assert Elements(ids) == Elements(front) + {last};
    }
  }

  lemma NothingGiven(limit: nat)
    ensures IsLargest({}, Elements([]), limit)
  {
  }

  /** The set filters accept an id exactly if it is new and fewer than `limit` larger ids were given before. */
  lemma SetAcceptsIff(ids: seq<nat>, limit: nat, id: nat)
    ensures NewCheck(NewRun(ids, limit), limit, id).0 == Verdict(Elements(ids), limit, id)
    ensures NewCheck(NewRun(ids, limit), limit, id).0 == Ok <==>
              id !in ids && |Larger(Elements(ids), id)| < limit
  {
    hide NewCheck, IsLargest;
    NewHoldsLargest(ids, limit);
    NewCheckMeans(NewRun(ids, limit), Elements(ids), limit, id);
  }

  /** The array filter accepts every id that is new while fewer than `limit` larger ids were given before. */
  lemma ArrayAccepts(ids: seq<nat>, limit: nat, id: nat)
    requires limit > 0 && id !in ids && |Larger(Elements(ids), id)| < limit
    ensures ArrayCheck(Run(ids, limit).stored, limit, id).0 == Ok
  {
    hide NewCheck, ArrayCheck, IsTop;
    SetAcceptsIff(ids, limit, id);
    ArraySimulatesSet(ids, limit, id);
  }
}
