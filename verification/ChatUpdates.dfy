/** What the updates a client receives mean for the order of a chat in a list. */
module ChatUpdates {
  import opened Outcomes
  import opened ChatIndexes

  // ----- what one update says about a chat in a list

  /** The update announces the chat as a member of the list. */
  predicate AddsTo(u: Update, l: int, c: int) {
    match u
    case NewChat(chat, lists, _) => chat == c && l in lists
    case AddedToList(chat, list) => chat == c && list == l
    case ChatPosition(_, _) => false
    case LastMessage(_, _) => false
  }

  function PositionsOf(u: Update): seq<Position> {
    match u
    case NewChat(_, _, positions) => positions
    case AddedToList(_, _) => []
    case ChatPosition(_, position) => [position]
    case LastMessage(_, positions) => positions
  }

  /** The last order that positions give in the list. */
  function LastIn(positions: seq<Position>, l: int): Option<int> {
    if positions == [] then None
    else
      var p := positions[|positions| - 1];
      if p.list == l then Some(p.order) else LastIn(positions[..|positions| - 1], l)
  }

  /** A position of order 0 takes the chat out of the list. */
  predicate Removes(u: Update, l: int, c: int) {
    u.chat == c && exists i :: 0 <= i < |PositionsOf(u)| && PositionsOf(u)[i] == Position(l, 0)
  }

  /** The order that the update gives the chat in the list: that of its last position there, else 0 if it adds it. */
  function GivenBy(u: Update, l: int, c: int): Option<int> {
    if u.chat != c then None
    else if LastIn(PositionsOf(u), l).Some? then LastIn(PositionsOf(u), l)
    else if AddsTo(u, l, c) then Some(0) else None
  }

  // ----- what it does

  lemma StepMeaning(s: Lists, step: Step, l: int, c: int, o: int)
    ensures HasOrder(Apply(s, step), l, c, o) <==>
      if l != step.list || c != step.chat then HasOrder(s, l, c, o)
      else if step.Add? then o == 0
      else c in PositionsAt(s, l) && step.order != 0 && step.order == o
  {
  }

  lemma LastInNext(positions: seq<Position>, p: Position, l: int)
    ensures LastIn(positions + [p], l) == if p.list == l then Some(p.order) else LastIn(positions, l)
  {
    assert (positions + [p])[..|positions|] == positions;
  }

  lemma {:induction false} PlacesMeaning(s: Lists, chat: int, positions: seq<Position>, l: int, c: int, o: int)
    ensures HasOrder(ApplyAll(s, Places(chat, positions)), l, c, o) <==>
      if c != chat || LastIn(positions, l).None? then HasOrder(s, l, c, o)
      else c in PositionsAt(s, l) && Stays(positions, l) && LastIn(positions, l) == Some(o)
  {
    hide Apply, Stays, Restores, Stale;
    if positions != [] {
      var (ps, p) := (positions[..|positions| - 1], positions[|positions| - 1]);
      var step := Place(p.list, chat, p.order);
      var t := ApplyAll(s, Places(chat, ps));
      PlacesMeaning(s, chat, ps, l, c, o);
      PlacesStale(s, chat, ps, l, c, o);
      assert Places(chat, positions) == Places(chat, ps) + [step];
      ApplySplit(s, Places(chat, ps), [step]);
      ApplyOne(t, step);
      StepMeaning(t, step, l, c, o);
      assert positions == ps + [p];
      RestoresNext(ps, p, l, o);
      LastInNext(ps, p, l);
      if LastIn(ps, l).None? { NoneStays(ps, l); }
      hide LastIn, ApplyAll, Places, HasOrder;
    }
  }

  lemma {:induction false} NoneStays(positions: seq<Position>, l: int)
    requires LastIn(positions, l).None?
    ensures Stays(positions, l)
  {
    if positions != [] { NoneStays(positions[..|positions| - 1], l); }
  }

  lemma {:induction false} AddsMeaning(s: Lists, chat: int, lists: seq<int>, l: int, c: int, o: int)
    ensures HasOrder(ApplyAll(s, Adds(chat, lists)), l, c, o) <==>
      if c == chat && l in lists then o == 0 else HasOrder(s, l, c, o)
  {
    hide Apply;
    if lists != [] {
      var (ls, m) := (lists[..|lists| - 1], lists[|lists| - 1]);
      AddsMeaning(s, chat, ls, l, c, o);
      assert Adds(chat, lists) == Adds(chat, ls) + [Add(m, chat)] && lists == ls + [m];
      ApplySplit(s, Adds(chat, ls), [Add(m, chat)]);
      ApplyOne(ApplyAll(s, Adds(chat, ls)), Add(m, chat));
      StepMeaning(ApplyAll(s, Adds(chat, ls)), Add(m, chat), l, c, o);
    }
  }

  lemma StaysMeansKeeps(u: Update, l: int, c: int)
    ensures Removes(u, l, c) <==> u.chat == c && !Stays(PositionsOf(u), l)
  {
    if !Stays(PositionsOf(u), l) {
      var i :| 0 <= i < |PositionsOf(u)| && PositionsOf(u)[i].list == l && PositionsOf(u)[i].order == 0;
      assert PositionsOf(u)[i] == Position(l, 0);
    }
  }

  lemma StepsOf(s: Lists, u: Update)
    ensures ApplyAll(s, Steps(u)) == ApplyAll(ApplyAll(s, match u
        case NewChat(chat, lists, _) => Adds(chat, lists)
        case AddedToList(chat, list) => [Add(list, chat)]
        case ChatPosition(_, _) => []
        case LastMessage(_, _) => []), Places(u.chat, PositionsOf(u)))
  {
    hide Apply;
    match u
    case NewChat(chat, lists, positions) => ApplySplit(s, Adds(chat, lists), Places(chat, positions));
    case AddedToList(chat, list) => assert Places(chat, []) == [];
    case ChatPosition(chat, p) => assert Places(chat, [p]) == [Place(p.list, chat, p.order)];
    case LastMessage(_, _) =>
  }

  /** An update lists the chats it adds, takes out those it gives order 0, and gives the others their last order. */
  lemma UpdateMeaning(s: Lists, u: Update, l: int, c: int, o: int)
    ensures var t := ApplyAll(s, Steps(u));
      && (c in PositionsAt(t, l) <==> (c in PositionsAt(s, l) || AddsTo(u, l, c)) && !Removes(u, l, c))
      && (HasOrder(t, l, c, o) <==>
          if GivenBy(u, l, c).None? then HasOrder(s, l, c, o)
          else (c in PositionsAt(s, l) || AddsTo(u, l, c)) && !Removes(u, l, c) && GivenBy(u, l, c) == Some(o))
  {
    hide Apply, ApplyAll, Steps;
    StepsOf(s, u);
    StaysMeansKeeps(u, l, c);
    var added := match u
      case NewChat(chat, lists, _) => Adds(chat, lists)
      case AddedToList(chat, list) => [Add(list, chat)]
      case ChatPosition(_, _) => []
      case LastMessage(_, _) => [];
    var lists := match u
      case NewChat(_, lists, _) => lists
      case AddedToList(_, list) => [list]
      case ChatPosition(_, _) => []
      case LastMessage(_, _) => [];
    assert added == Adds(u.chat, lists);
    assert AddsTo(u, l, c) <==> c == u.chat && l in lists;
    AddsMeaning(s, u.chat, lists, l, c, o);
    AddsStale(s, u.chat, lists, l, c, o);
    PlacesMeaning(ApplyAll(s, added), u.chat, PositionsOf(u), l, c, o);
    PlacesStale(ApplyAll(s, added), u.chat, PositionsOf(u), l, c, o);
    if LastIn(PositionsOf(u), l).None? { NoneStays(PositionsOf(u), l); }
  }

  lemma GivesToTouched(u: Update, l: int, c: int)
    requires GivenBy(u, l, c).None?
    ensures !AddsTo(u, l, c) && !Removes(u, l, c)
  {
    StaysMeansKeeps(u, l, c);
    if u.chat == c { NoneStays(PositionsOf(u), l); }
  }

  // ----- what a history of updates means

  /** The chat was added to the list, and no update since, nor that one itself, took it out. */
  ghost predicate ListedBy(us: seq<Update>, l: int, c: int) {
    exists i :: 0 <= i < |us| && AddsTo(us[i], l, c) && KeptFrom(us, l, c, i)
  }

  ghost predicate KeptFrom(us: seq<Update>, l: int, c: int, i: int) {
    forall k :: 0 <= i <= k < |us| ==> !Removes(us[k], l, c)
  }

  /** Update j is the last one that gives the chat an order in the list. */
  ghost predicate LastGiver(us: seq<Update>, l: int, c: int, j: nat) {
    j < |us| && GivenBy(us[j], l, c).Some? && forall k :: j < k < |us| ==> GivenBy(us[k], l, c).None?
  }

  ghost predicate LastOrder(us: seq<Update>, l: int, c: int, o: int) {
    exists j: nat :: LastGiver(us, l, c, j) && GivenBy(us[j], l, c) == Some(o)
  }

  lemma ListedByNext(us: seq<Update>, u: Update, l: int, c: int)
    ensures ListedBy(us + [u], l, c) <==> (ListedBy(us, l, c) || AddsTo(u, l, c)) && !Removes(u, l, c)
  {
    hide AddsTo, Removes;
    var vs := us + [u];
    assert vs[|us|] == u && forall k :: 0 <= k < |us| ==> vs[k] == us[k];
    if ListedBy(vs, l, c) {
      var i :| 0 <= i < |vs| && AddsTo(vs[i], l, c) && KeptFrom(vs, l, c, i);
      assert !Removes(vs[|us|], l, c);
      if i < |us| {
        forall k | i <= k < |us| ensures !Removes(us[k], l, c) { assert !Removes(vs[k], l, c); }
        assert KeptFrom(us, l, c, i);
      }
    }
    if ListedBy(us, l, c) && !Removes(u, l, c) {
      var i :| 0 <= i < |us| && AddsTo(us[i], l, c) && KeptFrom(us, l, c, i);
      assert AddsTo(vs[i], l, c) && KeptFrom(vs, l, c, i);
    }
    if AddsTo(u, l, c) && !Removes(u, l, c) {
      assert KeptFrom(vs, l, c, |us|);
    }
  }

  lemma LastOrderNext(us: seq<Update>, u: Update, l: int, c: int, o: int)
    ensures LastOrder(us + [u], l, c, o) <==>
      if GivenBy(u, l, c).Some? then GivenBy(u, l, c) == Some(o) else LastOrder(us, l, c, o)
  {
    hide GivenBy;
    var vs := us + [u];
    assert vs[|us|] == u && forall k :: 0 <= k < |us| ==> vs[k] == us[k];
    if GivenBy(u, l, c).Some? {
      assert LastGiver(vs, l, c, |us|);
      assert forall j: nat :: j < |us| ==> !LastGiver(vs, l, c, j);
    } else {
      forall j: nat ensures LastGiver(vs, l, c, j) <==> LastGiver(us, l, c, j) {
        if LastGiver(vs, l, c, j) {
          forall k | j < k < |us| ensures GivenBy(us[k], l, c).None? { assert GivenBy(vs[k], l, c).None?; }
        }
      }
    }
  }

  /** Over every history: a chat is listed exactly when an update added it and none since took it out, and its order
    is the one that the last update that gave it any order gave it last. */
  lemma {:induction false} HistoryMeaning(us: seq<Update>, l: int, c: int, o: int)
    ensures c in PositionsAt(After(us), l) <==> ListedBy(us, l, c)
    ensures HasOrder(After(us), l, c, o) <==> ListedBy(us, l, c) && LastOrder(us, l, c, o)
  {
    hide ListedBy, LastOrder, GivenBy, Removes, AddsTo, Steps, ApplyAll;
    if us == [] {
      NothingListed(l, c);
    } else {
      var (vs, u) := (us[..|us| - 1], us[|us| - 1]);
      assert us == vs + [u];
      HistoryMeaning(vs, l, c, o);
      AfterNext(vs, u);
      UpdateMeaning(After(vs), u, l, c, o);
      ListedByNext(vs, u, l, c);
      LastOrderNext(vs, u, l, c, o);
      if GivenBy(u, l, c).None? { GivesToTouched(u, l, c); }
    }
  }

  lemma NothingListed(l: int, c: int)
    ensures !ListedBy([], l, c)
  {
  }
}
