/** The client's two-way index of chats by position, one index for every chat list. */
module ChatIndexes {

  /** (order, chat) */
  type Pair = (int, int)

  datatype Position = Position(list: int, order: int)

  /** position_sets and id_to_position. */
  datatype Lists = Lists(sets: map<int, set<Pair>>, positions: map<int, map<int, int>>)

  function SetAt(s: Lists, l: int): set<Pair> {
    if l in s.sets then s.sets[l] else {}
  }

  function PositionsAt(s: Lists, l: int): map<int, int> {
    if l in s.positions then s.positions[l] else map[]
  }

  const NONE: Lists := Lists(map[], map[])

  // ----- steps and updates

  /** Every update is a sequence of these: a chat enters a list at order 0, or gets an order in it. */
  datatype Step = Add(list: int, chat: int) | Place(list: int, chat: int, order: int)

  function Apply(s: Lists, step: Step): Lists {
    var (l, c) := (step.list, step.chat);
    var (pairs, orders) := (SetAt(s, l), PositionsAt(s, l));
    match step
    case Add(_, _) => Lists(s.sets[l := pairs + {(0, c)}], s.positions[l := orders[c := 0]])
    case Place(_, _, order) =>
      if c !in orders then Lists(s.sets[l := pairs], s.positions[l := orders])
      else if order != 0 then
        Lists(s.sets[l := pairs - {(orders[c], c)} + {(order, c)}], s.positions[l := orders[c := order]])
      else
        Lists(s.sets[l := pairs - {(orders[c], c)}], s.positions[l := orders - {c}])
  }

  function ApplyAll(s: Lists, steps: seq<Step>): Lists {
    if steps == [] then s else Apply(ApplyAll(s, steps[..|steps| - 1]), steps[|steps| - 1])
  }

  datatype Update =
    | NewChat(chat: int, lists: seq<int>, positions: seq<Position>)
    | AddedToList(chat: int, list: int)
    | ChatPosition(chat: int, position: Position)
    | LastMessage(chat: int, positions: seq<Position>)

  function Adds(chat: int, lists: seq<int>): seq<Step> {
    seq(|lists|, i requires 0 <= i < |lists| => Add(lists[i], chat))
  }

  function Places(chat: int, positions: seq<Position>): seq<Step> {
    seq(|positions|, i requires 0 <= i < |positions| => Place(positions[i].list, chat, positions[i].order))
  }

  function Steps(u: Update): seq<Step> {
    match u
    case NewChat(chat, lists, positions) => Adds(chat, lists) + Places(chat, positions)
    case AddedToList(chat, list) => [Add(list, chat)]
    case ChatPosition(chat, p) => [Place(p.list, chat, p.order)]
    case LastMessage(chat, positions) => Places(chat, positions)
  }

  // ----- the handlers

  class ChatIndex {
    var positionSets: map<int, set<Pair>>
    var idToPosition: map<int, map<int, int>>

    function Contents(): Lists
      reads this
    {
      Lists(positionSets, idToPosition)
    }

    constructor ()
      ensures Contents() == NONE
    {
      positionSets, idToPosition := map[], map[];
    }

    method UpdatePosition(chat: int, u: Position)
      modifies this
      ensures Contents() == Apply(old(Contents()), Place(u.list, chat, u.order))
    {
      if u.list !in idToPosition { idToPosition := idToPosition[u.list := map[]]; }
      if u.list !in positionSets { positionSets := positionSets[u.list := {}]; }
      var orders := idToPosition[u.list];
      if chat in orders {
        positionSets := positionSets[u.list := positionSets[u.list] - {(orders[chat], chat)}];
        if u.order != 0 {
          positionSets := positionSets[u.list := positionSets[u.list] + {(u.order, chat)}];
          idToPosition := idToPosition[u.list := orders[chat := u.order]];
        } else {
          idToPosition := idToPosition[u.list := orders - {chat}];
        }
      }
    }

    method AddToList(chat: int, list: int)
      modifies this
      ensures Contents() == Apply(old(Contents()), Add(list, chat))
    {
      idToPosition := idToPosition[list := PositionsAt(Contents(), list)[chat := 0]];
      positionSets := positionSets[list := SetAt(Contents(), list) + {(0, chat)}];
    }

    method ProcessNewChat(chat: int, lists: seq<int>, positions: seq<Position>)
      modifies this
      ensures Contents() == ApplyAll(old(Contents()), Steps(NewChat(chat, lists, positions)))
    {
      for i := 0 to |lists|
        invariant Contents() == ApplyAll(old(Contents()), Adds(chat, lists)[..i])
      {
        AddToList(chat, lists[i]);
        ApplyNext(old(Contents()), Adds(chat, lists), i);
      }
      assert Adds(chat, lists)[..|lists|] == Adds(chat, lists);
      UpdatePositions(chat, positions);
      ApplySplit(old(Contents()), Adds(chat, lists), Places(chat, positions));
    }

    method UpdatePositions(chat: int, positions: seq<Position>)
      modifies this
      ensures Contents() == ApplyAll(old(Contents()), Places(chat, positions))
    {
      for i := 0 to |positions|
        invariant Contents() == ApplyAll(old(Contents()), Places(chat, positions)[..i])
      {
        UpdatePosition(chat, positions[i]);
        ApplyNext(old(Contents()), Places(chat, positions), i);
      }
      assert Places(chat, positions)[..|positions|] == Places(chat, positions);
    }

    method ProcessChatAddedToList(chat: int, list: int)
      modifies this
      ensures Contents() == ApplyAll(old(Contents()), Steps(AddedToList(chat, list)))
    {
      AddToList(chat, list);
      ApplyOne(old(Contents()), Add(list, chat));
    }

    method ProcessChatPosition(chat: int, position: Position)
      modifies this
      ensures Contents() == ApplyAll(old(Contents()), Steps(ChatPosition(chat, position)))
    {
      UpdatePosition(chat, position);
      ApplyOne(old(Contents()), Place(position.list, chat, position.order));
    }

    method ProcessChatLastMessage(chat: int, positions: seq<Position>)
      modifies this
      ensures Contents() == ApplyAll(old(Contents()), Steps(LastMessage(chat, positions)))
    {
      if positions != [] {
        UpdatePositions(chat, positions);
      }
    }
  }

  lemma ApplyNext(s: Lists, steps: seq<Step>, i: nat)
    requires i < |steps|
    ensures ApplyAll(s, steps[..i + 1]) == Apply(ApplyAll(s, steps[..i]), steps[i])
  {
    assert steps[..i + 1][..i] == steps[..i];
  }

  lemma ApplyOne(s: Lists, step: Step)
    ensures ApplyAll(s, [step]) == Apply(s, step)
  {
    ApplyNext(s, [step], 0);
    assert [step][..1] == [step];
  }

  lemma {:induction false} ApplySplit(s: Lists, a: seq<Step>, b: seq<Step>)
    ensures ApplyAll(s, a + b) == ApplyAll(ApplyAll(s, a), b)
  {
    hide Apply;
    if b == [] {
      assert a + b == a;
    } else {
      ApplySplit(s, a, b[..|b| - 1]);
      assert (a + b)[..|a + b| - 1] == a + b[..|b| - 1];
    }
  }

  // ----- agreement

  /** Of the pairs of the list, exactly those are there that its map of positions names. */
  ghost predicate Agrees(s: Lists) {
    forall l, c, o :: (o, c) in SetAt(s, l) <==> HasOrder(s, l, c, o)
  }

  predicate HasOrder(s: Lists, l: int, c: int, o: int) {
    c in PositionsAt(s, l) && PositionsAt(s, l)[c] == o
  }

  /** A pair that the map does not name. */
  predicate Stale(s: Lists, l: int, c: int, o: int) {
    (o, c) in SetAt(s, l) && !HasOrder(s, l, c, o)
  }

  ghost predicate Covered(s: Lists) {
    forall l, c, o :: HasOrder(s, l, c, o) ==> (o, c) in SetAt(s, l)
  }

  lemma AgreesMeans(s: Lists)
    ensures Agrees(s) <==> Covered(s) && forall l, c, o :: !Stale(s, l, c, o)
  {
    if Covered(s) && (forall l, c, o :: !Stale(s, l, c, o)) {
      forall l, c, o ensures (o, c) in SetAt(s, l) <==> HasOrder(s, l, c, o) {
        assert !Stale(s, l, c, o);
      }
    }
  }

  /** Whatever the updates, no chat with a position is ever missing from its list. */
  lemma {:induction false} NeverMissing(steps: seq<Step>)
    ensures Covered(ApplyAll(NONE, steps))
  {
    if steps != [] {
      NeverMissing(steps[..|steps| - 1]);
      StepCovers(ApplyAll(NONE, steps[..|steps| - 1]), steps[|steps| - 1]);
    }
  }

  lemma StepCovers(s: Lists, step: Step)
    requires Covered(s)
    ensures Covered(Apply(s, step))
  {
    forall l, c, o | HasOrder(Apply(s, step), l, c, o) ensures (o, c) in SetAt(Apply(s, step), l) {
      if l != step.list || c != step.chat {
        assert HasOrder(s, l, c, o);
      }
    }
  }

  lemma {:induction false} StepsCover(s: Lists, steps: seq<Step>)
    requires Covered(s)
    ensures Covered(ApplyAll(s, steps))
  {
    if steps != [] {
      StepsCover(s, steps[..|steps| - 1]);
      StepCovers(ApplyAll(s, steps[..|steps| - 1]), steps[|steps| - 1]);
    }
  }

  /** What one step does to a stale pair of any chat. */
  lemma StaleAfter(s: Lists, step: Step, l: int, c: int, o: int)
    ensures var t := Apply(s, step);
      if l != step.list || c != step.chat then Stale(t, l, c, o) == Stale(s, l, c, o)
      else if step.Add? then Stale(t, l, c, o) <==> o != 0 && (o, c) in SetAt(s, l)
      else Stale(t, l, c, o) <==> Stale(s, l, c, o) && !(c in PositionsAt(s, l) && step.order == o && o != 0)
  {
  }

  lemma ListedAfter(s: Lists, step: Step, l: int, c: int)
    ensures var t := Apply(s, step);
      c in PositionsAt(t, l) <==>
        if l != step.list || c != step.chat then c in PositionsAt(s, l)
        else step.Add? || (c in PositionsAt(s, l) && step.order != 0)
  {
  }

  // ----- the exact condition for agreement

  /** No position takes the chat out of list l. */
  predicate Stays(positions: seq<Position>, l: int) {
    forall i :: 0 <= i < |positions| && positions[i].list == l ==> positions[i].order != 0
  }

  /** Some position puts the chat back at order o of list l before any takes it out of the list. */
  predicate Restores(positions: seq<Position>, l: int, o: int) {
    exists j :: 0 <= j < |positions| && positions[j] == Position(l, o) && Stays(positions[..j], l)
  }

  /** An update that adds the chat to a list finds it unlisted there, or at order 0, or restores its order. */
  ghost predicate Safe(s: Lists, u: Update) {
    match u
    case NewChat(c, lists, positions) =>
      forall l, o :: l in lists && HasOrder(s, l, c, o) && o != 0 ==> Restores(positions, l, o)
    case AddedToList(c, l) => forall o :: HasOrder(s, l, c, o) ==> o == 0
    case ChatPosition(_, _) => true
    case LastMessage(_, _) => true
  }

  lemma RestoresNext(positions: seq<Position>, p: Position, l: int, o: int)
    ensures Stays(positions + [p], l) <==> Stays(positions, l) && (p.list == l ==> p.order != 0)
    ensures Restores(positions + [p], l, o) <==>
      Restores(positions, l, o) || (Stays(positions, l) && p == Position(l, o))
  {
    var ps := positions + [p];
    assert Stays(ps, l) ==> Stays(positions, l) by {
      if Stays(ps, l) {
        forall i | 0 <= i < |positions| && positions[i].list == l ensures positions[i].order != 0 {
          assert ps[i].order != 0;
        }
      }
    }
    assert Stays(ps, l) ==> (p.list == l ==> p.order != 0) by { assert ps[|positions|] == p; }
    if Restores(ps, l, o) {
      var j :| 0 <= j < |ps| && ps[j] == Position(l, o) && Stays(ps[..j], l);
      assert ps[..j] == positions[..j];
      if j == |positions| { assert positions[..j] == positions; }
    }
    if Restores(positions, l, o) {
      var j :| 0 <= j < |positions| && positions[j] == Position(l, o) && Stays(positions[..j], l);
      assert ps[..j] == positions[..j] && ps[j] == Position(l, o);
    }
    if Stays(positions, l) && p == Position(l, o) {
      assert ps[..|positions|] == positions && ps[|positions|] == p;
    }
  }

  lemma {:induction false} PlacesStale(s: Lists, chat: int, positions: seq<Position>, l: int, c: int, o: int)
    ensures var t := ApplyAll(s, Places(chat, positions));
      && (c in PositionsAt(t, l) <==> c in PositionsAt(s, l) && (c == chat ==> Stays(positions, l)))
      && (Stale(t, l, c, o) <==>
          Stale(s, l, c, o) && !(c == chat && c in PositionsAt(s, l) && o != 0 && Restores(positions, l, o)))
  {
    if positions != [] {
      var (ps, p) := (positions[..|positions| - 1], positions[|positions| - 1]);
      var t := ApplyAll(s, Places(chat, ps));
      var step := Place(p.list, chat, p.order);
      PlacesStale(s, chat, ps, l, c, o);
      assert Places(chat, positions) == Places(chat, ps) + [step];
      ApplyNext(s, Places(chat, positions), |ps|);
      assert positions == ps + [p] && Places(chat, positions)[..|ps|] == Places(chat, ps);
      assert Places(chat, positions)[..|ps| + 1] == Places(chat, positions);
      RestoresNext(ps, p, l, o);
      StaleAfter(t, step, l, c, o);
      ListedAfter(t, step, l, c);
    }
  }

  lemma {:induction false} AddsStale(s: Lists, chat: int, lists: seq<int>, l: int, c: int, o: int)
    ensures var t := ApplyAll(s, Adds(chat, lists));
      && (c in PositionsAt(t, l) <==> c in PositionsAt(s, l) || (c == chat && l in lists))
      && (o != 0 ==> ((o, c) in SetAt(t, l) <==> (o, c) in SetAt(s, l)))
      && (Stale(t, l, c, o) <==> if c == chat && l in lists then o != 0 && (o, c) in SetAt(s, l) else Stale(s, l, c, o))
  {
    if lists != [] {
      var (ls, m) := (lists[..|lists| - 1], lists[|lists| - 1]);
      var t := ApplyAll(s, Adds(chat, ls));
      AddsStale(s, chat, ls, l, c, o);
      assert Adds(chat, lists)[..|ls|] == Adds(chat, ls);
      assert Adds(chat, lists)[..|ls| + 1] == Adds(chat, lists);
      ApplyNext(s, Adds(chat, lists), |ls|);
      assert lists == ls + [m];
      StaleAfter(t, Add(m, chat), l, c, o);
      ListedAfter(t, Add(m, chat), l, c);
    }
  }

  /** A new chat leaves stale exactly the orders that were there and that its positions do not restore. */
  lemma NewChatStale(s: Lists, chat: int, lists: seq<int>, positions: seq<Position>, l: int, c: int, o: int)
    requires Agrees(s)
    ensures Stale(ApplyAll(s, Steps(NewChat(chat, lists, positions))), l, c, o) <==>
      c == chat && l in lists && o != 0 && HasOrder(s, l, c, o) && !Restores(positions, l, o)
  {
    var t := ApplyAll(s, Adds(chat, lists));
    ApplySplit(s, Adds(chat, lists), Places(chat, positions));
    AddsStale(s, chat, lists, l, c, o);
    PlacesStale(t, chat, positions, l, c, o);
    assert (o, c) in SetAt(s, l) <==> HasOrder(s, l, c, o);
  }

  /** From an index that agrees, an update leads to one that agrees exactly when it is safe. */
  lemma AgreesIffSafe(s: Lists, u: Update)
    requires Agrees(s)
    ensures Agrees(ApplyAll(s, Steps(u))) <==> Safe(s, u)
  {
    var t := ApplyAll(s, Steps(u));
    AgreesMeans(s);
    AgreesMeans(t);
    StepsCover(s, Steps(u));
    match u {
      case NewChat(chat, lists, positions) =>
        forall l, c, o
          ensures Stale(t, l, c, o) <==>
            c == chat && l in lists && o != 0 && HasOrder(s, l, c, o) && !Restores(positions, l, o)
        {
          NewChatStale(s, chat, lists, positions, l, c, o);
        }
      case AddedToList(chat, list) =>
        ApplyOne(s, Add(list, chat));
        forall l, c, o ensures Stale(t, l, c, o) <==> c == chat && l == list && o != 0 && HasOrder(s, l, c, o) {
          StaleAfter(s, Add(list, chat), l, c, o);
          assert (o, c) in SetAt(s, l) <==> HasOrder(s, l, c, o);
        }
      case ChatPosition(chat, p) =>
        ApplyOne(s, Place(p.list, chat, p.order));
        forall l, c, o ensures !Stale(t, l, c, o) { StaleAfter(s, Place(p.list, chat, p.order), l, c, o); }
      case LastMessage(chat, positions) =>
        forall l, c, o ensures !Stale(t, l, c, o) { PlacesStale(s, chat, positions, l, c, o); }
    }
  }

  // ----- runs of updates

  function After(us: seq<Update>): Lists {
    if us == [] then NONE else ApplyAll(After(us[..|us| - 1]), Steps(us[|us| - 1]))
  }

  ghost predicate AlwaysAgrees(us: seq<Update>) {
    forall n :: 0 <= n <= |us| ==> Agrees(After(us[..n]))
  }

  ghost predicate AlwaysSafe(us: seq<Update>) {
    forall n :: 0 <= n < |us| ==> Safe(After(us[..n]), us[n])
  }

  /** The index agrees throughout a run exactly when every update is safe where it arrives. */
  lemma {:induction false} RunAgrees(us: seq<Update>)
    ensures AlwaysAgrees(us) <==> AlwaysSafe(us)
  {
    hide *;
    if us == [] {
      AlwaysAtFirst();
    } else {
      var (vs, u) := (us[..|us| - 1], us[|us| - 1]);
      RunAgrees(vs);
      AlwaysNext(vs, u);
      assert us == vs + [u];
      if AlwaysAgrees(vs) {
        AgreesAtLast(vs);
        AgreesIffSafe(After(vs), u);
        AfterNext(vs, u);
      }
    }
  }

  lemma AlwaysAtFirst()
    ensures AlwaysAgrees([]) && AlwaysSafe([])
  {
    var us: seq<Update> := [];
    assert forall n :: 0 <= n <= |us| ==> us[..n] == [];
  }

  lemma AgreesAtLast(us: seq<Update>)
    requires AlwaysAgrees(us)
    ensures Agrees(After(us))
  {
    hide Agrees, After;
    assert us[..|us|] == us;
  }

  lemma AfterNext(us: seq<Update>, u: Update)
    ensures After(us + [u]) == ApplyAll(After(us), Steps(u))
  {
    hide ApplyAll, Steps;
    assert (us + [u])[..|us|] == us;
  }

  lemma AlwaysNext(us: seq<Update>, u: Update)
    ensures AlwaysAgrees(us + [u]) <==> AlwaysAgrees(us) && Agrees(After(us + [u]))
    ensures AlwaysSafe(us + [u]) <==> AlwaysSafe(us) && Safe(After(us), u)
  {
    hide After, Agrees, Safe;
    var us' := us + [u];
    assert us'[..|us'|] == us' && us'[..|us|] == us;
    assert forall n :: 0 <= n <= |us| ==> us'[..n] == us[..n];
    if AlwaysSafe(us') {
      assert Safe(After(us'[..|us|]), us'[|us|]);
      forall n | 0 <= n < |us| ensures Safe(After(us[..n]), us[n]) { assert Safe(After(us'[..n]), us'[n]); }
    }
    if AlwaysAgrees(us') {
      assert Agrees(After(us'[..|us'|]));
      forall n | 0 <= n <= |us| ensures Agrees(After(us[..n])) { assert Agrees(After(us'[..n])); }
    }
  }

  /** A chat that is added to a list where it has an order is listed twice, and a new order does not mend that. */
  lemma AddedAgain()
    ensures var (a, p7, p9) := (AddedToList(5, 1), ChatPosition(5, Position(1, 7)), ChatPosition(5, Position(1, 9)));
      var us := [a, p7, a, p9];
      (7, 5) in SetAt(After(us), 1) && (9, 5) in SetAt(After(us), 1) && !Agrees(After(us))
  {
    var a := AddedToList(5, 1);
    var p7 := ChatPosition(5, Position(1, 7));
    var p9 := ChatPosition(5, Position(1, 9));
    assert [a, p7, a, p9][..3] == [a, p7, a] && [a, p7, a][..2] == [a, p7] && [a, p7][..1] == [a] && [a][..0] == [];
    ApplyOne(NONE, Add(1, 5));
    ApplyOne(After([a]), Place(1, 5, 7));
    ApplyOne(After([a, p7]), Add(1, 5));
    ApplyOne(After([a, p7, a]), Place(1, 5, 9));
    var s := After([a, p7, a, p9]);
    assert Stale(s, 1, 5, 7);
  }

  // ----- iteration

  predicate Above(p: Pair, q: Pair) {
    p.0 > q.0 || (p.0 == q.0 && p.1 > q.1)
  }

  /** The pairs as the set's iterator gives them, the greatest first. */
  ghost predicate Iterates(it: seq<Pair>, pairs: set<Pair>) {
    && (forall p :: p in it <==> p in pairs)
    && forall i, j :: 0 <= i < j < |it| ==> Above(it[i], it[j])
  }

  /** Iteration gives the chats that have a position, each once, by descending order. */
  lemma IterationListsChats(s: Lists, l: int, it: seq<Pair>)
    requires Agrees(s) && Iterates(it, SetAt(s, l))
    ensures forall c :: c in PositionsAt(s, l) <==> exists i :: 0 <= i < |it| && it[i].1 == c
    ensures forall i, j :: 0 <= i < j < |it| ==> it[i].1 != it[j].1 && it[i].0 >= it[j].0
    ensures forall i :: 0 <= i < |it| ==> HasOrder(s, l, it[i].1, it[i].0)
  {
    forall i | 0 <= i < |it| ensures HasOrder(s, l, it[i].1, it[i].0) {
      assert it[i] in it;
      assert (it[i].0, it[i].1) in SetAt(s, l);
    }
    forall c | c in PositionsAt(s, l) ensures exists i :: 0 <= i < |it| && it[i].1 == c {
      var o := PositionsAt(s, l)[c];
      assert HasOrder(s, l, c, o);
      assert (o, c) in it;
      var i :| 0 <= i < |it| && it[i] == (o, c);
    }
    forall i, j | 0 <= i < j < |it| ensures it[i].1 != it[j].1 && it[i].0 >= it[j].0 {
      assert Above(it[i], it[j]);
    }
  }

  // ----- what the positions mean

  predicate About(step: Step, l: int, c: int) {
    step.list == l && step.chat == c
  }

  function Given(step: Step): int {
    if step.Add? then 0 else step.order
  }

  /** Step j is the last about the chat in this list. */
  predicate IsLast(h: seq<Step>, l: int, c: int, j: nat) {
    j < |h| && About(h[j], l, c) && forall k :: j < k < |h| ==> !About(h[k], l, c)
  }

  /** The chat was added to the list and not taken out of it again. */
  ghost predicate Listed(h: seq<Step>, l: int, c: int) {
    exists i :: 0 <= i < |h| && h[i] == Add(l, c) && forall k :: i < k < |h| ==> h[k] != Place(l, c, 0)
  }

  ghost predicate LastGiven(h: seq<Step>, l: int, c: int, o: int) {
    exists j: nat :: IsLast(h, l, c, j) && Given(h[j]) == o
  }

  lemma ListedNext(h: seq<Step>, step: Step, l: int, c: int)
    ensures Listed(h + [step], l, c) <==> step == Add(l, c) || (Listed(h, l, c) && step != Place(l, c, 0))
  {
    var h' := h + [step];
    if Listed(h', l, c) && step != Add(l, c) {
      var i :| 0 <= i < |h'| && h'[i] == Add(l, c) && forall k :: i < k < |h'| ==> h'[k] != Place(l, c, 0);
      assert h[i] == Add(l, c);
      forall k | i < k < |h| ensures h[k] != Place(l, c, 0) { assert h'[k] == h[k]; }
      assert h'[|h|] == step;
    }
    if step == Add(l, c) { assert h'[|h|] == Add(l, c); }
    if Listed(h, l, c) && step != Place(l, c, 0) {
      var i :| 0 <= i < |h| && h[i] == Add(l, c) && forall k :: i < k < |h| ==> h[k] != Place(l, c, 0);
      assert h'[i] == Add(l, c);
    }
  }

  lemma LastGivenNext(h: seq<Step>, step: Step, l: int, c: int, o: int)
    ensures LastGiven(h + [step], l, c, o) <==> if About(step, l, c) then Given(step) == o else LastGiven(h, l, c, o)
  {
    var h' := h + [step];
    if About(step, l, c) {
      assert IsLast(h', l, c, |h|);
    } else {
      forall j: nat ensures IsLast(h', l, c, j) <==> IsLast(h, l, c, j) {
        if IsLast(h', l, c, j) {
          forall k | j < k < |h| ensures !About(h[k], l, c) { assert !About(h'[k], l, c); }
        }
      }
    }
  }

  /** A chat has order o in a list exactly when it is listed there and o is the last order it was given. */
  lemma {:induction false} OrderMeaning(h: seq<Step>, l: int, c: int, o: int)
    ensures c in PositionsAt(ApplyAll(NONE, h), l) <==> Listed(h, l, c)
    ensures HasOrder(ApplyAll(NONE, h), l, c, o) <==> Listed(h, l, c) && LastGiven(h, l, c, o)
  {
    if h != [] {
      var (g, step) := (h[..|h| - 1], h[|h| - 1]);
      OrderMeaning(g, l, c, o);
      ListedNext(g, step, l, c);
      LastGivenNext(g, step, l, c, o);
      assert h == g + [step];
      hide Listed, LastGiven;
      ListedAfter(ApplyAll(NONE, g), step, l, c);
    }
  }
}
