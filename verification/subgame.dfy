/** `VezimasSubgame`: one trick. The players take turns in the order of the
    turn cycle; each turn either plays a first card on an empty stack, or
    beats the top card and then plays a second card or picks the stack up, or
    picks the stack up at once. A player left without cards is removed from
    the cycle and spliced out of the ring; when one player is left they lose
    the trick and score a point, when none is left the trick is tied.

    A turn is a step function. What the mover's strategy would choose is
    passed in as a `Choice`. */
module Subgame {
  import opened Wrappers
  import opened Cards
  import opened Players
  import opened Hands
  import opened TurnCycle
  import opened GameStates
  import opened Legality
  import opened Vezimas

  /** The state of a trick: the arena of players (their hands, scores and
      working neighbours change during the trick), the turn cycle of player
      ids and where its iteration stands, the stack, and the public state. */
  datatype Trick = Trick(
    players: seq<Player>,
    cycle: seq<Option<nat>>,
    cursor: Cursor,
    stack: seq<Card>,
    view: GameState)

  /** What the mover's strategy decides in one turn: the card to open an
      empty stack with, the card to beat the stack with (`None` picks it up),
      and the second card to play after a beat (`None` picks the stack up). */
  datatype Choice = Choice(first: Card, beat: Option<Card>, second: Option<Card>)

  /** The trick goes on, or it is over with a loser or, when nobody is left,
      without one. */
  datatype Outcome =
    | Continues(t: Trick)
    | Finished(t: Trick, loser: Option<nat>)

  /** Ids in the cycle name players, every working neighbour is set, and every
      player has an entry in the public state. */
  predicate TrickOk(t: Trick)
  {
    && Linked(t.players)
    && (forall k :: 0 <= k < |t.cycle| && t.cycle[k].Some? ==> t.cycle[k].value < |t.players|)
    && (forall i :: 0 <= i < |t.players| ==> t.players[i].name in t.view.views)
  }

  /** The mover is a player of the trick with an entry in the public state:
      all a turn needs to be played. */
  predicate CanMove(t: Trick, mover: nat)
  {
    mover < |t.players| && t.players[mover].name in t.view.views
  }

  /** The turn order of `VezimasSubgame.__init__`: `count` players, starting
      at `start` and following `next`. */
  function CycleOrder(ps: seq<Player>, start: nat, count: int): (ids: seq<nat>)
    requires Linked(ps) && start < |ps|
    ensures |ids| == (if count < 0 then 0 else count)
    ensures forall j :: 0 <= j < |ids| ==> ids[j] < |ps|
    ensures |ids| > 0 ==> ids[0] == start
    ensures forall j :: 0 <= j < |ids| - 1 ==> ids[j + 1] == ps[ids[j]].next.value
  {
    var n := if count < 0 then 0 else count;
    var ids := seq(n, j requires 0 <= j < n => Walk(ps, start, j));
    assert forall j :: 0 <= j < n - 1 ==> Walk(ps, start, j + 1) == ps[Walk(ps, start, j)].next.value by {
      forall j | 0 <= j < n - 1 ensures Walk(ps, start, j + 1) == ps[Walk(ps, start, j)].next.value {
        WalkStep(ps, start, j);
      }
    }
    ids
  }

  lemma {:induction false} WalkStep(ps: seq<Player>, start: nat, j: nat)
    requires Linked(ps) && start < |ps|
    ensures Walk(ps, start, j + 1) == ps[Walk(ps, start, j)].next.value
    decreases j
  {
    if j > 0 {
      WalkStep(ps, ps[start].next.value, j - 1);
    }
  }

  /** `VezimasSubgame(match)` followed by the public state `start_game`
      creates: the cycle starts at the starting player, the stack is empty.
      Without a starting player the trick cannot be set up. */
  function NewTrick(m: Match): (r: Result<Trick, MatchError>)
    requires Linked(m.players) && AllSuited(m.players)
    ensures r.Failure? <==> GetStartingPlayer(m.players).Failure?
    ensures r.Success? ==>
      var t := r.value;
      var s := GetStartingPlayer(m.players).value;
      && TrickOk(t)
      && t.players == m.players && t.stack == [] && t.cursor == Start
      && t.cycle == NewCycle(CycleOrder(m.players, s, m.playerCount))
      && t.view == NewGameState(m.players, [], false)
  {
    match GetStartingPlayer(m.players)
    case Failure(e) => Failure(e)
    case Success(s) =>
      var cyc := NewCycle(CycleOrder(m.players, s, m.playerCount));
      var view := NewGameState(m.players, [], false);
      assert forall i :: 0 <= i < |m.players| ==> m.players[i].name in view.views;
      Success(Trick(m.players, cyc, Start, [], view))
  }

  /** In the seating ring the cycle lists the players from the starting
      player backwards through the roster, each exactly once. */
  lemma CycleOrderInSeatingRing(ps: seq<Player>, start: nat)
    requires SeatingRing(ps) && start < |ps|
    ensures Linked(ps)
    ensures var ids := CycleOrder(ps, start, |ps|);
      && (forall j :: 0 <= j < |ps| ==> ids[j] == SeatsBack(start, j, |ps|))
      && (forall j, k :: 0 <= j < k < |ps| ==> ids[j] != ids[k])
      && (forall i :: 0 <= i < |ps| ==> i in ids)
  {
    var n := |ps|;
    assert Linked(ps);
    var ids := CycleOrder(ps, start, n);
    forall j | 0 <= j < n ensures ids[j] == SeatsBack(start, j, n) {
      WalkInSeatingRing(ps, start, j);
    }
    forall i | 0 <= i < n ensures i in ids {
      assert ids[Distance(start, i, n)] == i;
    }
  }

  lemma {:induction false} WalkInSeatingRing(ps: seq<Player>, start: nat, j: nat)
    requires SeatingRing(ps) && start < |ps| && j < |ps|
    ensures Linked(ps)
    ensures Walk(ps, start, j) == SeatsBack(start, j, |ps|)
    decreases j
  {
    assert Linked(ps);
    if j > 0 {
      WalkInSeatingRing(ps, start, j - 1);
      WalkStep(ps, start, j - 1);
      StepBack(start, j - 1, |ps|);
    }
  }

  /** `r` differs from `t` in the mover's hand, the stack and the public
      state only, and the public state still has an entry for the same names. */
  predicate HandOnly(t: Trick, r: Trick, mover: nat)
  {
    && mover < |t.players| && |r.players| == |t.players|
    && r.players == t.players[mover := r.players[mover]]
    && r.players[mover].(hand := t.players[mover].hand) == t.players[mover]
    && r.cycle == t.cycle && r.cursor == t.cursor
    && r.view.views.Keys == t.view.views.Keys
  }

  lemma HandOnlyTrans(a: Trick, b: Trick, c: Trick, mover: nat)
    requires HandOnly(a, b, mover) && HandOnly(b, c, mover)
    ensures HandOnly(a, c, mover)
  {
    assert c.players == a.players[mover := c.players[mover]];
  }

  /** A change confined to the mover's hand keeps a trick well formed. */
  lemma HandOnlyOk(t: Trick, r: Trick, mover: nat)
    requires TrickOk(t) && HandOnly(t, r, mover)
    ensures TrickOk(r)
  {
    var p := r.players[mover];
    assert p.(hand := t.players[mover].hand) == t.players[mover];
    assert p.name == t.players[mover].name && p.next == t.players[mover].next && p.prev == t.players[mover].prev;
    forall i | 0 <= i < |r.players|
      ensures r.players[i].name == t.players[i].name
      ensures r.players[i].next == t.players[i].next && r.players[i].prev == t.players[i].prev
    {
    }
  }

  /** `pickup_cards` and what surrounds it in a turn: the stack is recorded
      as known in the mover's hand, moves into that hand, the stack is emptied
      and the hand sorted. */
  function Pickup(t: Trick, mover: nat): (r: Trick)
    requires CanMove(t, mover)
    ensures CanMove(r, mover) && HandOnly(t, r, mover)
    ensures r.stack == [] && r.view.cardToBeat == t.view.cardToBeat
    ensures r.players[mover].hand == SortCards(t.players[mover].hand + t.stack)
  {
    var p := t.players[mover];
    var view := AddKnownCards(t.view, p.name, t.stack);
    var hand := SortCards(AddCards(p.hand, t.stack));
    t.(players := t.players[mover := p.(hand := hand)], stack := [], view := view)
  }

  /** Picking up moves the whole stack into the mover's hand. */
  lemma PickupConservesCards(t: Trick, mover: nat)
    requires CanMove(t, mover)
    ensures var r := Pickup(t, mover);
      AllHands(r.players) + multiset(r.stack) == AllHands(t.players) + multiset(t.stack)
  {
    var r := Pickup(t, mover);
    assert r.players == t.players[mover := t.players[mover].(hand := r.players[mover].hand)];
    AllHandsExchange(t.players, mover, r.players[mover].hand, multiset{}, multiset(t.stack));
  }

  /** Playing card `c`: taken out of the mover's hand (if there), put on top
      of the stack, and recorded in the public state. */
  function Play(t: Trick, mover: nat, c: Card): (r: Trick)
    requires CanMove(t, mover)
    ensures CanMove(r, mover) && HandOnly(t, r, mover)
    ensures r.stack == t.stack + [c] && r.view.cardToBeat == t.view.cardToBeat
    ensures r.players[mover].hand == RemoveCards(t.players[mover].hand, [c])
  {
    var p := t.players[mover];
    var stack := t.stack + [c];
    var hand := RemoveCards(p.hand, [c]);
    var view := RemoveKnownCards(t.view, p.name, [c], stack);
    t.(players := t.players[mover := p.(hand := hand)], stack := stack, view := view)
  }

  /** Playing a held card moves exactly that card from the hand to the stack. */
  lemma PlayConservesCards(t: Trick, mover: nat, c: Card)
    requires CanMove(t, mover) && c in t.players[mover].hand
    ensures var r := Play(t, mover, c);
      AllHands(r.players) + multiset(r.stack) == AllHands(t.players) + multiset(t.stack)
  {
    var r := Play(t, mover, c);
    var hand := t.players[mover].hand;
    RemoveOneHeld(hand, c);
    assert r.players == t.players[mover := t.players[mover].(hand := r.players[mover].hand)];
    AllHandsExchange(t.players, mover, r.players[mover].hand, multiset(t.stack) + multiset{c}, multiset(t.stack));
  }

  /** `adjust_card_to_beat` on the trick's public state. */
  function Adjust(t: Trick, flag: bool): (r: Trick)
    ensures r.view.cardToBeat == flag && r.view.views == t.view.views
    ensures r.players == t.players && r.stack == t.stack && r.cycle == t.cycle && r.cursor == t.cursor
  {
    t.(view := AdjustCardToBeat(t.view, flag))
  }

  lemma AdjustHandOnly(t: Trick, flag: bool, mover: nat)
    requires CanMove(t, mover)
    ensures CanMove(Adjust(t, flag), mover) && HandOnly(t, Adjust(t, flag), mover)
  {
    assert t.players == t.players[mover := t.players[mover]];
  }

  /** Opening an empty stack: no card is to be beaten; `first` is played. */
  function Open(t: Trick, mover: nat, first: Card): (r: Trick)
    requires CanMove(t, mover)
    ensures CanMove(r, mover) && HandOnly(t, r, mover)
    ensures !r.view.cardToBeat
    ensures r.stack == t.stack + [first]
    ensures r.players[mover].hand == RemoveCards(t.players[mover].hand, [first])
  {
    var t1 := Adjust(t, false);
    AdjustHandOnly(t, false, mover);
    var r := Play(t1, mover, first);
    HandOnlyTrans(t, t1, r, mover);
    r
  }

  /** After beating: a second card is played, or the stack picked up. */
  function Follow(t: Trick, mover: nat, second: Option<Card>): (r: Trick)
    requires CanMove(t, mover)
    ensures CanMove(r, mover) && HandOnly(t, r, mover)
    ensures !r.view.cardToBeat
    ensures second.Some? ==>
      && r.stack == t.stack + [second.value]
      && r.players[mover].hand == RemoveCards(t.players[mover].hand, [second.value])
    ensures second.None? ==>
      r.stack == [] && r.players[mover].hand == SortCards(t.players[mover].hand + t.stack)
  {
    var t1 := Adjust(t, false);
    AdjustHandOnly(t, false, mover);
    if second.Some? then
      var r := Play(t1, mover, second.value);
      HandOnlyTrans(t, t1, r, mover);
      r
    else
      var r := Pickup(t1, mover);
      HandOnlyTrans(t, t1, r, mover);
      r
  }

  /** Beating the top card with `b`: it goes on the stack and, if cards
      are left, the mover follows up with `second`; otherwise the stack is
      left for the next player to beat. */
  function Beat(t: Trick, mover: nat, b: Card, second: Option<Card>): (r: Trick)
    requires CanMove(t, mover)
    ensures CanMove(r, mover) && HandOnly(t, r, mover)
    ensures var left := RemoveCards(t.players[mover].hand, [b]);
      && (|left| == 0 ==> r.view.cardToBeat == t.view.cardToBeat && r.stack == t.stack + [b] && r.players[mover].hand == [])
      && (|left| > 0 && second.Some? ==>
            && !r.view.cardToBeat && r.stack == t.stack + [b] + [second.value]
            && r.players[mover].hand == RemoveCards(left, [second.value]))
      && (|left| > 0 && second.None? ==>
            && !r.view.cardToBeat && r.stack == []
            && r.players[mover].hand == SortCards(left + (t.stack + [b])))
  {
    var t1 := Play(t, mover, b);
    if |t1.players[mover].hand| > 0 then
      var r := Follow(t1, mover, second);
      HandOnlyTrans(t, t1, r, mover);
      r
    else t1
  }

  /** Answering a non-empty stack: a card is to be beaten; beat it, or, with
      no card to beat with, pick the stack up. */
  function Answer(t: Trick, mover: nat, beat: Option<Card>, second: Option<Card>): (r: Trick)
    requires CanMove(t, mover)
    ensures CanMove(r, mover) && HandOnly(t, r, mover)
    ensures beat.None? ==>
      && r.view.cardToBeat && r.stack == []
      && r.players[mover].hand == SortCards(t.players[mover].hand + t.stack)
    ensures beat.Some? ==>
      var left := RemoveCards(t.players[mover].hand, [beat.value]);
      && (|left| == 0 ==> r.view.cardToBeat && r.stack == t.stack + [beat.value] && r.players[mover].hand == [])
      && (|left| > 0 && second.Some? ==>
            && !r.view.cardToBeat && r.stack == t.stack + [beat.value] + [second.value]
            && r.players[mover].hand == RemoveCards(left, [second.value]))
      && (|left| > 0 && second.None? ==>
            && !r.view.cardToBeat && r.stack == []
            && r.players[mover].hand == SortCards(left + (t.stack + [beat.value])))
  {
    var t1 := Adjust(t, true);
    AdjustHandOnly(t, true, mover);
    if beat.None? then
      var r := Pickup(t1, mover);
      HandOnlyTrans(t, t1, r, mover);
      r
    else
      var r := Beat(t1, mover, beat.value, second);
      HandOnlyTrans(t, t1, r, mover);
      r
  }

  /** The body of one turn of `start_game`, before the elimination check. */
  function Turn(t: Trick, mover: nat, ch: Choice): (r: Trick)
    requires TrickOk(t) && mover < |t.players|
    ensures TrickOk(r) && HandOnly(t, r, mover)
  {
    var r := if |t.stack| == 0 then Open(t, mover, ch.first) else Answer(t, mover, ch.beat, ch.second);
    HandOnlyOk(t, r, mover);
    r
  }

  /** The strategy keeps to the rules: a first card is from the hand; a card
      to beat with is one `get_available_play_card` offers; a second card is
      from what is left of the hand. */
  predicate Admissible(t: Trick, mover: nat, ch: Choice)
    requires mover < |t.players|
  {
    var hand := t.players[mover].hand;
    if |t.stack| == 0 then ch.first in hand
    else
      match ch.beat
      case None => true
      case Some(b) =>
        && ScanTerminates(t.players, mover)
        && b in LegalCards(t.stack, t.players, mover)
        && (ch.second.Some? ==> ch.second.value in RemoveCards(hand, [b]))
  }

  /** Within a turn cards only move between the mover's hand and the stack. */
  lemma TurnConservesCards(t: Trick, mover: nat, ch: Choice)
    requires TrickOk(t) && mover < |t.players| && Admissible(t, mover, ch)
    ensures var r := Turn(t, mover, ch);
      AllHands(r.players) + multiset(r.stack) == AllHands(t.players) + multiset(t.stack)
  {
    if |t.stack| == 0 {
      PlayConservesCards(Adjust(t, false), mover, ch.first);
    } else {
      var t1 := Adjust(t, true);
      if ch.beat.None? {
        PickupConservesCards(t1, mover);
      } else {
        var b := ch.beat.value;
        assert b in t.players[mover].hand;
        var t2 := Play(t1, mover, b);
        PlayConservesCards(t1, mover, b);
        if |t2.players[mover].hand| > 0 {
          var t3 := Adjust(t2, false);
          if ch.second.Some? {
            PlayConservesCards(t3, mover, ch.second.value);
          } else {
            PickupConservesCards(t3, mover);
          }
        }
      }
    }
  }

  /** Picking up, at once or instead of a second card: the stack ends empty
      and the mover's hand is the sorted union of hand and stack. */
  lemma TurnPickup(t: Trick, mover: nat, ch: Choice)
    requires TrickOk(t) && mover < |t.players| && |t.stack| > 0
    ensures var r := Turn(t, mover, ch);
      var hand := t.players[mover].hand;
      && (ch.beat.None? ==> r.stack == [] && r.players[mover].hand == SortCards(hand + t.stack))
      && (ch.beat.Some? && ch.second.None? && |RemoveCards(hand, [ch.beat.value])| > 0 ==>
            && r.stack == []
            && r.players[mover].hand ==
                 SortCards(RemoveCards(hand, [ch.beat.value]) + (t.stack + [ch.beat.value])))
  {
    var t1 := Adjust(t, true);
    if ch.beat.None? {
      assert Turn(t, mover, ch) == Pickup(t1, mover);
    } else if ch.second.None? {
      var t2 := Play(t1, mover, ch.beat.value);
      if |t2.players[mover].hand| > 0 {
        assert Turn(t, mover, ch) == Follow(t2, mover, None) == Pickup(Adjust(t2, false), mover);
      }
    }
  }

  /** Playing instead of picking up. On an empty stack the first card is
      played and no card is left to beat. After a beat that empties the hand
      the beat card tops the stack and is still to be beaten; after a beat
      with cards left, the second card follows it and nothing is to be beaten. */
  lemma TurnPlays(t: Trick, mover: nat, ch: Choice)
    requires TrickOk(t) && mover < |t.players|
    ensures var r := Turn(t, mover, ch);
      var hand := t.players[mover].hand;
      && (|t.stack| == 0 ==>
            && r.stack == [ch.first] && !r.view.cardToBeat
            && r.players[mover].hand == RemoveCards(hand, [ch.first]))
      && (|t.stack| > 0 && ch.beat.Some? ==>
            var b := ch.beat.value;
            var left := RemoveCards(hand, [b]);
            && (|left| == 0 ==> r.stack == t.stack + [b] && r.view.cardToBeat && r.players[mover].hand == [])
            && (|left| > 0 && ch.second.Some? ==>
                  && r.stack == t.stack + [b] + [ch.second.value] && !r.view.cardToBeat
                  && r.players[mover].hand == RemoveCards(left, [ch.second.value])))
  {
    if |t.stack| == 0 {
      assert Turn(t, mover, ch) == Open(t, mover, ch.first);
    } else {
      assert Turn(t, mover, ch) == Answer(t, mover, ch.beat, ch.second);
    }
  }

  /** Member `i` of a doubly linked ring: its neighbours are members and
      `prev` and `next` undo each other at `i`. */
  predicate RingAt(ps: seq<Player>, members: set<nat>, i: nat)
    requires Linked(ps)
  {
    && i < |ps|
    && ps[i].next.value in members && ps[i].prev.value in members
    && ps[ps[i].next.value].prev == Some(i)
    && ps[ps[i].prev.value].next == Some(i)
  }

  /** The doubly linked ring over `members`. */
  predicate RingOver(ps: seq<Player>, members: set<nat>)
    requires Linked(ps)
  {
    forall i {:trigger RingAt(ps, members, i)} :: i in members ==> RingAt(ps, members, i)
  }

  /** The splice of the elimination: `prev.next = next`, then
      `next.prev = prev`, with the eliminated player's own references read
      before either write. */
  function Splice(ps: seq<Player>, mover: nat): (r: seq<Player>)
    requires Linked(ps) && mover < |ps|
    ensures Linked(r) && |r| == |ps|
    ensures forall j :: 0 <= j < |ps| ==> r[j] == ps[j].(next := r[j].next, prev := r[j].prev)
    ensures forall j :: 0 <= j < |ps| ==>
      r[j].next == (if j == ps[mover].prev.value then ps[mover].next else ps[j].next)
    ensures forall j :: 0 <= j < |ps| ==>
      r[j].prev == (if j == ps[mover].next.value then ps[mover].prev else ps[j].prev)
  {
    var p := ps[mover];
    var pv := p.prev.value;
    var nx := p.next.value;
    var ps1 := ps[pv := ps[pv].(next := p.next)];
    ps1[nx := ps1[nx].(prev := p.prev)]
  }

  /** Splicing a member out of a ring leaves a ring over the other members. */
  lemma SpliceKeepsRing(ps: seq<Player>, members: set<nat>, mover: nat)
    requires Linked(ps) && mover < |ps| && mover in members && RingOver(ps, members)
    ensures RingOver(Splice(ps, mover), members - {mover})
  {
    var r := Splice(ps, mover);
    var pv := ps[mover].prev.value;
    var nx := ps[mover].next.value;
    assert RingAt(ps, members, mover);
    var rest := members - {mover};
    forall i | i in rest ensures RingAt(r, rest, i) {
      assert RingAt(ps, members, i);
      var a := ps[i].next.value;
      var b := ps[i].prev.value;
      if i == pv {
        assert nx != mover;
        assert r[i].next.value == nx && r[nx].prev == Some(pv);
      } else {
        assert a != mover && a != nx;
        assert r[i].next.value == a && r[a].prev == Some(i);
      }
      if i == nx {
        assert pv != mover;
        assert r[i].prev.value == pv && r[pv].next == Some(nx);
      } else {
        assert b != mover && b != pv;
        assert r[i].prev.value == b && r[b].next == Some(i);
      }
    }
  }

  /** Removing an emptied player: the first cycle slot holding them is
      tombstoned, they are spliced out of the working ring, and the public
      state marks them inactive. */
  function Eliminate(t: Trick, mover: nat): (r: Trick)
    requires TrickOk(t) && mover < |t.players| && Some(mover) in t.cycle
    ensures TrickOk(r)
    ensures r.players == Splice(t.players, mover)
    ensures Remove(t.cycle, mover) == Success(r.cycle)
    ensures Count(r.cycle) == Count(t.cycle) - 1
    ensures r.stack == t.stack && r.cursor == t.cursor
    ensures r.view == RemovePlayer(t.view, t.players[mover].name)
  {
    var p := t.players[mover];
    var cyc := Remove(t.cycle, mover).value;
    assert forall k :: 0 <= k < |cyc| && cyc[k].Some? ==> cyc[k] == t.cycle[k];
    t.(players := Splice(t.players, mover), cycle := cyc, view := RemovePlayer(t.view, p.name))
  }

  /** The end-of-turn check: one player left loses and scores a point, none
      left is a tie, otherwise the trick goes on. */
  function Resolve(t: Trick): (o: Outcome)
    requires TrickOk(t)
    ensures TrickOk(o.t)
    ensures o.t.cycle == t.cycle && o.t.stack == t.stack && |o.t.players| == |t.players|
    ensures o.Continues? <==> Count(t.cycle) >= 2
    ensures o.Finished? && o.loser.None? <==> Count(t.cycle) == 0
    ensures o.Finished? && o.loser.Some? ==>
      && Count(t.cycle) == 1
      && Some(o.loser.value) in t.cycle
      && o.loser.value < |t.players|
      && o.t.players[o.loser.value].score == t.players[o.loser.value].score + 1
    ensures forall i :: 0 <= i < |t.players| && !(o.Finished? && o.loser == Some(i)) ==>
              o.t.players[i] == t.players[i]
    ensures forall i :: 0 <= i < |t.players| ==>
              o.t.players[i] == t.players[i].(score := o.t.players[i].score)
  {
    var live := Count(t.cycle);
    if live == 1 then
      var loser := Elements(t.cycle)[0];
      assert Some(loser) in t.cycle;
      var k :| 0 <= k < |t.cycle| && t.cycle[k] == Some(loser);
      var p := t.players[loser];
      Finished(t.(players := t.players[loser := p.(score := p.score + 1)]), Some(loser))
    else if live == 0 then Finished(t, None)
    else Continues(t)
  }

  /** The player whose turn comes next, if the iteration has not ended. */
  function Mover(t: Trick): (m: Option<nat>)
    requires TrickOk(t)
    ensures m.Some? ==> m.value < |t.players| && Some(m.value) in t.cycle
    ensures m.None? <==> Next(t.cycle, t.cursor).None?
    ensures m.Some? ==> Some(m.value) == t.cycle[Next(t.cycle, t.cursor).value.0]
  {
    match Next(t.cycle, t.cursor)
    case None => None
    case Some((k, _)) => Some(t.cycle[k].value)
  }

  /** The mover's turn, with the cycle's iteration moved past them. */
  function TurnOf(t: Trick, ch: Choice): (r: Trick)
    requires TrickOk(t) && Mover(t).Some?
    ensures TrickOk(r) && HandOnly(t.(cursor := r.cursor), r, Mover(t).value)
    ensures r.cursor == Next(t.cycle, t.cursor).value.1
    ensures r == Turn(t.(cursor := r.cursor), Mover(t).value, ch)
  {
    var cur := Next(t.cycle, t.cursor).value.1;
    Turn(t.(cursor := cur), Mover(t).value, ch)
  }

  /** The mover's turn followed by the check `if not player_turn.hand`:
      a player left without cards is eliminated. */
  function Played(t: Trick, ch: Choice): (r: Trick)
    requires TrickOk(t) && Mover(t).Some?
    ensures TrickOk(r) && |r.players| == |t.players|
  {
    var mover := Mover(t).value;
    var t1 := TurnOf(t, ch);
    if |t1.players[mover].hand| == 0 then Eliminate(t1, mover) else t1
  }

  /** One pass of the `for player_turn in self.player_cycle` loop of
      `start_game`: take the next player of the cycle, play their turn, remove
      them if their hand is empty, then check whether the trick is over. An
      iteration that has already ended finishes the trick with no loser. */
  function Step(t: Trick, ch: Choice): (o: Outcome)
    requires TrickOk(t)
    ensures TrickOk(o.t)
    ensures |o.t.players| == |t.players|
    ensures Mover(t).None? ==> o == Finished(t, None)
  {
    if Mover(t).None? then Finished(t, None) else Resolve(Played(t, ch))
  }

  /** Splicing changes links only, so the pooled hands stay the same. */
  lemma SpliceSameHands(ps: seq<Player>, mover: nat)
    requires Linked(ps) && mover < |ps|
    ensures AllHands(Splice(ps, mover)) == AllHands(ps)
  {
    var p := ps[mover];
    var pv := p.prev.value;
    var nx := p.next.value;
    var ps1 := ps[pv := ps[pv].(next := p.next)];
    AllHandsSameHand(ps, pv, ps[pv].(next := p.next));
    AllHandsSameHand(ps1, nx, ps1[nx].(prev := p.prev));
    assert Splice(ps, mover) == ps1[nx := ps1[nx].(prev := p.prev)];
  }

  /** Scoring changes no hand. */
  lemma ResolveSameHands(t: Trick)
    requires TrickOk(t)
    ensures AllHands(Resolve(t).t.players) == AllHands(t.players)
  {
    var o := Resolve(t);
    if o.Finished? && o.loser.Some? {
      var l := o.loser.value;
      assert o.t.players == t.players[l := o.t.players[l]];
      AllHandsSameHand(t.players, l, o.t.players[l]);
    } else {
      assert o.t.players == t.players;
    }
  }

  /** Across a whole step, cards only move between the mover's hand and the
      stack: hands and stack together hold the same cards, so the same
      number of cards. */
  lemma StepConservesCards(t: Trick, ch: Choice)
    requires TrickOk(t) && Mover(t).Some? && Admissible(t, Mover(t).value, ch)
    ensures var r := Step(t, ch).t;
      && AllHands(r.players) + multiset(r.stack) == AllHands(t.players) + multiset(t.stack)
      && |AllHands(r.players)| + |r.stack| == |AllHands(t.players)| + |t.stack|
  {
    var t2 := Played(t, ch);
    PlayedConservesCards(t, ch);
    ResolveSameHands(t2);
    assert Step(t, ch) == Resolve(t2);
    var r := Step(t, ch).t;
    assert |AllHands(r.players) + multiset(r.stack)| == |AllHands(r.players)| + |r.stack|;
    assert |AllHands(t.players) + multiset(t.stack)| == |AllHands(t.players)| + |t.stack|;
  }

  /** A turn moves cards between the mover's hand and the stack only, and
      an elimination moves none. */
  lemma PlayedConservesCards(t: Trick, ch: Choice)
    requires TrickOk(t) && Mover(t).Some? && Admissible(t, Mover(t).value, ch)
    ensures var r := Played(t, ch);
      AllHands(r.players) + multiset(r.stack) == AllHands(t.players) + multiset(t.stack)
  {
    var mover := Mover(t).value;
    var t0 := t.(cursor := Next(t.cycle, t.cursor).value.1);
    var t1 := TurnOf(t, ch);
    assert t1 == Turn(t0, mover, ch);
    TurnConservesCards(t0, mover, ch);
    if |t1.players[mover].hand| == 0 {
      SpliceSameHands(t1.players, mover);
      assert Played(t, ch) == Eliminate(t1, mover);
    }
  }

  /** A step that empties the mover's hand tombstones their cycle slot and
      splices them out of the ring, and the survivors still form a ring; a
      step that leaves them cards changes neither the cycle nor the ring. */
  lemma StepEliminates(t: Trick, ch: Choice, members: set<nat>)
    requires TrickOk(t) && Mover(t).Some?
    requires Mover(t).value in members && RingOver(t.players, members)
    ensures var mover := Mover(t).value;
      var r := Step(t, ch).t;
      if |TurnOf(t, ch).players[mover].hand| == 0 then
        && Remove(t.cycle, mover) == Success(r.cycle)
        && Count(r.cycle) == Count(t.cycle) - 1
        && RingOver(r.players, members - {mover})
      else
        && r.cycle == t.cycle
        && RingOver(r.players, members)
  {
    var mover := Mover(t).value;
    var t1 := TurnOf(t, ch);
    var t2 := Played(t, ch);
    var o := Resolve(t2);
    assert Step(t, ch) == o;
    assert HandOnly(t.(cursor := t1.cursor), t1, mover);
    LinksAfterTurn(t, t1, mover);
    RingSameLinks(t.players, t1.players, members);
    if |t1.players[mover].hand| == 0 {
      assert t2 == Eliminate(t1, mover);
      SpliceKeepsRing(t1.players, members, mover);
      LinksAfterResolve(t2);
      RingSameLinks(t2.players, o.t.players, members - {mover});
    } else {
      assert t2 == t1;
      LinksAfterResolve(t2);
      RingSameLinks(t1.players, o.t.players, members);
    }
  }

  lemma LinksAfterTurn(t: Trick, r: Trick, mover: nat)
    requires HandOnly(t.(cursor := r.cursor), r, mover)
    ensures forall i :: 0 <= i < |t.players| ==>
      r.players[i].next == t.players[i].next && r.players[i].prev == t.players[i].prev
  {
    forall i | 0 <= i < |t.players|
      ensures r.players[i].next == t.players[i].next && r.players[i].prev == t.players[i].prev
    {
      if i == mover {
        assert r.players[mover].(hand := t.players[mover].hand) == t.players[mover];
      }
    }
  }

  lemma LinksAfterResolve(t: Trick)
    requires TrickOk(t)
    ensures var r := Resolve(t).t;
      forall i :: 0 <= i < |t.players| ==>
        r.players[i].next == t.players[i].next && r.players[i].prev == t.players[i].prev
  {
    var r := Resolve(t).t;
    forall i | 0 <= i < |t.players|
      ensures r.players[i].next == t.players[i].next && r.players[i].prev == t.players[i].prev
    {
      assert r.players[i] == t.players[i].(score := r.players[i].score);
    }
  }

  /** The ring depends on the links only. */
  lemma RingSameLinks(ps: seq<Player>, qs: seq<Player>, members: set<nat>)
    requires Linked(ps) && |qs| == |ps|
    requires forall i :: 0 <= i < |ps| ==> qs[i].next == ps[i].next && qs[i].prev == ps[i].prev
    requires RingOver(ps, members)
    ensures Linked(qs) && RingOver(qs, members)
  {
    forall i | i in members ensures RingAt(qs, members, i) {
      assert RingAt(ps, members, i);
    }
  }

  /** The outcome's players are `ps` with one point added to the loser's
      score, if there is one, and every other score as it was. */
  predicate ScoredOnly(ps: seq<Player>, o: Outcome)
  {
    && |o.t.players| == |ps|
    && forall i :: 0 <= i < |ps| ==>
         o.t.players[i].score == ps[i].score + (if o.Finished? && o.loser == Some(i) then 1 else 0)
  }

  /** A step scores at most one point: a trick that ends with a loser gives
      them exactly one point, any other step leaves every score alone. */
  lemma StepScores(t: Trick, ch: Choice)
    requires TrickOk(t)
    ensures ScoredOnly(t.players, Step(t, ch))
  {
    if Mover(t).Some? {
      StepResolves(t, ch);
      PlayedScores(t, ch, Step(t, ch));
    }
  }

  /** The end-of-turn check after a turn scores only the loser, measured
      against the scores before the turn. */
  lemma PlayedScores(t: Trick, ch: Choice, o: Outcome)
    requires TrickOk(t) && Mover(t).Some? && o == Resolve(Played(t, ch))
    ensures ScoredOnly(t.players, o)
  {
    var t2 := Played(t, ch);
    PlayedKeepsScores(t, ch);
    ResolveAfterKeep(t.players, t2, o);
  }

  /** The end-of-turn check on players whose scores are those of `ps`
      scores only the loser, measured against `ps`. */
  lemma ResolveAfterKeep(ps: seq<Player>, t2: Trick, o: Outcome)
    requires TrickOk(t2) && o == Resolve(t2)
    requires |t2.players| == |ps| && forall i :: 0 <= i < |ps| ==> t2.players[i].score == ps[i].score
    ensures ScoredOnly(ps, o)
  {
    ResolveScores(t2);
    ScoredOnlyAfterKeep(ps, t2.players, o);
  }

  /** A step with a mover is the end-of-turn check after their turn. */
  lemma StepResolves(t: Trick, ch: Choice)
    requires TrickOk(t) && Mover(t).Some?
    ensures TrickOk(Played(t, ch)) && Step(t, ch) == Resolve(Played(t, ch))
  {
  }

  /** Scoring on top of players with unchanged scores is scoring the
      original players. */
  lemma ScoredOnlyAfterKeep(ps: seq<Player>, qs: seq<Player>, o: Outcome)
    requires |qs| == |ps| && forall i :: 0 <= i < |ps| ==> qs[i].score == ps[i].score
    requires ScoredOnly(qs, o)
    ensures ScoredOnly(ps, o)
  {
  }

  /** The end-of-turn check scores only the loser, by one point. */
  lemma ResolveScores(t: Trick)
    requires TrickOk(t)
    ensures ScoredOnly(t.players, Resolve(t))
  {
    var o := Resolve(t);
    forall i | 0 <= i < |t.players|
      ensures o.t.players[i].score == t.players[i].score + (if o.Finished? && o.loser == Some(i) then 1 else 0)
    {
      if !(o.Finished? && o.loser == Some(i)) {
        assert o.t.players[i] == t.players[i];
      }
    }
  }

  /** A turn and an elimination change no score. */
  lemma PlayedKeepsScores(t: Trick, ch: Choice)
    requires TrickOk(t) && Mover(t).Some?
    ensures forall i :: 0 <= i < |t.players| ==> Played(t, ch).players[i].score == t.players[i].score
  {
    var mover := Mover(t).value;
    var t1 := TurnOf(t, ch);
    assert HandOnly(t.(cursor := t1.cursor), t1, mover);
    forall i | 0 <= i < |t.players| ensures t1.players[i].score == t.players[i].score {
      if i == mover {
        assert t1.players[mover].(hand := t.players[mover].hand) == t.players[mover];
      }
    }
    if |t1.players[mover].hand| == 0 {
      var t2 := Eliminate(t1, mover);
      forall i | 0 <= i < |t.players| ensures t2.players[i].score == t1.players[i].score {
        assert t2.players[i] == t1.players[i].(next := t2.players[i].next, prev := t2.players[i].prev);
      }
    }
  }

  /** The seats of a table of `n`. */
  function Seats(n: nat): (s: set<nat>)
    ensures forall i: nat :: i in s <==> i < n
  {
    if n == 0 then {} else Seats(n - 1) + {n - 1}
  }

  /** The seating ring is a doubly linked ring over every seat. */
  lemma SeatingRingIsRing(ps: seq<Player>)
    requires SeatingRing(ps)
    ensures Linked(ps) && RingOver(ps, Seats(|ps|))
  {
    var n := |ps|;
    assert Linked(ps);
    forall i | i in Seats(n) ensures RingAt(ps, Seats(n), i) {
      var b := SeatBefore(i, n);
      var a := SeatAfter(i, n);
      assert ps[b].prev == Some(SeatAfter(b, n));
      assert ps[a].next == Some(SeatBefore(a, n));
    }
  }

  /** No two players share a name, so views and players correspond. */
  predicate DistinctNames(ps: seq<Player>)
  {
    forall i, j :: 0 <= i < j < |ps| ==> ps[i].name != ps[j].name
  }

  /** Every player has a view, and it mirrors their hand. */
  predicate MirrorsAll(t: Trick)
  {
    forall i :: 0 <= i < |t.players| ==>
      t.players[i].name in t.view.views && Mirrors(t.view.views[t.players[i].name], t.players[i].hand)
  }

  /** A change confined to the mover's hand and view keeps the views
      mirroring the hands when the mover's own view still does. */
  lemma MirrorsAfterHandChange(t: Trick, r: Trick, mover: nat)
    requires HandOnly(t.(cursor := r.cursor), r, mover)
    requires DistinctNames(t.players) && MirrorsAll(t)
    requires forall n :: n in t.view.views && n != t.players[mover].name ==>
      n in r.view.views && r.view.views[n] == t.view.views[n]
    requires Mirrors(r.view.views[t.players[mover].name], r.players[mover].hand)
    ensures DistinctNames(r.players) && MirrorsAll(r)
  {
    assert r.players[mover].name == t.players[mover].name by {
      assert r.players[mover].(hand := t.players[mover].hand) == t.players[mover];
    }
    forall i | 0 <= i < |r.players| ensures r.players[i].name == t.players[i].name {
    }
    forall i | 0 <= i < |r.players| && i != mover
      ensures Mirrors(r.view.views[r.players[i].name], r.players[i].hand)
    {
      assert r.players[i] == t.players[i];
      assert t.players[i].name != t.players[mover].name by {
        if i < mover { } else { }
      }
    }
  }

  lemma PlayMirrors(t: Trick, mover: nat, c: Card)
    requires CanMove(t, mover) && DistinctNames(t.players) && MirrorsAll(t)
    requires c in t.players[mover].hand
    ensures var r := Play(t, mover, c); DistinctNames(r.players) && MirrorsAll(r)
  {
    var p := t.players[mover];
    var r := Play(t, mover, c);
    PlayKeepsMirror(t.view, p.name, p.hand, c, t.stack + [c]);
    assert r.view == RemoveKnownCards(t.view, p.name, [c], t.stack + [c]);
    MirrorsAfterHandChange(t, r, mover);
  }

  lemma PickupMirrors(t: Trick, mover: nat)
    requires CanMove(t, mover) && DistinctNames(t.players) && MirrorsAll(t)
    ensures var r := Pickup(t, mover); DistinctNames(r.players) && MirrorsAll(r)
  {
    var p := t.players[mover];
    var r := Pickup(t, mover);
    PickupKeepsMirror(t.view, p.name, p.hand, t.stack);
    assert r.view == AddKnownCards(t.view, p.name, t.stack);
    MirrorsAfterHandChange(t, r, mover);
  }

  lemma AdjustMirrors(t: Trick, flag: bool)
    requires MirrorsAll(t)
    ensures MirrorsAll(Adjust(t, flag))
  {
  }

  /** With admissible choices a turn keeps every view mirroring its hand. */
  lemma TurnMirrors(t: Trick, mover: nat, ch: Choice)
    requires TrickOk(t) && mover < |t.players| && Admissible(t, mover, ch)
    requires DistinctNames(t.players) && MirrorsAll(t)
    ensures var r := Turn(t, mover, ch); DistinctNames(r.players) && MirrorsAll(r)
  {
    if |t.stack| == 0 {
      var t1 := Adjust(t, false);
      PlayMirrors(t1, mover, ch.first);
    } else {
      var t1 := Adjust(t, true);
      if ch.beat.None? {
        PickupMirrors(t1, mover);
      } else {
        var b := ch.beat.value;
        assert b in t.players[mover].hand;
        var t2 := Play(t1, mover, b);
        PlayMirrors(t1, mover, b);
        if |t2.players[mover].hand| > 0 {
          var t3 := Adjust(t2, false);
          AdjustMirrors(t2, false);
          if ch.second.Some? {
            PlayMirrors(t3, mover, ch.second.value);
          } else {
            PickupMirrors(t3, mover);
          }
        }
      }
    }
  }

  /** Eliminating a player touches no hand and no count. */
  lemma EliminateMirrors(t: Trick, mover: nat)
    requires TrickOk(t) && mover < |t.players| && Some(mover) in t.cycle
    requires DistinctNames(t.players) && MirrorsAll(t)
    ensures var r := Eliminate(t, mover); DistinctNames(r.players) && MirrorsAll(r)
  {
    var r := Eliminate(t, mover);
    assert r.view == RemovePlayer(t.view, t.players[mover].name);
    forall i | 0 <= i < |r.players|
      ensures r.players[i].name == t.players[i].name && r.players[i].hand == t.players[i].hand
    {
      assert r.players[i] == t.players[i].(next := r.players[i].next, prev := r.players[i].prev);
    }
  }

  /** Scoring touches no hand and no view. */
  lemma ResolveMirrors(t: Trick)
    requires TrickOk(t) && DistinctNames(t.players) && MirrorsAll(t)
    ensures var r := Resolve(t).t; DistinctNames(r.players) && MirrorsAll(r)
  {
    var r := Resolve(t).t;
    assert r.view == t.view;
    forall i | 0 <= i < |r.players|
      ensures r.players[i].name == t.players[i].name && r.players[i].hand == t.players[i].hand
    {
      assert r.players[i] == t.players[i].(score := r.players[i].score);
    }
  }

  /** The views keep mirroring the hands through a whole step. */
  lemma StepMirrors(t: Trick, ch: Choice)
    requires TrickOk(t) && Mover(t).Some? && Admissible(t, Mover(t).value, ch)
    requires DistinctNames(t.players) && MirrorsAll(t)
    ensures var r := Step(t, ch).t; DistinctNames(r.players) && MirrorsAll(r)
  {
    var mover := Mover(t).value;
    var t0 := t.(cursor := Next(t.cycle, t.cursor).value.1);
    var t1 := TurnOf(t, ch);
    TurnMirrors(t0, mover, ch);
    var t2 := Played(t, ch);
    if |t1.players[mover].hand| == 0 {
      EliminateMirrors(t1, mover);
    }
    ResolveMirrors(t2);
  }

  /** At the start of a trick with distinct names, the views mirror the
      hands exactly when every player holds the nine of their suit, as
      `share_nines` arranges. */
  lemma NewTrickMirrors(m: Match)
    requires Linked(m.players) && AllSuited(m.players) && DistinctNames(m.players)
    requires NewTrick(m).Success?
    ensures MirrorsAll(NewTrick(m).value) <==>
      forall i :: 0 <= i < |m.players| ==> Nine(m.players[i].suit.value) in m.players[i].hand
  {
    var t := NewTrick(m).value;
    assert t.view == NewGameState(m.players, [], false) && t.players == m.players;
    NewViewsMirror(m.players);
  }

  /** The views built at the start of a trick, player by player. */
  lemma NewViewsMirror(ps: seq<Player>)
    requires AllSuited(ps) && DistinctNames(ps)
    ensures var g := NewGameState(ps, [], false);
      forall i :: 0 <= i < |ps| ==>
        && ps[i].name in g.views
        && (Mirrors(g.views[ps[i].name], ps[i].hand) <==> Nine(ps[i].suit.value) in ps[i].hand)
  {
    var g := NewGameState(ps, [], false);
    forall i | 0 <= i < |ps|
      ensures ps[i].name in g.views && g.views[ps[i].name] == InitialView(ps[i])
    {
      assert LastOfName(ps, i);
    }
    forall i | 0 <= i < |ps|
      ensures Mirrors(g.views[ps[i].name], ps[i].hand) <==> Nine(ps[i].suit.value) in ps[i].hand
    {
      InitialViewMirrors(ps[i]);
    }
  }
}
