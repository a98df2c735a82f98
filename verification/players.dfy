/** Players and the arena that holds them. A player's neighbours are stored as
    ids into the arena rather than as object references, so splicing a player
    out of the ring is a rewrite of two ids. */
module Players {
  import opened Wrappers
  import opened Cards

  /** Who chooses this player's moves: the console or a bot strategy. */
  datatype PlayerKind = Human | Bot

  /** A participant. `next`/`prev` are the working neighbours, changed when a
      player is eliminated from a trick; `initNext`/`initPrev` are the seating
      neighbours they are restored from. */
  datatype Player = Player(
    name: string,
    kind: PlayerKind,
    score: int,
    hand: seq<Card>,
    suit: Option<Suit>,
    starting: bool,
    next: Option<nat>,
    prev: Option<nat>,
    initNext: Option<nat>,
    initPrev: Option<nat>)

  /** A fresh player: no score, no cards, no suit, no neighbours, not starting. */
  function NewPlayer(name: string, kind: PlayerKind): (p: Player)
    ensures p.name == name && p.kind == kind
    ensures p.score == 0 && p.hand == [] && p.suit == None && !p.starting
    ensures p.next == None && p.prev == None
  {
    Player(name, kind, 0, [], None, false, None, None, None, None)
  }

  /** `add_player_reference(prev, next)`: records both the working and the
      seating neighbours. */
  function AddPlayerReference(p: Player, prev: nat, next: nat): (r: Player)
    ensures r.prev == r.initPrev == Some(prev)
    ensures r.next == r.initNext == Some(next)
    ensures r.(prev := p.prev, next := p.next, initPrev := p.initPrev, initNext := p.initNext) == p
  {
    p.(prev := Some(prev), next := Some(next), initPrev := Some(prev), initNext := Some(next))
  }

  /** `reset_player_reference`: the working neighbours go back to the seating ones. */
  function ResetPlayerReference(p: Player): (r: Player)
    ensures r.next == p.initNext && r.prev == p.initPrev
    ensures r.(next := p.next, prev := p.prev) == p
  {
    p.(next := p.initNext, prev := p.initPrev)
  }

  /** `remove_all_cards`: the hand is emptied, nothing else changes. */
  function RemoveAllCards(p: Player): (r: Player)
    ensures r.hand == [] && r.(hand := p.hand) == p
  {
    p.(hand := [])
  }

  /** Every working neighbour is set and names a player of the arena. */
  predicate Linked(ps: seq<Player>)
  {
    forall i :: 0 <= i < |ps| ==>
      && ps[i].next.Some? && ps[i].next.value < |ps|
      && ps[i].prev.Some? && ps[i].prev.value < |ps|
  }

  /** The player reached from `cur` after `k` steps along `next`. */
  function Walk(ps: seq<Player>, cur: nat, k: nat): (r: nat)
    requires Linked(ps) && cur < |ps|
    ensures r < |ps|
    decreases k
  {
    if k == 0 then cur else Walk(ps, ps[cur].next.value, k - 1)
  }

  /** The cards held by all players together. */
  function AllHands(ps: seq<Player>): multiset<Card>
  {
    if |ps| == 0 then multiset{} else AllHands(ps[..|ps| - 1]) + multiset(ps[|ps| - 1].hand)
  }

  /** Replacing one player changes the pooled hands by exactly that player's
      old and new hand. */
  lemma {:induction false} AllHandsUpdate(ps: seq<Player>, i: nat, p: Player)
    requires i < |ps|
    ensures AllHands(ps[i := p]) + multiset(ps[i].hand) == AllHands(ps) + multiset(p.hand)
    decreases |ps|
  {
    var qs := ps[i := p];
    if i == |ps| - 1 {
      assert qs[..|qs| - 1] == ps[..|ps| - 1];
    } else {
      var init := ps[..|ps| - 1];
      AllHandsUpdate(init, i, p);
      assert qs[..|qs| - 1] == init[i := p];
      assert qs[|qs| - 1] == ps[|ps| - 1];
      assert AllHands(qs) == AllHands(init[i := p]) + multiset(ps[|ps| - 1].hand);
      assert AllHands(ps) == AllHands(init) + multiset(ps[|ps| - 1].hand);
      assert init[i] == ps[i];
      AddToBoth(AllHands(init[i := p]), AllHands(init), multiset(ps[i].hand), multiset(p.hand),
        multiset(ps[|ps| - 1].hand));
    }
  }

  /** Adding the same cards to both sides keeps two pools equal. */
  lemma AddToBoth(a: multiset<Card>, b: multiset<Card>, h: multiset<Card>, q: multiset<Card>, l: multiset<Card>)
    requires a + h == b + q
    ensures (a + l) + h == (b + l) + q
  {
    assert (a + l) + h == (a + h) + l;
  }

  /** Changing anything but hands leaves the pooled hands as they were. */
  lemma AllHandsSameHand(ps: seq<Player>, i: nat, p: Player)
    requires i < |ps| && p.hand == ps[i].hand
    ensures AllHands(ps[i := p]) == AllHands(ps)
  {
    AllHandsUpdate(ps, i, p);
    var m := multiset(p.hand);
    assert AllHands(ps[i := p]) == (AllHands(ps[i := p]) + m) - m;
    assert AllHands(ps) == (AllHands(ps) + m) - m;
  }

  /** Giving player `i` the hand `h`, when `h` plus what the rest of the
      table gains (`gained`) balances the old hand plus what it loses
      (`lost`), keeps the table's cards in balance too. */
  lemma AllHandsExchange(ps: seq<Player>, i: nat, h: seq<Card>, gained: multiset<Card>, lost: multiset<Card>)
    requires i < |ps|
    requires multiset(h) + gained == multiset(ps[i].hand) + lost
    ensures AllHands(ps[i := ps[i].(hand := h)]) + gained == AllHands(ps) + lost
  {
    var a' := AllHands(ps[i := ps[i].(hand := h)]);
    var a := AllHands(ps);
    var was := multiset(ps[i].hand);
    AllHandsUpdate(ps, i, ps[i].(hand := h));
    calc {
      a' + gained;
      ((a' + was) - was) + gained;
      ((a + multiset(h)) - was) + gained;
      (a + (multiset(h) + gained)) - was;
      (a + (was + lost)) - was;
      a + lost;
    }
  }
}
