/** `Vezimas`: the match. It owns the deck and the roster, seats the players
    in a ring, deals, assigns each player a suit, hands out the nines, finds
    the starting and the worst player and clears the table between tricks.
    The suit list, the nines and the queen of spades are parameters. */
module Vezimas {
  import opened Wrappers
  import opened Cards
  import opened Players
  import opened Hands
  import opened Decks

  datatype Match = Match(deck: Deck, playerCount: int, botCount: int, players: seq<Player>)

  datatype MatchError =
    | WrongNameCount(expected: int, got: int)
    | TooManyBots(expected: int, got: int)
    | StartingPlayerNotSet
    | NoPlayers

  /** Decimal digits of a natural number. */
  function NatToString(n: nat): (s: string)
    ensures |s| > 0
    decreases n
  {
    var d := ['0', '1', '2', '3', '4', '5', '6', '7', '8', '9'][n % 10];
    if n < 10 then [d] else NatToString(n / 10) + [d]
  }

  /** `f"Player {i}"` for `i in range(count)`. */
  function DefaultNames(count: int): (names: seq<string>)
    ensures |names| == if count < 0 then 0 else count
    ensures forall i :: 0 <= i < |names| ==> names[i] == "Player " + NatToString(i)
  {
    if count <= 0 then [] else DefaultNames(count - 1) + ["Player " + NatToString(count - 1)]
  }

  /** The roster the constructor builds: the `i`-th name, played by a human
      for the first `humans` seats and by a bot after them. */
  function Roster(names: seq<string>, humans: int): (ps: seq<Player>)
    ensures |ps| == |names|
    ensures forall i :: 0 <= i < |names| ==>
              ps[i] == NewPlayer(names[i], if i < humans then Human else Bot)
  {
    seq(|names|, i requires 0 <= i < |names| => NewPlayer(names[i], if i < humans then Human else Bot))
  }

  /** `Vezimas(deck, player_count, bot_count, bot_level, player_names)`.
      An empty name list counts as no list. The name count is checked before
      the bot count. */
  function NewMatch(deck: Deck, playerCount: int, botCount: int, names: Option<seq<string>>): (r: Result<Match, MatchError>)
    ensures r.Failure? <==>
      || (names.Some? && |names.value| > 0 && playerCount != |names.value|)
      || playerCount - botCount < 0
    ensures names.Some? && |names.value| > 0 && playerCount != |names.value| ==>
      r == Failure(WrongNameCount(playerCount, |names.value|))
    ensures r.Success? ==>
      var m := r.value;
      var given := names.Some? && |names.value| > 0;
      && m.deck == deck && m.playerCount == playerCount && m.botCount == botCount
      && |m.players| == (if playerCount < 0 then 0 else playerCount)
      && (forall i :: 0 <= i < |m.players| ==>
            && m.players[i].name == (if given then names.value[i] else DefaultNames(playerCount)[i])
            && m.players[i] == NewPlayer(m.players[i].name, if i < playerCount - botCount then Human else Bot))
  {
    if names.Some? && |names.value| > 0 && playerCount != |names.value| then
      Failure(WrongNameCount(playerCount, |names.value|))
    else if playerCount - botCount < 0 then
      Failure(TooManyBots(playerCount, botCount))
    else
      // `zip` stops at the shorter list; the seat list is never the shorter one.
      var nameList := if names.Some? && |names.value| > 0 then names.value else DefaultNames(playerCount);
      Success(Match(deck, playerCount, botCount, Roster(nameList, playerCount - botCount)))
  }

  /** The seat before `i` in a ring of `n`. */
  function SeatBefore(i: nat, n: nat): nat
    requires i < n
  {
    if i == 0 then n - 1 else i - 1
  }

  /** The seat after `i` in a ring of `n`. */
  function SeatAfter(i: nat, n: nat): nat
    requires i < n
  {
    if i + 1 >= n then 0 else i + 1
  }

  /** The seating ring `set_player_reference` builds: each player's `next`
      is the player before them in the roster (wrapping round) and `prev`
      the player after them. */
  predicate SeatingRing(ps: seq<Player>)
  {
    forall i :: 0 <= i < |ps| ==>
      ps[i].next == Some(SeatBefore(i, |ps|)) && ps[i].prev == Some(SeatAfter(i, |ps|))
  }

  /** `set_player_reference`: the two rotated copies of the roster give every
      player their neighbours, as working and as seating references. */
  function SetPlayerReference(m: Match): (r: Match)
    ensures |r.players| == |m.players| && SeatingRing(r.players) && Linked(r.players)
    ensures forall i :: 0 <= i < |m.players| ==>
              && r.players[i].initNext == r.players[i].next
              && r.players[i].initPrev == r.players[i].prev
              && r.players[i].(next := m.players[i].next, prev := m.players[i].prev,
                               initNext := m.players[i].initNext, initPrev := m.players[i].initPrev) == m.players[i]
    ensures r.deck == m.deck && r.playerCount == m.playerCount && r.botCount == m.botCount
  {
    var n := |m.players|;
    m.(players := seq(n, i requires 0 <= i < n =>
                        AddPlayerReference(m.players[i], SeatAfter(i, n), SeatBefore(i, n))))
  }

  /** In the seating ring `prev` undoes `next` and `next` undoes `prev`. */
  lemma SeatingRingInverse(ps: seq<Player>, i: nat)
    requires SeatingRing(ps) && i < |ps|
    ensures ps[ps[i].next.value].prev == Some(i)
    ensures ps[ps[i].prev.value].next == Some(i)
  {
  }

  /** `reset_player_reference` on every player. */
  function ResetPlayerReferences(m: Match): (r: Match)
    ensures |r.players| == |m.players|
    ensures forall i :: 0 <= i < |m.players| ==>
              r.players[i].next == m.players[i].initNext && r.players[i].prev == m.players[i].initPrev
              && r.players[i].(next := m.players[i].next, prev := m.players[i].prev) == m.players[i]
    ensures r.deck == m.deck && r.playerCount == m.playerCount && r.botCount == m.botCount
  {
    m.(players := seq(|m.players|, i requires 0 <= i < |m.players| => ResetPlayerReference(m.players[i])))
  }

  /** After a trick has spliced players out, resetting restores the seating ring. */
  lemma ResetRestoresSeating(m: Match, after: Match)
    requires SeatingRing(SetPlayerReference(m).players)
    requires |after.players| == |m.players|
    requires forall i :: 0 <= i < |m.players| ==>
               && after.players[i].initNext == SetPlayerReference(m).players[i].initNext
               && after.players[i].initPrev == SetPlayerReference(m).players[i].initPrev
    ensures SeatingRing(ResetPlayerReferences(after).players)
  {
  }

  /** The `k` cards popped off a deck whose first `top` cards remain of `s`:
      the last of them first. */
  function Popped(s: seq<Card>, top: nat, k: nat): (b: seq<Card>)
    requires k <= top <= |s|
    ensures |b| == k
  {
    seq(k, t requires 0 <= t < k => s[top - 1 - t])
  }

  lemma MulBounds(i: nat, n: nat, k: nat)
    requires i < n
    ensures i * k + k <= n * k
    ensures (i + 1) * k == i * k + k
  {
    assert (i + 1) * k <= n * k;
  }

  lemma DivMod(a: nat, n: nat)
    requires n > 0
    ensures a == n * (a / n) + a % n && n * (a / n) <= a
  {
  }

  /** Players `0 .. i-1` of `ps` are those of `ps0` with their share of `k`
      cards appended; the others are untouched. */
  predicate DealtUpTo(ps0: seq<Player>, ps: seq<Player>, s: seq<Card>, k: nat, i: nat)
  {
    && |ps| == |ps0| && i <= |ps|
    && (forall j :: 0 <= j < i ==>
          k <= |s| - j * k <= |s| &&
          ps[j] == ps0[j].(hand := ps0[j].hand + Popped(s, |s| - j * k, k)))
    && (forall j :: i <= j < |ps| ==> ps[j] == ps0[j])
  }

  lemma DealtStep(ps0: seq<Player>, ps: seq<Player>, s: seq<Card>, k: nat, i: nat, used: nat, cards: seq<Card>)
    requires DealtUpTo(ps0, ps, s, k, i) && i < |ps|
    requires used == i * k && used + k <= |s|
    requires cards == Popped(s, |s| - used, k)
    ensures DealtUpTo(ps0, ps[i := ps[i].(hand := AddCards(ps[i].hand, cards))], s, k, i + 1)
  {
  }

  /** One player's share: dealing `k` more from the deck that is `s` with
      `used` cards popped leaves `s` with `used + k` popped, and the share is
      the next `k` cards from the top. */
  lemma DealNext(s: seq<Card>, used: nat, k: nat, before: seq<Card>, after: seq<Card>, cards: seq<Card>)
    requires used + k <= |s| && before == s[..|s| - used]
    requires after == before[..|before| - k] && |cards| == k
    requires forall t :: 0 <= t < k ==> cards[t] == before[|before| - 1 - t]
    ensures after == s[..|s| - (used + k)]
    ensures cards == Popped(s, |s| - used, k)
  {
  }

  /** One pass of the dealing loop: player `i` gets the next `k` cards. */
  method GiveShare(ps0: seq<Player>, ps: seq<Player>, deck: Deck, s: seq<Card>, k: nat, i: nat, used: nat)
    returns (ps': seq<Player>, deck': Deck)
    requires DealtUpTo(ps0, ps, s, k, i) && i < |ps| && |ps| * k <= |s|
    requires used == i * k && deck.cards == s[..|s| - used]
    ensures used + k == (i + 1) * k && used + k <= |ps| * k
    ensures DealtUpTo(ps0, ps', s, k, i + 1)
    ensures deck'.cards == s[..|s| - (used + k)] && deck'.initial == deck.initial
  {
    MulBounds(i, |ps|, k);
    var dealt := Deal(deck, k);
    var (d', cards) := dealt.value;
    DealNext(s, used, k, deck.cards, d'.cards, cards);
    DealtStep(ps0, ps, s, k, i, used, cards);
    ps' := ps[i := ps[i].(hand := AddCards(ps[i].hand, cards))];
    deck' := d';
  }

  /** The dealing loop of `deal_cards`: each of the `n` players in roster
      order receives the next `k` cards popped off the deck `s`. */
  method DealRounds(ps0: seq<Player>, d: Deck, k: nat) returns (ps: seq<Player>, deck: Deck)
    requires |ps0| * k <= |d.cards|
    ensures DealtUpTo(ps0, ps, d.cards, k, |ps0|)
    ensures deck.cards == d.cards[..|d.cards| - |ps0| * k] && deck.initial == d.initial
  {
    var n := |ps0|;
    var s := d.cards;
    deck := d;
    ps := ps0;
    var i := 0;
    var used := 0;
    while i < n
      invariant 0 <= i <= n
      invariant used == i * k && used <= n * k
      invariant deck.initial == d.initial
      invariant deck.cards == s[..|s| - used]
      invariant DealtUpTo(ps0, ps, s, k, i)
    {
      ps, deck := GiveShare(ps0, ps, deck, s, k, i, used);
      used := used + k;
      i := i + 1;
    }
  }

  /** `deal_cards`: `len(deck) / player_count` cards per player (computed
      before shuffling), the deck shuffled to `shuffled` (any rearrangement
      of it), then each player in roster order receives the next `k` cards
      popped off the end. The remainder stays in the deck. A negative
      `player_count` comes with an empty roster: the share is computed and
      the deck shuffled, but nobody is dealt to. */
  method DealCards(m: Match, shuffled: seq<Card>) returns (r: Match)
    requires m.playerCount == |m.players| > 0 || (m.playerCount < 0 && m.players == [])
    requires multiset(shuffled) == multiset(m.deck.cards)
    ensures m.players == [] ==> r == m.(deck := Deck(shuffled, m.deck.initial))
    ensures m.players != [] ==>
      var n := |m.players|;
      var k := |m.deck.cards| / n;
      && |r.players| == n
      && r.deck.initial == m.deck.initial
      && |m.deck.cards| % n <= |shuffled| == |m.deck.cards|
      && r.deck.cards == shuffled[..|m.deck.cards| % n]
      && DealtUpTo(m.players, r.players, shuffled, k, n)
    ensures r.playerCount == m.playerCount && r.botCount == m.botCount
  {
    if m.players == [] {
      return m.(deck := Deck(shuffled, m.deck.initial));
    }
    var n := |m.players|;
    var k := |m.deck.cards| / n;
    assert |shuffled| == |m.deck.cards| by {
      assert |multiset(shuffled)| == |multiset(m.deck.cards)|;
    }
    DivMod(|m.deck.cards|, n);
    var players, deck := DealRounds(m.players, Deck(shuffled, m.deck.initial), k);
    r := m.(deck := deck, players := players);
  }

  /** The first player of the roster holding `card`. */
  function FirstHolding(ps: seq<Player>, card: Card): (r: Option<nat>)
    ensures r.Some? ==> r.value < |ps| && HasCard(ps[r.value].hand, card)
    ensures r.Some? ==> forall j :: 0 <= j < r.value ==> !HasCard(ps[j].hand, card)
    ensures r.None? ==> forall j :: 0 <= j < |ps| ==> !HasCard(ps[j].hand, card)
  {
    if |ps| == 0 then None
    else if HasCard(ps[0].hand, card) then Some(0)
    else match FirstHolding(ps[1..], card)
      case None => None
      case Some(k) => Some(k + 1)
  }

  /** The walk of `set_trumps` from `cur` handed out `rest[..s]` in `r`: the
      first `s` players along `next` are distinct, had no suit and now hold
      `rest[0]`, `rest[1]`, … in that order; the walk stopped there because
      the suits ran out or the next player along has a suit already (perhaps
      one it handed out itself); and nobody off the walk changed. */
  predicate SuitedAlong(ps: seq<Player>, cur: nat, rest: seq<Suit>, s: nat, r: seq<Player>)
    requires Linked(ps) && cur < |ps| && |r| == |ps|
  {
    && s <= |rest|
    && (forall t :: 0 <= t < s ==> ps[Walk(ps, cur, t)].suit.None? && r[Walk(ps, cur, t)].suit == Some(rest[t]))
    && (forall t, u :: 0 <= t < u < s ==> Walk(ps, cur, t) != Walk(ps, cur, u))
    && (s == |rest| || ps[Walk(ps, cur, s)].suit.Some? || OnWalk(ps, cur, s, Walk(ps, cur, s)))
    && (forall i :: 0 <= i < |ps| && r[i] != ps[i] ==> OnWalk(ps, cur, s, i))
  }

  /** Player `i` is among the first `n` along `next` from `cur`. */
  predicate OnWalk(ps: seq<Player>, cur: nat, n: nat, i: nat)
    requires Linked(ps) && cur < |ps|
  {
    exists t :: 0 <= t < n && Walk(ps, cur, t) == i
  }

  /** The inner loop of `set_trumps`: starting at `cur`, hand out the suits
      of `rest` one by one along `next`, stopping at the first player who
      already has a suit. Only suits change, and no suit is overwritten. */
  function AssignSuits(ps: seq<Player>, cur: nat, rest: seq<Suit>): (r: seq<Player>)
    requires Linked(ps) && cur < |ps|
    ensures |r| == |ps| && Linked(r)
    ensures forall i :: 0 <= i < |ps| ==> r[i] == ps[i].(suit := r[i].suit)
    ensures forall i :: 0 <= i < |ps| && ps[i].suit.Some? ==> r[i].suit == ps[i].suit
    ensures forall i :: 0 <= i < |ps| && r[i].suit != ps[i].suit ==> r[i].suit.Some? && r[i].suit.value in rest
    decreases |rest|
  {
    if |rest| == 0 || ps[cur].suit.Some? then ps
    else
      var ps' := ps[cur := ps[cur].(suit := Some(rest[0]))];
      var r := AssignSuits(ps', ps'[cur].next.value, rest[1..]);
      assert forall s :: s in rest[1..] ==> s in rest;
      r
  }

  /** In any ring, the walk of `AssignSuits` hands the suits out in order
      along `next` until they run out or it meets a player with a suit, and
      changes nobody else. */
  lemma {:induction false} AssignSuitsWalks(ps: seq<Player>, cur: nat, rest: seq<Suit>)
    requires Linked(ps) && cur < |ps|
    ensures exists s :: SuitedAlong(ps, cur, rest, s, AssignSuits(ps, cur, rest))
    decreases |rest|
  {
    if |rest| == 0 || ps[cur].suit.Some? {
      SuitedAlongStop(ps, cur, rest);
      assert AssignSuits(ps, cur, rest) == ps;
    } else {
      var ps' := ps[cur := ps[cur].(suit := Some(rest[0]))];
      assert Linked(ps');
      var r := AssignSuits(ps', ps'[cur].next.value, rest[1..]);
      assert AssignSuits(ps, cur, rest) == r;
      AssignSuitsWalks(ps', ps'[cur].next.value, rest[1..]);
      SuitedAlongStep(ps, cur, rest, r);
    }
  }

  /** A walk that stops at once hands out nothing. */
  lemma SuitedAlongStop(ps: seq<Player>, cur: nat, rest: seq<Suit>)
    requires Linked(ps) && cur < |ps| && (|rest| == 0 || ps[cur].suit.Some?)
    ensures SuitedAlong(ps, cur, rest, 0, ps)
  {
  }

  /** Changing anything but `next` does not change where a walk leads. */
  lemma {:induction false} WalkKeepsLinks(ps: seq<Player>, i: nat, p: Player, cur: nat, k: nat)
    requires Linked(ps) && i < |ps| && cur < |ps| && p.next == ps[i].next && p.prev == ps[i].prev
    ensures Linked(ps[i := p]) && Walk(ps[i := p], cur, k) == Walk(ps, cur, k)
    decreases k
  {
    assert Linked(ps[i := p]);
    if k > 0 {
      WalkKeepsLinks(ps, i, p, ps[cur].next.value, k - 1);
    }
  }

  /** One step of the walk: suiting `cur` and walking on from its `next`
      is walking from `cur` with one more suit handed out. */
  lemma SuitedAlongStep(ps: seq<Player>, cur: nat, rest: seq<Suit>, r: seq<Player>)
    requires Linked(ps) && cur < |ps| && |rest| > 0 && ps[cur].suit.None?
    requires var ps' := ps[cur := ps[cur].(suit := Some(rest[0]))];
      Linked(ps') && |r| == |ps| && exists s :: SuitedAlong(ps', ps[cur].next.value, rest[1..], s, r)
    ensures exists s :: SuitedAlong(ps, cur, rest, s, r)
  {
    var ps' := ps[cur := ps[cur].(suit := Some(rest[0]))];
    var nx := ps[cur].next.value;
    var s': nat :| SuitedAlong(ps', nx, rest[1..], s', r);
    forall k | 0 <= k ensures Walk(ps', nx, k) == Walk(ps, cur, k + 1) {
      WalkKeepsLinks(ps, cur, ps'[cur], nx, k);
    }
    SuitedAlongCur(ps, cur, rest, r, s');
    assert WalkOn(ps, cur, rest, r, s');
    SuitedAlongLater(ps, cur, rest, r, s');
    assert SuitedAlong(ps, cur, rest, s' + 1, r);
  }

  /** The walk's first player: `cur` gets `rest[0]` and is met again only
      where the walk stops. */
  lemma SuitedAlongCur(ps: seq<Player>, cur: nat, rest: seq<Suit>, r: seq<Player>, s': nat)
    requires Linked(ps) && cur < |ps| && |rest| > 0 && ps[cur].suit.None?
    requires var ps' := ps[cur := ps[cur].(suit := Some(rest[0]))];
      && Linked(ps') && |r| == |ps|
      && SuitedAlong(ps', ps[cur].next.value, rest[1..], s', r)
      && forall k :: 0 <= k ==> Walk(ps', ps[cur].next.value, k) == Walk(ps, cur, k + 1)
    ensures r[cur].suit == Some(rest[0])
    ensures forall u :: 1 <= u <= s' ==> Walk(ps, cur, u) != cur
  {
    var ps' := ps[cur := ps[cur].(suit := Some(rest[0]))];
    var nx := ps[cur].next.value;
    forall u | 1 <= u <= s' ensures Walk(ps, cur, u) != cur {
      assert Walk(ps', nx, u - 1) == Walk(ps, cur, u);
      assert ps'[Walk(ps', nx, u - 1)].suit.None?;
    }
    assert r[cur] == ps'[cur];
  }

  /** The walk after `cur`, read from `cur`: the facts both halves of the
      step need. */
  ghost predicate WalkOn(ps: seq<Player>, cur: nat, rest: seq<Suit>, r: seq<Player>, s': nat)
    requires Linked(ps) && cur < |ps| && |rest| > 0
  {
    var ps' := ps[cur := ps[cur].(suit := Some(rest[0]))];
    && Linked(ps') && |r| == |ps|
    && SuitedAlong(ps', ps[cur].next.value, rest[1..], s', r)
    && (forall k :: 0 <= k ==> Walk(ps', ps[cur].next.value, k) == Walk(ps, cur, k + 1))
    && r[cur].suit == Some(rest[0])
    && (forall u :: 1 <= u <= s' ==> Walk(ps, cur, u) != cur)
  }

  /** The rest of the walk carries over from the walk after `cur`. */
  lemma SuitedAlongLater(ps: seq<Player>, cur: nat, rest: seq<Suit>, r: seq<Player>, s': nat)
    requires Linked(ps) && cur < |ps| && |rest| > 0 && ps[cur].suit.None?
    requires WalkOn(ps, cur, rest, r, s')
    ensures SuitedAlong(ps, cur, rest, s' + 1, r)
  {
    LaterHanded(ps, cur, rest, r, s');
    LaterStops(ps, cur, rest, r, s');
    var ps' := ps[cur := ps[cur].(suit := Some(rest[0]))];
    LaterFrame(ps, ps', r, cur, ps[cur].next.value, s');
  }

  /** The players along the walk are distinct, had no suit and get theirs in order. */
  lemma LaterHanded(ps: seq<Player>, cur: nat, rest: seq<Suit>, r: seq<Player>, s': nat)
    requires Linked(ps) && cur < |ps| && |rest| > 0 && ps[cur].suit.None?
    requires WalkOn(ps, cur, rest, r, s')
    ensures |r| == |ps| && s' + 1 <= |rest|
    ensures forall t :: 0 <= t < s' + 1 ==> ps[Walk(ps, cur, t)].suit.None? && r[Walk(ps, cur, t)].suit == Some(rest[t])
    ensures forall t, u :: 0 <= t < u < s' + 1 ==> Walk(ps, cur, t) != Walk(ps, cur, u)
  {
    var ps' := ps[cur := ps[cur].(suit := Some(rest[0]))];
    var nx := ps[cur].next.value;
    forall t | 0 <= t < s' + 1
      ensures ps[Walk(ps, cur, t)].suit.None? && r[Walk(ps, cur, t)].suit == Some(rest[t])
    {
      if t > 0 {
        assert Walk(ps', nx, t - 1) == Walk(ps, cur, t);
      }
    }
    forall t, u | 0 <= t < u < s' + 1 ensures Walk(ps, cur, t) != Walk(ps, cur, u) {
      if t > 0 {
        assert Walk(ps', nx, t - 1) == Walk(ps, cur, t);
        assert Walk(ps', nx, u - 1) == Walk(ps, cur, u);
      }
    }
  }

  /** The walk from `cur` stops where the walk after it stopped. */
  lemma LaterStops(ps: seq<Player>, cur: nat, rest: seq<Suit>, r: seq<Player>, s': nat)
    requires Linked(ps) && cur < |ps| && |rest| > 0 && ps[cur].suit.None?
    requires WalkOn(ps, cur, rest, r, s')
    ensures || s' + 1 == |rest|
            || ps[Walk(ps, cur, s' + 1)].suit.Some?
            || OnWalk(ps, cur, s' + 1, Walk(ps, cur, s' + 1))
  {
    var ps' := ps[cur := ps[cur].(suit := Some(rest[0]))];
    var nx := ps[cur].next.value;
    var s := s' + 1;
    assert Walk(ps', nx, s') == Walk(ps, cur, s);
    if s' < |rest[1..]| && ps[Walk(ps, cur, s)].suit.None? {
      if Walk(ps, cur, s) == cur {
        assert Walk(ps, cur, 0) == Walk(ps, cur, s);
      } else {
        var t :| 0 <= t < s' && Walk(ps', nx, t) == Walk(ps', nx, s');
        assert Walk(ps', nx, t) == Walk(ps, cur, t + 1);
        assert 0 <= t + 1 < s && Walk(ps, cur, t + 1) == Walk(ps, cur, s);
      }
    }
  }

  /** Only players on the walk from `cur` changed: `qs` is `ps` except at
      `cur`, and the walk in `qs` from `nx` is the walk in `ps` from `cur`
      one step on. */
  lemma LaterFrame(ps: seq<Player>, qs: seq<Player>, r: seq<Player>, cur: nat, nx: nat, s': nat)
    requires Linked(ps) && Linked(qs) && cur < |ps| && nx < |qs| && |qs| == |ps| == |r|
    requires forall i :: 0 <= i < |ps| && i != cur ==> qs[i] == ps[i]
    requires forall i :: 0 <= i < |ps| && r[i] != qs[i] ==> OnWalk(qs, nx, s', i)
    requires forall k :: 0 <= k ==> Walk(qs, nx, k) == Walk(ps, cur, k + 1)
    ensures forall i :: 0 <= i < |ps| && r[i] != ps[i] ==> OnWalk(ps, cur, s' + 1, i)
  {
    forall i | 0 <= i < |ps| && r[i] != ps[i] ensures OnWalk(ps, cur, s' + 1, i) {
      if i == cur {
        assert Walk(ps, cur, 0) == i;
      } else {
        assert qs[i] == ps[i] && r[i] != qs[i];
        var t :| 0 <= t < s' && Walk(qs, nx, t) == i;
        assert Walk(qs, nx, t) == Walk(ps, cur, t + 1);
        assert Walk(ps, cur, t + 1) == i;
      }
    }
  }

  /** `set_trumps`: the first player holding the queen of spades gets the first
      suit and the starting flag and is returned; the following players along
      `next` get the remaining suits. With no holder nothing changes. */
  function SetTrumps(m: Match, suits: seq<Suit>, queen: Card): (r: (Match, Option<nat>))
    requires FirstHolding(m.players, queen).Some? ==> |suits| > 0 && Linked(m.players)
    ensures r.1 == FirstHolding(m.players, queen)
    ensures r.1.None? ==> r.0 == m
    ensures r.1.Some? ==>
      var h := r.1.value;
      var ps := r.0.players;
      && |ps| == |m.players|
      && ps[h].starting && ps[h].suit == Some(suits[0])
      && (forall i :: 0 <= i < |ps| && i != h ==> ps[i] == m.players[i].(suit := ps[i].suit))
      && ps[h] == m.players[h].(suit := ps[h].suit, starting := true)
      && (forall i :: 0 <= i < |ps| && i != h && m.players[i].suit.Some? ==> ps[i].suit == m.players[i].suit)
      && (forall i :: 0 <= i < |ps| && ps[i].suit != m.players[i].suit ==> ps[i].suit.Some? && ps[i].suit.value in suits)
    ensures r.0.deck == m.deck && r.0.playerCount == m.playerCount && r.0.botCount == m.botCount
  {
    match FirstHolding(m.players, queen)
    case None => (m, None)
    case Some(h) =>
      var ps1 := m.players[h := m.players[h].(suit := Some(suits[0]), starting := true)];
      HolderSuited(m.players, h, suits[0]);
      var ps := AssignSuits(ps1, m.players[h].next.value, suits[1..]);
      TrumpsFrame(m.players, h, suits, ps1, ps);
      (m.(players := ps), Some(h))
  }

  /** Suiting and flagging the holder keeps every link. */
  lemma HolderSuited(ps: seq<Player>, h: nat, suit: Suit)
    requires Linked(ps) && h < |ps|
    ensures var ps1 := ps[h := ps[h].(suit := Some(suit), starting := true)];
      Linked(ps1) && ps1[h].next == ps[h].next
  {
  }

  /** What the walk's contract says about the roster before the holder was
      suited. */
  lemma TrumpsFrame(ps0: seq<Player>, h: nat, suits: seq<Suit>, ps1: seq<Player>, ps: seq<Player>)
    requires h < |ps0| && |suits| > 0
    requires ps1 == ps0[h := ps0[h].(suit := Some(suits[0]), starting := true)]
    requires |ps| == |ps1|
    requires forall i :: 0 <= i < |ps1| ==> ps[i] == ps1[i].(suit := ps[i].suit)
    requires forall i :: 0 <= i < |ps1| && ps1[i].suit.Some? ==> ps[i].suit == ps1[i].suit
    requires forall i :: 0 <= i < |ps1| && ps[i].suit != ps1[i].suit ==> ps[i].suit.Some? && ps[i].suit.value in suits[1..]
    ensures |ps| == |ps0|
    ensures ps[h].starting && ps[h].suit == Some(suits[0])
    ensures forall i :: 0 <= i < |ps| && i != h ==> ps[i] == ps0[i].(suit := ps[i].suit)
    ensures ps[h] == ps0[h].(suit := ps[h].suit, starting := true)
    ensures forall i :: 0 <= i < |ps| && i != h && ps0[i].suit.Some? ==> ps[i].suit == ps0[i].suit
    ensures forall i :: 0 <= i < |ps| && ps[i].suit != ps0[i].suit ==> ps[i].suit.Some? && ps[i].suit.value in suits
  {
    assert forall s :: s in suits[1..] ==> s in suits;
    assert ps[h] == ps1[h].(suit := ps[h].suit);
  }

  /** In any ring, `set_trumps` walks on from the queen's holder, who now
      has the first suit: the players along `next` receive the remaining
      suits in order until they run out or the walk meets a player with a
      suit, the holder included. Nobody else changes. */
  lemma SetTrumpsWalks(m: Match, suits: seq<Suit>, queen: Card)
    requires FirstHolding(m.players, queen).Some? ==> |suits| > 0 && Linked(m.players)
    ensures var (r, h) := SetTrumps(m, suits, queen);
      h.Some? ==>
        var ps1 := m.players[h.value := m.players[h.value].(suit := Some(suits[0]), starting := true)];
        && Linked(ps1) && |r.players| == |ps1|
        && exists s :: SuitedAlong(ps1, m.players[h.value].next.value, suits[1..], s, r.players)
  {
    if FirstHolding(m.players, queen).Some? {
      var h := FirstHolding(m.players, queen).value;
      var ps1 := m.players[h := m.players[h].(suit := Some(suits[0]), starting := true)];
      assert Linked(ps1);
      AssignSuitsWalks(ps1, ps1[h].next.value, suits[1..]);
    }
  }

  /** Seat `k` places before seat `h` in a ring of `n`. */
  function SeatsBack(h: nat, k: nat, n: nat): (i: nat)
    requires h < n && k <= n
  {
    if k <= h then h - k else h + n - k
  }

  /** How many places before seat `h` seat `i` is, in a ring of `n`. */
  function Distance(h: nat, i: nat, n: nat): (k: nat)
    requires h < n && i < n
    ensures k < n && SeatsBack(h, k, n) == i
  {
    if i <= h then h - i else h + n - i
  }

  /** One more step along `next` in the seating ring is one more seat back. */
  lemma StepBack(h: nat, k: nat, n: nat)
    requires h < n && k < n
    ensures SeatBefore(SeatsBack(h, k, n), n) == SeatsBack(h, k + 1, n)
  {
  }

  /** After `j` steps of the suit walk in the seating ring: the seat `t`
      places back from `h` holds `suits[t]` for `t < j`; no other seat has a
      suit. */
  predicate SuitedUpTo(ps: seq<Player>, h: nat, j: nat, suits: seq<Suit>)
    requires j <= |suits| && h < |ps|
  {
    forall i {:trigger SuitAt(ps, h, j, suits, i)} :: 0 <= i < |ps| ==> SuitAt(ps, h, j, suits, i)
  }

  /** Seat `i` holds the suit the walk gives it after `j` steps. */
  predicate SuitAt(ps: seq<Player>, h: nat, j: nat, suits: seq<Suit>, i: nat)
    requires j <= |suits| && h < |ps| && i < |ps|
  {
    ps[i].suit == (if Distance(h, i, |ps|) < j then Some(suits[Distance(h, i, |ps|)]) else None)
  }

  /** Changing anything but the neighbours keeps the seating ring. */
  lemma SeatingRingKeepsLinks(ps: seq<Player>, i: nat, p: Player)
    requires SeatingRing(ps) && i < |ps|
    requires p.next == ps[i].next && p.prev == ps[i].prev
    ensures SeatingRing(ps[i := p])
  {
  }

  /** One step of the suit walk in the seating ring. */
  lemma SuitStep(ps: seq<Player>, h: nat, j: nat, suits: seq<Suit>)
    requires h < |ps| && j < |ps| && j < |suits|
    requires SuitedUpTo(ps, h, j, suits)
    ensures ps[SeatsBack(h, j, |ps|)].suit.None?
    ensures SuitedUpTo(ps[SeatsBack(h, j, |ps|) := ps[SeatsBack(h, j, |ps|)].(suit := Some(suits[j]))], h, j + 1, suits)
  {
    var n := |ps|;
    var cur := SeatsBack(h, j, n);
    var ps' := ps[cur := ps[cur].(suit := Some(suits[j]))];
    assert Distance(h, cur, n) == j;
    assert SuitAt(ps, h, j, suits, cur);
    var j1 := j + 1;
    forall i | 0 <= i < n ensures SuitAt(ps', h, j1, suits, i) {
      assert SuitAt(ps, h, j, suits, i);
      if i != cur {
        assert Distance(h, i, n) != j;
      }
    }
  }

  lemma {:induction false} AssignSuitsInRing(ps: seq<Player>, h: nat, j: nat, suits: seq<Suit>)
    requires SeatingRing(ps) && h < |ps|
    requires 1 <= j <= |suits| && j <= |ps|
    requires SuitedUpTo(ps, h, j, suits)
    ensures Linked(ps)
    ensures var n := |ps|;
      var bound := if n < |suits| then n else |suits|;
      SuitedUpTo(AssignSuits(ps, SeatsBack(h, j, n), suits[j..]), h, bound, suits)
    decreases |suits| - j
  {
    var n := |ps|;
    var cur := SeatsBack(h, j, n);
    assert Linked(ps);
    if j == n || j == |suits| {
      AssignSuitsDone(ps, h, j, suits);
    } else {
      var ps' := ps[cur := ps[cur].(suit := Some(suits[j]))];
      AssignSuitsStep(ps, h, j, suits);
      AssignSuitsInRing(ps', h, j + 1, suits);
    }
  }

  /** One step of the suit walk in the seating ring, as the induction needs
      it: the ring and the walk's progress carry over to the next seat. */
  lemma AssignSuitsStep(ps: seq<Player>, h: nat, j: nat, suits: seq<Suit>)
    requires SeatingRing(ps) && h < |ps|
    requires 1 <= j < |suits| && j < |ps|
    requires SuitedUpTo(ps, h, j, suits)
    ensures Linked(ps)
    ensures var cur := SeatsBack(h, j, |ps|);
      var ps' := ps[cur := ps[cur].(suit := Some(suits[j]))];
      && |ps'| == |ps| && SeatingRing(ps') && SuitedUpTo(ps', h, j + 1, suits)
      && AssignSuits(ps, cur, suits[j..]) == AssignSuits(ps', SeatsBack(h, j + 1, |ps'|), suits[j + 1..])
  {
    var cur := SeatsBack(h, j, |ps|);
    SuitStep(ps, h, j, suits);
    AssignSuitsUnfold(ps, h, j, suits);
    SeatingRingKeepsLinks(ps, cur, ps[cur].(suit := Some(suits[j])));
  }

  /** The suit walk ends once it is back at the queen's holder or out of
      suits, changing nothing more. */
  lemma AssignSuitsDone(ps: seq<Player>, h: nat, j: nat, suits: seq<Suit>)
    requires SeatingRing(ps) && h < |ps|
    requires 1 <= j <= |suits| && j <= |ps| && (j == |ps| || j == |suits|)
    requires SuitedUpTo(ps, h, j, suits)
    ensures Linked(ps)
    ensures AssignSuits(ps, SeatsBack(h, j, |ps|), suits[j..]) == ps
  {
    var n := |ps|;
    assert Linked(ps);
    if j == n {
      assert SeatsBack(h, j, n) == h;
      assert Distance(h, h, n) == 0;
      assert SuitAt(ps, h, j, suits, h);
    }
  }

  /** One step of `AssignSuits` in the seating ring. */
  lemma AssignSuitsUnfold(ps: seq<Player>, h: nat, j: nat, suits: seq<Suit>)
    requires SeatingRing(ps) && h < |ps| && j < |ps| && j < |suits|
    requires ps[SeatsBack(h, j, |ps|)].suit.None?
    ensures Linked(ps)
    ensures var cur := SeatsBack(h, j, |ps|);
      var ps' := ps[cur := ps[cur].(suit := Some(suits[j]))];
      Linked(ps') &&
      AssignSuits(ps, cur, suits[j..]) == AssignSuits(ps', SeatsBack(h, j + 1, |ps|), suits[j + 1..])
  {
    assert Linked(ps);
    var n := |ps|;
    var cur := SeatsBack(h, j, n);
    var ps' := ps[cur := ps[cur].(suit := Some(suits[j]))];
    StepBack(h, j, n);
    assert ps'[cur].next.value == SeatsBack(h, j + 1, n);
    assert suits[j..][1..] == suits[j + 1..];
  }

  /** In the seating ring, with nobody holding a suit yet, `set_trumps` gives
      the player `t` places back from the queen's holder the `t`-th suit, for
      as many players or suits as there are, and nobody else a suit; with no
      more players than suits, every player gets a suit. */
  lemma SetTrumpsInSeatingRing(m: Match, suits: seq<Suit>, queen: Card)
    requires SeatingRing(m.players)
    requires forall i :: 0 <= i < |m.players| ==> m.players[i].suit.None?
    requires FirstHolding(m.players, queen).Some? && |suits| > 0
    ensures Linked(m.players)
    ensures var (r, h) := SetTrumps(m, suits, queen);
      var n := |m.players|;
      && (forall t :: 0 <= t < n && t < |suits| ==> r.players[SeatsBack(h.value, t, n)].suit == Some(suits[t]))
      && (forall i :: 0 <= i < n ==> (r.players[i].suit.Some? <==> Distance(h.value, i, n) < |suits|))
  {
    var n := |m.players|;
    var h := FirstHolding(m.players, queen).value;
    var ps1 := m.players[h := m.players[h].(suit := Some(suits[0]), starting := true)];
    TrumpsWalkStart(m.players, h, suits);
    AssignSuitsInRing(ps1, h, 1, suits);
    var bound := if n < |suits| then n else |suits|;
    var r := SetTrumps(m, suits, queen).0;
    SetTrumpsUnfold(m, suits, queen);
    SuitedUpToReadOff(r.players, h, bound, suits);
  }

  /** `set_trumps` with a holder is the walk from the holder's `next`. */
  lemma SetTrumpsUnfold(m: Match, suits: seq<Suit>, queen: Card)
    requires FirstHolding(m.players, queen).Some? && |suits| > 0 && Linked(m.players)
    ensures var h := FirstHolding(m.players, queen).value;
      var ps1 := m.players[h := m.players[h].(suit := Some(suits[0]), starting := true)];
      Linked(ps1) && SetTrumps(m, suits, queen).0.players == AssignSuits(ps1, m.players[h].next.value, suits[1..])
  {
    var h := FirstHolding(m.players, queen).value;
    HolderSuited(m.players, h, suits[0]);
  }

  /** The suit walk starts with the queen's holder suited and flagged: the
      ring is intact, one suit is handed out, and the walk moves one seat back. */
  lemma TrumpsWalkStart(ps: seq<Player>, h: nat, suits: seq<Suit>)
    requires SeatingRing(ps) && h < |ps| && |suits| > 0
    requires forall i :: 0 <= i < |ps| ==> ps[i].suit.None?
    ensures var ps1 := ps[h := ps[h].(suit := Some(suits[0]), starting := true)];
      && SeatingRing(ps1) && Linked(ps1) && SuitedUpTo(ps1, h, 1, suits)
      && ps1[h].next.value == SeatsBack(h, 1, |ps|)
  {
    var n := |ps|;
    var ps1 := ps[h := ps[h].(suit := Some(suits[0]), starting := true)];
    assert SeatingRing(ps1);
    assert Linked(ps1);
    assert Distance(h, h, n) == 0;
    forall i | 0 <= i < n ensures SuitAt(ps1, h, 1, suits, i) {
      if i != h {
        assert Distance(h, i, n) != 0;
      }
    }
    StepBack(h, 0, n);
  }

  /** A finished suit walk read off seat by seat. */
  lemma SuitedUpToReadOff(ps: seq<Player>, h: nat, bound: nat, suits: seq<Suit>)
    requires h < |ps| && bound == (if |ps| < |suits| then |ps| else |suits|)
    requires SuitedUpTo(ps, h, bound, suits)
    ensures forall t :: 0 <= t < |ps| && t < |suits| ==> ps[SeatsBack(h, t, |ps|)].suit == Some(suits[t])
    ensures forall i :: 0 <= i < |ps| ==> (ps[i].suit.Some? <==> Distance(h, i, |ps|) < |suits|)
  {
    var n := |ps|;
    forall t | 0 <= t < n && t < |suits|
      ensures ps[SeatsBack(h, t, n)].suit == Some(suits[t])
    {
      assert Distance(h, SeatsBack(h, t, n), n) == t;
      assert SuitAt(ps, h, bound, suits, SeatsBack(h, t, n));
    }
    forall i | 0 <= i < n
      ensures ps[i].suit.Some? <==> Distance(h, i, n) < |suits|
    {
      assert SuitAt(ps, h, bound, suits, i);
    }
  }

  /** `share_nines`: every player gives up the nines they were dealt and
      receives the nine of their own suit. */
  function ShareNines(m: Match, nines: seq<Card>): (r: Match)
    requires forall i :: 0 <= i < |m.players| ==> m.players[i].suit.Some?
    ensures |r.players| == |m.players|
    ensures forall i :: 0 <= i < |m.players| ==>
              var p := m.players[i];
              && multiset(r.players[i].hand) == multiset(p.hand) - multiset(nines) + multiset{Nine(p.suit.value)}
              && r.players[i].hand[|r.players[i].hand| - 1] == Nine(p.suit.value)
              && r.players[i] == p.(hand := r.players[i].hand)
    ensures r.deck == m.deck && r.playerCount == m.playerCount && r.botCount == m.botCount
  {
    m.(players := seq(|m.players|, i requires 0 <= i < |m.players| => ShareNine(m.players[i], nines)))
  }

  /** One player's part of `share_nines`. */
  function ShareNine(p: Player, nines: seq<Card>): (q: Player)
    requires p.suit.Some?
    ensures multiset(q.hand) == multiset(p.hand) - multiset(nines) + multiset{Nine(p.suit.value)}
    ensures |q.hand| > 0 && q.hand[|q.hand| - 1] == Nine(p.suit.value)
    ensures q == p.(hand := q.hand)
  {
    var kept := RemoveCards(p.hand, nines);
    var hand := AddCards(kept, [Nine(p.suit.value)]);
    assert multiset(hand) == multiset(kept) + multiset{Nine(p.suit.value)};
    p.(hand := hand)
  }

  /** With hands free of duplicate cards, after `share_nines` every player
      holds the nine of their own suit and no other of the listed nines. */
  lemma ShareNinesOwnNineOnly(m: Match, nines: seq<Card>)
    requires forall i :: 0 <= i < |m.players| ==> m.players[i].suit.Some?
    requires forall i, c :: 0 <= i < |m.players| ==> multiset(m.players[i].hand)[c] <= 1
    ensures var r := ShareNines(m, nines);
      forall i :: 0 <= i < |m.players| ==>
        && Nine(m.players[i].suit.value) in r.players[i].hand
        && forall c :: c in nines && c != Nine(m.players[i].suit.value) ==> c !in r.players[i].hand
  {
    var r := ShareNines(m, nines);
    forall i | 0 <= i < |m.players|
      ensures Nine(m.players[i].suit.value) in r.players[i].hand
      ensures forall c :: c in nines && c != Nine(m.players[i].suit.value) ==> c !in r.players[i].hand
    {
      var h := r.players[i].hand;
      assert h[|h| - 1] in h;
      forall c | c in nines && c != Nine(m.players[i].suit.value) ensures c !in h {
        assert multiset(nines)[c] >= 1;
        assert multiset(h)[c] == 0;
      }
    }
  }

  /** `remove_starting_player_flags`. */
  function RemoveStartingPlayerFlags(m: Match): (r: Match)
    ensures |r.players| == |m.players|
    ensures forall i :: 0 <= i < |m.players| ==> r.players[i] == m.players[i].(starting := false)
    ensures r.deck == m.deck && r.playerCount == m.playerCount && r.botCount == m.botCount
  {
    m.(players := seq(|m.players|, i requires 0 <= i < |m.players| => m.players[i].(starting := false)))
  }

  /** `get_starting_player`: the first player of the roster whose starting
      flag is set; an error when nobody's is. */
  function GetStartingPlayer(ps: seq<Player>): (r: Result<nat, MatchError>)
    ensures r.Failure? <==> forall i :: 0 <= i < |ps| ==> !ps[i].starting
    ensures r.Failure? ==> r.error == StartingPlayerNotSet
    ensures r.Success? ==> r.value < |ps| && ps[r.value].starting
    ensures r.Success? ==> forall j :: 0 <= j < r.value ==> !ps[j].starting
  {
    if |ps| == 0 then Failure(StartingPlayerNotSet)
    else if ps[0].starting then Success(0)
    else match GetStartingPlayer(ps[1..])
      case Failure(e) => Failure(e)
      case Success(k) => Success(k + 1)
  }

  /** After a successful `set_trumps` the starting player is found, and it is
      the returned one when no flag was set before. */
  lemma StartingPlayerAfterTrumps(m: Match, suits: seq<Suit>, queen: Card)
    requires FirstHolding(m.players, queen).Some? ==> |suits| > 0 && Linked(m.players)
    requires forall i :: 0 <= i < |m.players| ==> !m.players[i].starting
    ensures var (r, h) := SetTrumps(m, suits, queen);
      h.Some? ==> GetStartingPlayer(r.players) == Success(h.value)
  {
    var (r, h) := SetTrumps(m, suits, queen);
    if h.Some? {
      var g := GetStartingPlayer(r.players);
      assert r.players[h.value].starting;
      assert forall i :: 0 <= i < |r.players| && i != h.value ==> !r.players[i].starting;
    }
  }

  /** A freshly built and seated roster is what the suit walk starts from:
      the seating ring, nobody with a suit and nobody flagged as starting. */
  lemma NewMatchSeated(deck: Deck, playerCount: int, botCount: int, names: Option<seq<string>>)
    ensures var r := NewMatch(deck, playerCount, botCount, names);
      r.Success? ==>
        var ps := SetPlayerReference(r.value).players;
        && SeatingRing(ps) && Linked(ps)
        && (forall i :: 0 <= i < |ps| ==> ps[i].suit.None? && !ps[i].starting && ps[i].hand == [])
  {
    var r := NewMatch(deck, playerCount, botCount, names);
    if r.Success? {
      var ps := SetPlayerReference(r.value).players;
      forall i | 0 <= i < |ps| ensures ps[i].suit.None? && !ps[i].starting && ps[i].hand == [] {
        var p := r.value.players[i];
        assert p == NewPlayer(p.name, if i < playerCount - botCount then Human else Bot);
      }
    }
  }

  /** With the flags cleared no starting player is found, and `set_trumps`
      then makes the queen's holder the one `get_starting_player` finds. */
  lemma ClearedFlagsThenTrumps(m: Match, suits: seq<Suit>, queen: Card)
    requires FirstHolding(m.players, queen).Some? ==> |suits| > 0 && Linked(m.players)
    ensures GetStartingPlayer(RemoveStartingPlayerFlags(m).players) == Failure(StartingPlayerNotSet)
    ensures var c := RemoveStartingPlayerFlags(m);
      FirstHolding(c.players, queen) == FirstHolding(m.players, queen)
      && (FirstHolding(m.players, queen).Some? ==>
            GetStartingPlayer(SetTrumps(c, suits, queen).0.players) == Success(FirstHolding(m.players, queen).value))
  {
    var c := RemoveStartingPlayerFlags(m);
    assert forall i :: 0 <= i < |c.players| ==> c.players[i].hand == m.players[i].hand;
    assert FirstHolding(c.players, queen) == FirstHolding(m.players, queen) by {
      SameHandsSameHolder(c.players, m.players, queen);
    }
    if FirstHolding(m.players, queen).Some? {
      assert Linked(c.players);
      StartingPlayerAfterTrumps(c, suits, queen);
    }
  }

  /** Who holds a card depends on the hands only. */
  lemma {:induction false} SameHandsSameHolder(ps: seq<Player>, qs: seq<Player>, card: Card)
    requires |ps| == |qs| && forall i :: 0 <= i < |ps| ==> ps[i].hand == qs[i].hand
    ensures FirstHolding(ps, card) == FirstHolding(qs, card)
    decreases |ps|
  {
    if |ps| > 0 {
      SameHandsSameHolder(ps[1..], qs[1..], card);
    }
  }

  /** `check_worst_player`: `max` by score, which keeps the first of equal
      maxima; an empty roster is an error. */
  method CheckWorstPlayer(ps: seq<Player>) returns (r: Result<nat, MatchError>)
    ensures r.Failure? <==> |ps| == 0
    ensures r.Success? ==> r.value < |ps|
    ensures r.Success? ==> forall j :: 0 <= j < |ps| ==> ps[j].score <= ps[r.value].score
    ensures r.Success? ==> forall j :: 0 <= j < r.value ==> ps[j].score < ps[r.value].score
  {
    if |ps| == 0 {
      return Failure(NoPlayers);
    }
    var best := 0;
    var i := 1;
    while i < |ps|
      invariant best < i <= |ps|
      invariant forall j :: 0 <= j < i ==> ps[j].score <= ps[best].score
      invariant forall j :: 0 <= j < best ==> ps[j].score < ps[best].score
    {
      if ps[i].score > ps[best].score {
        best := i;
      }
      i := i + 1;
    }
    return Success(best);
  }

  /** `reset_cards`: every hand emptied and the deck restored; nothing else changes. */
  function ResetCards(m: Match): (r: Match)
    ensures |r.players| == |m.players|
    ensures forall i :: 0 <= i < |m.players| ==> r.players[i] == RemoveAllCards(m.players[i])
    ensures r.deck.cards == m.deck.initial && r.deck.initial == m.deck.initial
    ensures r.playerCount == m.playerCount && r.botCount == m.botCount
  {
    m.(players := seq(|m.players|, i requires 0 <= i < |m.players| => RemoveAllCards(m.players[i])),
       deck := ResetDeck(m.deck))
  }

  /** Clearing the table and dealing again: each player holds
      `len(initial deck) / player_count` cards and the deck keeps the
      remainder. */
  method ResetThenDeal(m: Match, shuffled: seq<Card>) returns (r: Match)
    requires m.playerCount == |m.players| > 0 || (m.playerCount < 0 && m.players == [])
    requires multiset(shuffled) == multiset(m.deck.initial)
    ensures |r.players| == |m.players|
    ensures forall i :: 0 <= i < |r.players| ==> |r.players[i].hand| == |m.deck.initial| / |m.players|
    ensures m.players != [] ==> |r.deck.cards| == |m.deck.initial| % |m.players|
    ensures m.players == [] ==> r.deck.cards == shuffled
  {
    var cleared := ResetCards(m);
    r := DealCards(cleared, shuffled);
    forall i | 0 <= i < |r.players|
      ensures |r.players[i].hand| == |m.deck.initial| / |m.players|
    {
      assert cleared.players[i].hand == [];
    }
  }
}
