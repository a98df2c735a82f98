/** `check_play_validity` and `get_available_play_card`: whether a card may be
    played on top of the stack, which depends on the top card's suit, the
    mover's own suit and the suit of the next player along the ring who still
    holds cards. */
module Legality {
  import opened Wrappers
  import opened Cards
  import opened Players
  import opened Hands

  /** How many steps along `next` from `cur` the first player with a
      non-empty hand is, looking at most `fuel` players ahead. */
  function HolderDistance(ps: seq<Player>, cur: nat, fuel: nat): (r: Option<nat>)
    requires Linked(ps) && cur < |ps|
    ensures r.Some? ==> r.value < fuel && |ps[Walk(ps, cur, r.value)].hand| > 0
    ensures r.Some? ==> forall j :: 0 <= j < r.value ==> |ps[Walk(ps, cur, j)].hand| == 0
    ensures r.None? ==> forall j :: 0 <= j < fuel ==> |ps[Walk(ps, cur, j)].hand| == 0
    decreases fuel
  {
    if fuel == 0 then None
    else if |ps[cur].hand| > 0 then Some(0)
    else
      var nxt := ps[cur].next.value;
      match HolderDistance(ps, nxt, fuel - 1)
      case None =>
        assert forall j :: 1 <= j < fuel ==> Walk(ps, cur, j) == Walk(ps, nxt, j - 1);
        None
      case Some(k) =>
        assert forall j :: 1 <= j <= k + 1 ==> Walk(ps, cur, j) == Walk(ps, nxt, j - 1);
        Some(k + 1)
  }

  /** The suit found by the scan of `check_play_validity`: the suit of the
      first player, from the mover's `next` onwards, whose hand is not empty.
      The arena has `|ps|` players, so a walk of `|ps|` steps has met every
      player it can ever reach. `None` when no such player exists or when
      that player has no suit: in both cases the scan of the source never
      ends. */
  function NextSuit(ps: seq<Player>, mover: nat): (r: Option<Suit>)
    requires Linked(ps) && mover < |ps|
    ensures (forall j :: 0 <= j < |ps| ==> |ps[Walk(ps, ps[mover].next.value, j)].hand| == 0) ==> r.None?
  {
    var start := ps[mover].next.value;
    match HolderDistance(ps, start, |ps|)
    case None => None
    case Some(k) => ps[Walk(ps, start, k)].suit
  }

  /** The scan stops at the first player along `next` from the mover's
      `next` whose hand is not empty, and reads that player's suit. */
  lemma NextSuitOfFirstHolder(ps: seq<Player>, mover: nat, k: nat)
    requires Linked(ps) && mover < |ps| && k < |ps|
    requires |ps[Walk(ps, ps[mover].next.value, k)].hand| > 0
    requires forall j :: 0 <= j < k ==> |ps[Walk(ps, ps[mover].next.value, j)].hand| == 0
    ensures NextSuit(ps, mover) == ps[Walk(ps, ps[mover].next.value, k)].suit
  {
    var start := ps[mover].next.value;
    var d := HolderDistance(ps, start, |ps|);
    assert d.Some? && d.value == k;
  }

  /** The scan for the next holder's suit terminates. */
  predicate ScanTerminates(ps: seq<Player>, mover: nat)
  {
    Linked(ps) && mover < |ps| && NextSuit(ps, mover).Some?
  }

  /** The rule chain of `check_play_validity` for a proposed card `c`, the
      top card `top`, the mover's suit `own` and the next holder's suit
      `nextSuit`. */
  function BeatAllowed(top: Card, c: Card, own: Option<Suit>, nextSuit: Suit): (r: bool)
    // The top card is in the mover's suit: follow it with a card not below it.
    ensures own == Some(top.suit) ==>
      (r <==> c.suit == top.suit && !Outranks(top, c))
    // The top card is the next holder's suit (and not the mover's): only the
    // mover's own suit may beat it.
    ensures own != Some(top.suit) && top.suit == nextSuit ==>
      (r <==> own == Some(c.suit))
    // Any other top card: the mover's own suit always beats it; otherwise
    // follow its suit with a card not below it.
    ensures own != Some(top.suit) && top.suit != nextSuit ==>
      (r <==> own == Some(c.suit) || (c.suit == top.suit && !Outranks(top, c)))
  {
    if own == Some(top.suit) && own != Some(c.suit) then false
    else if own == Some(top.suit) && Outranks(top, c) then false
    else if top.suit == nextSuit && own != Some(c.suit) then false
    else if top.suit != nextSuit && own != Some(top.suit) then
      if own != Some(c.suit) then
        if c.suit != top.suit then false
        else if Outranks(top, c) then false
        else true
      else true
    else true
  }

  /** `check_play_validity(stack, proposal, mover)`. No proposal means a
      pickup, which is always allowed and needs neither a stack nor the scan. */
  function PlayIsValid(stack: seq<Card>, proposal: Option<Card>, ps: seq<Player>, mover: nat): (r: bool)
    requires mover < |ps|
    requires proposal.Some? ==> |stack| > 0 && ScanTerminates(ps, mover)
    ensures proposal.None? ==> r
    ensures proposal.Some? ==>
      var top := stack[|stack| - 1];
      var c := proposal.value;
      var own := ps[mover].suit;
      var s := NextSuit(ps, mover).value;
      && (own == Some(top.suit) ==> (r <==> c.suit == top.suit && !Outranks(top, c)))
      && (own != Some(top.suit) && top.suit == s ==> (r <==> own == Some(c.suit)))
      && (own != Some(top.suit) && top.suit != s ==>
            (r <==> own == Some(c.suit) || (c.suit == top.suit && !Outranks(top, c))))
  {
    match proposal
    case None => true
    case Some(c) => BeatAllowed(stack[|stack| - 1], c, ps[mover].suit, NextSuit(ps, mover).value)
  }

  /** The list comprehension `[card for card in hand if keep(card)]`: the
      kept cards in hand order. */
  function Filter(hand: seq<Card>, keep: Card -> bool): (r: seq<Card>)
    ensures IsSubseq(r, hand)
    ensures forall i :: 0 <= i < |r| ==> keep(r[i])
    ensures forall c :: multiset(r)[c] == if keep(c) then multiset(hand)[c] else 0
    decreases |hand|
  {
    if |hand| == 0 then []
    else
      var init := hand[..|hand| - 1];
      var last := hand[|hand| - 1];
      var r := Filter(init, keep);
      assert hand == init + [last];
      if keep(last) then
        assert (r + [last])[..|r|] == r;
        r + [last]
      else r
  }

  /** `get_available_play_card`: exactly the hand cards a play of which is
      valid, in hand order, each as often as the hand holds it. An empty hand
      has no legal card and needs no scan. */
  function LegalCards(stack: seq<Card>, ps: seq<Player>, mover: nat): (r: seq<Card>)
    requires mover < |ps|
    requires |ps[mover].hand| > 0 ==> |stack| > 0 && ScanTerminates(ps, mover)
    ensures IsSubseq(r, ps[mover].hand)
    ensures forall c :: c in r <==> c in ps[mover].hand && PlayIsValid(stack, Some(c), ps, mover)
    ensures forall c ::
              multiset(r)[c] ==
              if c in ps[mover].hand && PlayIsValid(stack, Some(c), ps, mover)
              then multiset(ps[mover].hand)[c] else 0
  {
    var hand := ps[mover].hand;
    var valid := (c: Card) => |stack| > 0 && ScanTerminates(ps, mover) && PlayIsValid(stack, Some(c), ps, mover);
    var r := Filter(hand, valid);
    assert forall c :: c in hand ==> (valid(c) <==> PlayIsValid(stack, Some(c), ps, mover));
    assert forall c :: c in r <==> multiset(r)[c] > 0;
    assert forall c :: c in hand <==> multiset(hand)[c] > 0;
    r
  }
}
