/** `GameState`: the public record of what every player is known to hold,
    kept up to date as cards are played and picked up, for strategies to read. */
module GameStates {
  import opened Wrappers
  import opened Cards
  import opened Players
  import opened Hands

  /** What is publicly known of one player. */
  datatype View = View(isActive: bool, suit: Option<Suit>, noCards: int, known: seq<Card>)

  /** Views by player name, plus the last stack seen and whether the next
      card must beat it. */
  datatype GameState = GameState(views: map<string, View>, stack: seq<Card>, cardToBeat: bool)

  /** Every player has been given a suit. */
  predicate AllSuited(ps: seq<Player>)
  {
    forall i :: 0 <= i < |ps| ==> ps[i].suit.Some?
  }

  /** No later player of the roster shares player `i`'s name. */
  predicate LastOfName(ps: seq<Player>, i: nat)
    requires i < |ps|
  {
    forall j :: i < j < |ps| ==> ps[j].name != ps[i].name
  }

  /** The names of the roster. */
  function Names(ps: seq<Player>): (r: set<string>)
    ensures forall i :: 0 <= i < |ps| ==> ps[i].name in r
  {
    if |ps| == 0 then {} else Names(ps[..|ps| - 1]) + {ps[|ps| - 1].name}
  }

  /** The view of a player at the start of a trick: active, with their suit,
      their hand size, and only the nine of their suit known. */
  function InitialView(p: Player): View
    requires p.suit.Some?
  {
    View(true, p.suit, |p.hand|, [Nine(p.suit.value)])
  }

  /** The views as the dictionary comprehension builds them: one per name,
      a later player overwriting an earlier one of the same name. */
  function Views(ps: seq<Player>): (m: map<string, View>)
    requires AllSuited(ps)
    ensures m.Keys == Names(ps)
    ensures forall i :: 0 <= i < |ps| && LastOfName(ps, i) ==> m[ps[i].name] == InitialView(ps[i])
  {
    if |ps| == 0 then map[]
    else
      var init := ps[..|ps| - 1];
      var last := ps[|ps| - 1];
      var m0 := Views(init);
      var m := m0[last.name := InitialView(last)];
      assert forall i :: 0 <= i < |ps| && LastOfName(ps, i) ==> m[ps[i].name] == InitialView(ps[i]) by {
        forall i | 0 <= i < |ps| && LastOfName(ps, i)
          ensures m[ps[i].name] == InitialView(ps[i])
        {
          if i < |init| {
            assert init[i] == ps[i];
            assert LastOfName(init, i);
          }
        }
      }
      m
  }

  /** `GameState(players, card_stack, card_to_beat)`. */
  function NewGameState(ps: seq<Player>, stack: seq<Card>, cardToBeat: bool): (g: GameState)
    requires AllSuited(ps)
    ensures g.views.Keys == Names(ps)
    ensures forall i :: 0 <= i < |ps| && LastOfName(ps, i) ==>
              var v := g.views[ps[i].name];
              v.isActive && v.suit == ps[i].suit && v.noCards == |ps[i].hand|
              && v.known == [Nine(ps[i].suit.value)]
    ensures g.stack == stack && g.cardToBeat == cardToBeat
  {
    GameState(Views(ps), stack, cardToBeat)
  }

  /** A view tracks a hand: it counts the hand's cards and every card it
      claims to know is really there. */
  predicate Mirrors(v: View, hand: seq<Card>)
  {
    v.noCards == |hand| && multiset(v.known) <= multiset(hand)
  }

  /** `add_known_cards`: the picked-up cards become known and are counted;
      the stack seen is now empty. No other player's view changes. */
  function AddKnownCards(g: GameState, name: string, cards: seq<Card>): (r: GameState)
    requires name in g.views
    ensures r.views.Keys == g.views.Keys
    ensures r.views[name] == g.views[name].(known := g.views[name].known + cards,
                                            noCards := g.views[name].noCards + |cards|)
    ensures forall n :: n in g.views && n != name ==> r.views[n] == g.views[n]
    ensures r.stack == [] && r.cardToBeat == g.cardToBeat
  {
    var v := g.views[name];
    g.(views := g.views[name := v.(known := v.known + cards, noCards := v.noCards + |cards|)],
       stack := [])
  }

  /** `remove_known_cards`: the played cards stop being known (those that
      were), the count drops by the number played, and the stack seen becomes
      `stack`. No other player's view changes. */
  function RemoveKnownCards(g: GameState, name: string, cards: seq<Card>, stack: seq<Card>): (r: GameState)
    requires name in g.views
    ensures r.views.Keys == g.views.Keys
    ensures multiset(r.views[name].known) == multiset(g.views[name].known) - multiset(cards)
    ensures r.views[name].noCards == g.views[name].noCards - |cards|
    ensures r.views[name].isActive == g.views[name].isActive
    ensures r.views[name].suit == g.views[name].suit
    ensures forall n :: n in g.views && n != name ==> r.views[n] == g.views[n]
    ensures r.stack == stack && r.cardToBeat == g.cardToBeat
  {
    var v := g.views[name];
    var known := RemoveCards(v.known, cards);
    assert multiset(known) == multiset(v.known) - multiset(cards);
    var v' := v.(known := known, noCards := v.noCards - |cards|);
    var r := g.(views := g.views[name := v'], stack := stack);
    assert r.views[name] == v';
    r
  }

  /** `remove_player`: only the player's activity flag changes. */
  function RemovePlayer(g: GameState, name: string): (r: GameState)
    requires name in g.views
    ensures r.views.Keys == g.views.Keys
    ensures !r.views[name].isActive && r.views[name].(isActive := true) == g.views[name].(isActive := true)
    ensures forall n :: n in g.views && n != name ==> r.views[n] == g.views[n]
    ensures r.stack == g.stack && r.cardToBeat == g.cardToBeat
  {
    g.(views := g.views[name := g.views[name].(isActive := false)])
  }

  /** `adjust_card_to_beat`: only the flag changes. */
  function AdjustCardToBeat(g: GameState, flag: bool): (r: GameState)
    ensures r.cardToBeat == flag && r.(cardToBeat := g.cardToBeat) == g
    ensures r.views == g.views && r.stack == g.stack
  {
    g.(cardToBeat := flag)
  }

  /** At the start of a trick a view mirrors its player's hand exactly when
      that player holds the nine of their suit. */
  lemma InitialViewMirrors(p: Player)
    requires p.suit.Some?
    ensures Mirrors(InitialView(p), p.hand) <==> Nine(p.suit.value) in p.hand
  {
    if Nine(p.suit.value) in p.hand {
      assert multiset([Nine(p.suit.value)]) == multiset{Nine(p.suit.value)};
    }
  }

  /** Playing a held card and recording it keeps the view in step with the hand. */
  lemma PlayKeepsMirror(g: GameState, name: string, hand: seq<Card>, c: Card, stack: seq<Card>)
    requires name in g.views && Mirrors(g.views[name], hand) && c in hand
    ensures Mirrors(RemoveKnownCards(g, name, [c], stack).views[name], RemoveCards(hand, [c]))
  {
    var k := g.views[name].known;
    var k' := RemoveKnownCards(g, name, [c], stack).views[name].known;
    RemoveOneHeld(hand, c);
    assert multiset(k') == multiset(k) - multiset{c};
    assert multiset(RemoveCards(hand, [c])) == multiset(hand) - multiset{c};
  }

  /** Picking up the stack and recording it keeps the view in step with the
      (sorted) hand. */
  lemma PickupKeepsMirror(g: GameState, name: string, hand: seq<Card>, stack: seq<Card>)
    requires name in g.views && Mirrors(g.views[name], hand)
    ensures Mirrors(AddKnownCards(g, name, stack).views[name], SortCards(AddCards(hand, stack)))
  {
    var h := SortCards(AddCards(hand, stack));
    assert |h| == |multiset(h)| == |hand + stack|;
  }
}
