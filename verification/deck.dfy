/** `Deck`: a list of cards dealt from its end, remembering the list it was
    built from so that it can be restored. */
module Decks {
  import opened Wrappers
  import opened Cards

  datatype Deck = Deck(cards: seq<Card>, initial: seq<Card>)

  datatype DeckError = PopFromEmptyDeck

  /** A deck built from a list: both the current and the initial deck are
      copies of it. */
  function NewDeck(list: seq<Card>): (d: Deck)
    ensures d.cards == list && d.initial == list
  {
    Deck(list, list)
  }

  /** `len(deck)`: the number of cards still in the deck, each copy counted. */
  function Size(d: Deck): (n: nat)
    ensures n == |multiset(d.cards)|
    ensures n == 0 <==> d.cards == []
  {
    |d.cards|
  }

  /** `deal(n)`: pops `n` cards one at a time off the end of the deck, so the
      hand returned holds the last `n` cards, last card first. A deck with
      fewer than `n` cards cannot be popped `n` times: an error. A count of
      zero or less deals nothing. */
  method Deal(d: Deck, n: int) returns (r: Result<(Deck, seq<Card>), DeckError>)
    ensures r.Failure? <==> n > Size(d)
    ensures r.Success? ==>
      var m := if n < 0 then 0 else n;
      var (d', dealt) := r.value;
      && |dealt| == m && Size(d') == Size(d) - m
      && d'.cards == d.cards[..|d.cards| - m]
      && d'.initial == d.initial
      && (forall t :: 0 <= t < m ==> dealt[t] == d.cards[|d.cards| - 1 - t])
  {
    var cards := d.cards;
    var dealt: seq<Card> := [];
    var i := 0;
    while i < n
      invariant 0 <= i && (n >= 0 ==> i <= n) && (n < 0 ==> i == 0)
      invariant i <= |d.cards|
      invariant cards == d.cards[..|d.cards| - i]
      invariant |dealt| == i
      invariant forall t :: 0 <= t < i ==> dealt[t] == d.cards[|d.cards| - 1 - t]
    {
      if |cards| == 0 {
        return Failure(PopFromEmptyDeck);
      }
      dealt := dealt + [cards[|cards| - 1]];
      cards := cards[..|cards| - 1];
      i := i + 1;
    }
    return Success((Deck(cards, d.initial), dealt));
  }

  /** `reset_deck`: the deck holds the initial list again. */
  function ResetDeck(d: Deck): (r: Deck)
    ensures r.cards == d.initial && r.initial == d.initial
  {
    d.(cards := d.initial)
  }

  /** Whatever was dealt, resetting a deck gives back the deck as it was built,
      and dealing never touches the initial list. */
  method DealThenReset(list: seq<Card>, n: int) returns (r: Deck)
    ensures r == NewDeck(list)
  {
    var d := NewDeck(list);
    var dealt := Deal(d, n);
    if dealt.Success? {
      d := dealt.value.0;
    }
    r := ResetDeck(d);
  }
}
