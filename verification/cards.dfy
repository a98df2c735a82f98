/** Playing cards as the game encodes them: a (face, suit) pair. */
module Cards {

  /** Faces run from 2 to 14; the ace is 14 so that it outranks the king. */
  type Face = f: int | 2 <= f <= 14 witness 2

  /** The four suits, numbered 1 to 4. */
  type Suit = s: int | 1 <= s <= 4 witness 1

  datatype Card = Card(face: Face, suit: Suit)

  /** The nine of a suit, handed back to that suit's owner at match setup. */
  function Nine(s: Suit): Card
  {
    Card(9, s)
  }

  /** `a > b` as the rules evaluate it. The rules only ever compare two cards
      of the same suit, so comparing faces is enough. */
  predicate Outranks(a: Card, b: Card)
  {
    a.face > b.face
  }

  /** The order a sorted hand is kept in: by suit, then by face. */
  predicate KeyLe(a: Card, b: Card)
  {
    a.suit < b.suit || (a.suit == b.suit && a.face <= b.face)
  }

  /** The sort key is the whole card, so the hand order is a total order and
      two cards with the same key are the same card. */
  lemma KeyLeIsTotalOrder(a: Card, b: Card, c: Card)
    ensures KeyLe(a, a)
    ensures KeyLe(a, b) || KeyLe(b, a)
    ensures KeyLe(a, b) && KeyLe(b, a) ==> a == b
    ensures KeyLe(a, b) && KeyLe(b, c) ==> KeyLe(a, c)
  {
  }
}
