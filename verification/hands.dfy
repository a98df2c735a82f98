/** The operations a player performs on their own hand: adding, removing,
    testing for and sorting cards. A hand is an ordered list of cards. */
module Hands {
  import opened Cards

  /** `a` is `b` with some positions deleted (the survivors keep their order). */
  predicate IsSubseq<T(==)>(a: seq<T>, b: seq<T>)
    decreases |b|
  {
    if |b| == 0 then |a| == 0
    else
      || IsSubseq(a, b[..|b| - 1])
      || (|a| > 0 && a[|a| - 1] == b[|b| - 1] && IsSubseq(a[..|a| - 1], b[..|b| - 1]))
  }

  lemma {:induction false} SubseqRefl<T>(s: seq<T>)
    ensures IsSubseq(s, s)
    decreases |s|
  {
    if |s| > 0 {
      SubseqRefl(s[..|s| - 1]);
    }
  }

  lemma {:induction false} SubseqTrans<T>(a: seq<T>, b: seq<T>, c: seq<T>)
    requires IsSubseq(a, b) && IsSubseq(b, c)
    ensures IsSubseq(a, c)
    decreases |c|
  {
    if |c| == 0 {
    } else if IsSubseq(b, c[..|c| - 1]) {
      SubseqTrans(a, b, c[..|c| - 1]);
    } else {
      assert |b| > 0 && b[|b| - 1] == c[|c| - 1] && IsSubseq(b[..|b| - 1], c[..|c| - 1]);
      if IsSubseq(a, b[..|b| - 1]) {
        SubseqTrans(a, b[..|b| - 1], c[..|c| - 1]);
      } else {
        SubseqTrans(a[..|a| - 1], b[..|b| - 1], c[..|c| - 1]);
      }
    }
  }

  /** Deleting one position leaves a subsequence. */
  lemma {:induction false} SubseqDeleteOne<T>(s: seq<T>, i: nat)
    requires i < |s|
    ensures IsSubseq(s[..i] + s[i + 1..], s)
    decreases |s|
  {
    var a := s[..i] + s[i + 1..];
    var s' := s[..|s| - 1];
    if i == |s| - 1 {
      assert a == s';
      SubseqRefl(s');
    } else {
      SubseqDeleteOne(s', i);
      assert a[..|a| - 1] == s'[..i] + s'[i + 1..];
      assert a[|a| - 1] == s[|s| - 1];
    }
  }

  /** `add_cards`: the given cards go after the existing hand, both in order. */
  function AddCards(hand: seq<Card>, cards: seq<Card>): (r: seq<Card>)
    ensures |r| == |hand| + |cards|
    ensures r[..|hand|] == hand && r[|hand|..] == cards
    ensures multiset(r) == multiset(hand) + multiset(cards)
  {
    hand + cards
  }

  /** `has_card`: membership in the hand, so the card is held at some
      position, at least once. */
  function HasCard(hand: seq<Card>, c: Card): (r: bool)
    ensures r <==> exists i :: 0 <= i < |hand| && hand[i] == c
    ensures r <==> multiset(hand)[c] > 0
  {
    c in hand
  }

  /** Position of the first occurrence of `c`, as `list.index` finds it. */
  function IndexOf(h: seq<Card>, c: Card): (i: nat)
    requires c in h
    ensures i < |h| && h[i] == c
    ensures forall j :: 0 <= j < i ==> h[j] != c
  {
    if h[0] == c then 0 else 1 + IndexOf(h[1..], c)
  }

  /** `c` sits at position `i` of `h` and nowhere before it, and `r` is `h`
      with that position deleted. */
  predicate FirstDeleted(h: seq<Card>, c: Card, i: int, r: seq<Card>)
  {
    0 <= i < |h| && h[i] == c && c !in h[..i] && r == h[..i] + h[i + 1..]
  }

  /** `list.remove(c)`: deletes the first occurrence of `c`. */
  function RemoveFirst(h: seq<Card>, c: Card): (r: seq<Card>)
    requires c in h
    ensures |r| == |h| - 1
    ensures multiset(r) == multiset(h) - multiset{c}
    ensures IsSubseq(r, h)
  {
    var i := IndexOf(h, c);
    assert h == h[..i] + [c] + h[i + 1..];
    SubseqDeleteOne(h, i);
    h[..i] + h[i + 1..]
  }

  /** `remove_cards`: for each listed card in turn, the first occurrence still
      in the hand is removed; cards not in the hand are skipped. The result
      is the multiset difference, and the survivors keep their order. */
  function RemoveCards(hand: seq<Card>, cards: seq<Card>): (r: seq<Card>)
    ensures multiset(r) == multiset(hand) - multiset(cards)
    ensures IsSubseq(r, hand)
    decreases |cards|
  {
    if |cards| == 0 then
      SubseqRefl(hand);
      hand
    else
      var h := RemoveIfHeld(hand, cards[0]);
      var r := RemoveCards(h, cards[1..]);
      SubseqTrans(r, h, hand);
      DifferenceOfCons(hand, cards);
      r
  }

  /** One step of `remove_cards`: the first occurrence goes if there is one,
      and an absent card leaves the hand as it is. */
  function RemoveIfHeld(hand: seq<Card>, c: Card): (r: seq<Card>)
    ensures multiset(r) == multiset(hand) - multiset{c}
    ensures IsSubseq(r, hand)
  {
    if c in hand then RemoveFirst(hand, c)
    else
      assert multiset(hand)[c] == 0;
      SubseqRefl(hand);
      hand
  }

  lemma DifferenceOfCons(hand: seq<Card>, cards: seq<Card>)
    requires |cards| > 0
    ensures (multiset(hand) - multiset{cards[0]}) - multiset(cards[1..]) == multiset(hand) - multiset(cards)
  {
    assert cards == [cards[0]] + cards[1..];
    assert multiset(cards) == multiset{cards[0]} + multiset(cards[1..]);
  }

  /** `list.remove(c)` deletes the first occurrence of `c` and keeps the
      rest in order. */
  lemma RemoveFirstDeletesFirst(h: seq<Card>, c: Card)
    requires c in h
    ensures exists i :: FirstDeleted(h, c, i, RemoveFirst(h, c))
  {
    var i := IndexOf(h, c);
    assert FirstDeleted(h, c, i, RemoveFirst(h, c));
  }

  /** Removing one card with `remove_cards` deletes its first occurrence,
      and leaves the hand alone when the card is not there. */
  lemma RemoveCardsOne(hand: seq<Card>, c: Card)
    ensures c in hand ==> exists i :: FirstDeleted(hand, c, i, RemoveCards(hand, [c]))
    ensures c !in hand ==> RemoveCards(hand, [c]) == hand
  {
    assert RemoveCards(hand, [c]) == RemoveCards(RemoveIfHeld(hand, c), []);
    if c in hand {
      RemoveFirstDeletesFirst(hand, c);
    }
  }

  /** `remove_cards` works through the list in order: removing `a + b` is
      removing `a` and then `b`. With the one-card case above, this fixes
      which copy every listed card takes out. */
  lemma {:induction false} RemoveCardsAppend(hand: seq<Card>, a: seq<Card>, b: seq<Card>)
    ensures RemoveCards(hand, a + b) == RemoveCards(RemoveCards(hand, a), b)
    decreases |a|
  {
    if |a| > 0 {
      assert (a + b)[0] == a[0] && (a + b)[1..] == a[1..] + b;
      RemoveCardsAppend(RemoveIfHeld(hand, a[0]), a[1..], b);
    } else {
      assert a + b == b;
    }
  }

  /** Playing one card that is in the hand takes out exactly that card. */
  lemma RemoveOneHeld(hand: seq<Card>, c: Card)
    requires c in hand
    ensures multiset(RemoveCards(hand, [c])) + multiset{c} == multiset(hand)
    ensures |RemoveCards(hand, [c])| == |hand| - 1
  {
    var r := RemoveCards(hand, [c]);
    assert multiset(r) == multiset(hand) - multiset{c};
    assert |multiset(r)| == |r|;
  }

  /** Hands are kept sorted by suit, then face. */
  predicate Sorted(s: seq<Card>)
  {
    forall i, j :: 0 <= i < j < |s| ==> KeyLe(s[i], s[j])
  }

  function Insert(c: Card, s: seq<Card>): (r: seq<Card>)
    requires Sorted(s)
    ensures Sorted(r)
    ensures multiset(r) == multiset(s) + multiset{c}
  {
    if |s| == 0 then [c]
    else if KeyLe(c, s[0]) then
      SortedCons(c, s);
      [c] + s
    else
      SortedTail(s);
      var t := Insert(c, s[1..]);
      assert s == [s[0]] + s[1..];
      HeadBelowInsert(s, c, t);
      SortedCons(s[0], t);
      [s[0]] + t
  }

  /** Putting a card no greater than every card of a sorted hand in front
      keeps it sorted. */
  lemma SortedCons(h: Card, t: seq<Card>)
    requires Sorted(t) && (|t| > 0 ==> KeyLe(h, t[0]))
    ensures Sorted([h] + t)
  {
    var r := [h] + t;
    forall i, j | 0 <= i < j < |r| ensures KeyLe(r[i], r[j]) {
      if i == 0 {
        KeyLeIsTotalOrder(h, t[0], t[j - 1]);
      }
    }
  }

  /** The head of a sorted hand stays below everything after inserting a
      larger card into the rest. */
  lemma HeadBelowInsert(s: seq<Card>, c: Card, t: seq<Card>)
    requires Sorted(s) && |s| > 0 && !KeyLe(c, s[0])
    requires multiset(t) == multiset(s[1..]) + multiset{c} && |t| > 0
    ensures KeyLe(s[0], t[0])
  {
    KeyLeIsTotalOrder(c, s[0], c);
    assert t[0] in multiset(t);
    if t[0] != c {
      assert t[0] in multiset(s[1..]);
      var j :| 0 <= j < |s[1..]| && s[1..][j] == t[0];
      assert s[j + 1] == t[0];
    }
  }

  /** `sort_cards`: the hand reordered by suit, then face. */
  function SortCards(hand: seq<Card>): (r: seq<Card>)
    ensures Sorted(r)
    ensures multiset(r) == multiset(hand)
    decreases |hand|
  {
    if |hand| == 0 then []
    else
      assert hand == [hand[0]] + hand[1..];
      Insert(hand[0], SortCards(hand[1..]))
  }

  /** The head of a sorted hand is at most every card in it. */
  lemma SortedHeadIsLeast(s: seq<Card>, x: Card)
    requires Sorted(s) && x in multiset(s)
    ensures KeyLe(s[0], x)
  {
    var i :| 0 <= i < |s| && s[i] == x;
    if i > 0 {
      assert KeyLe(s[0], s[i]);
    }
  }

  /** A sorted arrangement of a multiset of cards is unique: since the sort key
      is the whole card, `sort_cards` has exactly one possible result. */
  lemma {:induction false} SortedPermutationUnique(a: seq<Card>, b: seq<Card>)
    requires Sorted(a) && Sorted(b)
    requires multiset(a) == multiset(b)
    ensures a == b
    decreases |a|
  {
    assert |multiset(a)| == |a| && |multiset(b)| == |b|;
    if |a| > 0 {
      assert a[0] == b[0] by {
        assert a[0] in multiset(b) && b[0] in multiset(a);
        SortedHeadIsLeast(b, a[0]);
        SortedHeadIsLeast(a, b[0]);
        KeyLeIsTotalOrder(a[0], b[0], a[0]);
      }
      assert multiset(a[1..]) == multiset(a) - multiset{a[0]} by { assert a == [a[0]] + a[1..]; }
      assert multiset(b[1..]) == multiset(b) - multiset{b[0]} by { assert b == [b[0]] + b[1..]; }
      SortedTail(a);
      SortedTail(b);
      SortedPermutationUnique(a[1..], b[1..]);
      assert a == [a[0]] + a[1..];
      assert b == [b[0]] + b[1..];
    }
  }

  lemma SortedTail(s: seq<Card>)
    requires Sorted(s) && |s| > 0
    ensures Sorted(s[1..])
  {
    forall i, j | 0 <= i < j < |s| - 1 ensures KeyLe(s[1..][i], s[1..][j]) {
      assert KeyLe(s[i + 1], s[j + 1]);
    }
  }

  /** Sorting does not depend on the order the cards arrived in. */
  lemma SortCardsCanonical(h1: seq<Card>, h2: seq<Card>)
    requires multiset(h1) == multiset(h2)
    ensures SortCards(h1) == SortCards(h2)
  {
    SortedPermutationUnique(SortCards(h1), SortCards(h2));
  }
}
