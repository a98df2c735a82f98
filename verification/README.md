# Vezimas rule engine in Dafny

A model of the rule engine of Vezimas, a card game, written in Python. Several
players sit in a ring. Each player is given one of the four suits as their
trump suit. In a trick the players take turns:

- a player facing an empty stack plays a card;
- a player facing a non-empty stack beats its top card, then plays a second
  card or picks the stack up;
- a player may also pick the stack up at once.

A player whose hand runs out leaves the trick. The last player left loses it
and scores a point.

The model covers:

- **Cards and hands**: a card is a (face, suit) pair (`Cards`). A hand supports
  add, remove, membership and sort (`Hands`).
- **Players** (`Players`): a player record in an arena indexed by player id.
  Its ring neighbours are stored as ids; `next`/`prev` are the working
  references and `initNext`/`initPrev` the seating references.
- **Turn cycle** (`TurnCycle`): the turn order `MyCycle`. It iterates pass
  after pass over a list of slots, and removing a player overwrites their slot
  with a tombstone.
- **Deck** (`Decks`): the deck, dealt from the end of its list and resettable
  to the list it was built from.
- **Public state** (`GameStates`): the public knowledge record `GameState`, one
  view per player name.
- **Legality** (`Legality`): `check_play_validity` and
  `get_available_play_card`. Whether a card may beat the top of the stack
  depends on the top card's suit, the mover's suit, and the suit of the next
  player along the ring who still holds cards.
- **Match setup** (`Vezimas`):
  - the constructor's checks;
  - the seating ring;
  - dealing;
  - trump assignment from the holder of the queen of spades;
  - handing back the nines;
  - finding the starting player and the worst player;
  - clearing the table.
- **One trick** (`Subgame`): setting the trick up, then one turn of
  `start_game` as a step function. What the mover's strategy would choose is a
  `Choice` parameter. Elimination splices the player out of the working ring,
  and the trick ends with a loser or a tie.

Things the Python code gets from outside become parameters of the model:

- the shuffled deck: any rearrangement of the deck;
- the strategies' choices: a `Choice`, with `Subgame.Admissible` saying which
  choices keep to the rules;
- the suit list, the nines and the queen of spades.

Python's object references become ids into the arena, and mutation becomes
functions from old state to new state.

Several definitions that `game/game_functions.py` calls are not defined in
`player/player_functions.py`. They are modelled from their call sites:

- `Player.add_player_reference`, `reset_player_reference`,
  `remove_all_cards`;
- `previous_player` and `player_type`;
- `MyCycle.__len__` and `MyCycle.elements`.

## Model

| member | source | states |
|---|---|---|
| `Cards.KeyLeIsTotalOrder` | player/player_functions.py:55-57 | the (suit, face) sort key is a total order, and two cards with equal keys are the same card; being a fact about integer pairs, it needs no proof steps |
| `Hands.AddCards` | player/player_functions.py:22-27 | the old hand comes first and the new cards after it, both in order; the multiset is the sum |
| `Hands.HasCard` | player/player_functions.py:36-45 | true exactly when some position of the hand holds the card, i.e. its multiplicity is positive |
| `Hands.RemoveFirst` | player/player_functions.py:34 | `list.remove`: one card fewer, exactly one copy of the card gone, the survivors a subsequence of the hand |
| `Hands.RemoveFirstDeletesFirst` | player/player_functions.py:34 | `list.remove` deletes the first position holding the card, no earlier position holds it, and the rest keep their order |
| `Hands.RemoveCards` | player/player_functions.py:29-34 | the result is the multiset difference of hand and list (absent cards ignored), and the survivors keep their order (subsequence) |
| `Hands.RemoveCardsOne` | player/player_functions.py:29-34 | removing one listed card deletes its first occurrence from the hand, and an absent card leaves the hand unchanged |
| `Hands.RemoveCardsAppend` | player/player_functions.py:29-34 | the list is worked through in order: removing `a + b` is removing `a` and then `b`, so each card takes out the first copy still there |
| `Hands.RemoveOneHeld` | player/player_functions.py:34 | removing a held card takes out exactly that card and shortens the hand by one |
| `Hands.SortCards` | player/player_functions.py:55-57 | the result is sorted by (suit, face) and is a permutation of the hand |
| `Hands.SortedPermutationUnique` | player/player_functions.py:57 | two sorted permutations of the same cards are equal, so the sorted hand is unique |
| `Hands.SortCardsCanonical` | player/player_functions.py:55-57 | sorting depends only on the multiset of cards, not on the order they arrived in |
| `Players.NewPlayer` | player/player_functions.py:13-20 | a new player has score 0, an empty hand, no suit, no neighbours and no starting flag |
| `Players.AddPlayerReference` | game/game_functions.py:60-65 | both the working and the seating neighbours are set to the given ids, and nothing else changes |
| `Players.ResetPlayerReference` | game/game_functions.py:67-70 | the working neighbours become the seating ones, and nothing else changes |
| `Players.RemoveAllCards` | game/game_functions.py:125-127 | the hand is emptied, and nothing else changes |
| `TurnCycle.NewCycle` | player/player_functions.py:63-64 | one live slot per element, in order |
| `TurnCycle.Next` | player/player_functions.py:66-74 | the next slot yielded is live and the first live one from the cursor, else the first of a new pass; iteration ends exactly when the current pass has no live slot left and no pass is open, or no slot is live at all |
| `TurnCycle.ExhaustedCycleStops` | player/player_functions.py:66-74 | once every slot is a tombstone the iteration ends, whatever the cursor |
| `TurnCycle.LiveCycleContinues` | player/player_functions.py:66-74 | while a live slot remains, an iteration that has yielded in its pass never stops |
| `TurnCycle.Count` | game/game_functions.py:318-324 | the live count never exceeds the number of slots, and equals it exactly when no slot is a tombstone |
| `TurnCycle.CountZero` | game/game_functions.py:318-326 | the live count is zero exactly when every slot is a tombstone |
| `TurnCycle.Elements` | game/game_functions.py:319 | the live elements, as many as the live count, and an element is among them exactly when some slot holds it |
| `TurnCycle.IndexOfSlot` | player/player_functions.py:81 | `list.index`: the first slot holding the element |
| `TurnCycle.Remove` | player/player_functions.py:76-81 | succeeds exactly when the element is present; then the first slot holding it becomes a tombstone, the length and every other slot are kept, and the live count drops by one |
| `TurnCycle.CountTombstone` | player/player_functions.py:81 | tombstoning a live slot lowers the live count by exactly one |
| `Decks.NewDeck` | deck/deck_functions.py:46-49 | the current and the initial deck both equal the given list |
| `Decks.Size` | deck/deck_functions.py:54-55 | the number of cards left, each copy counted, and zero exactly for an empty deck; `Deal` fails exactly when asked for more than this |
| `Decks.Deal` | deck/deck_functions.py:61-63 | fails exactly when more cards are asked for than the deck holds; otherwise returns the last `n` cards, last card first, and the deck (as `len` sees it) shrinks by `n` with its initial list untouched |
| `Decks.ResetDeck` | deck/deck_functions.py:65-67 | the deck holds the initial list again |
| `Decks.DealThenReset` | deck/deck_functions.py:46-67 | whatever was dealt, a reset gives back the deck exactly as it was built |
| `Legality.NextSuit` | game/game_functions.py:145-152 | `next_player_suit`: no suit when every player within one lap of the mover's `next` has an empty hand |
| `Legality.NextSuitOfFirstHolder` | game/game_functions.py:145-152 | the suit read is that of the first player along `next` from the mover's `next` whose hand is not empty |
| `Legality.HolderDistance` | game/game_functions.py:145-152 | the scan along `next` finds the first player with a non-empty hand, and every player it passes on the way has an empty hand |
| `Legality.BeatAllowed` | game/game_functions.py:154-170 | the three rules: on the mover's suit follow suit and do not go below; on the next holder's suit only the mover's suit beats; otherwise the mover's suit or the same suit not below |
| `Legality.PlayIsValid` | game/game_functions.py:131-170 | no proposal is always valid; a proposal is valid exactly as the three rules say, with the next holder's suit from the scan |
| `Legality.Filter` | game/game_functions.py:182-184 | the list comprehension keeps a subsequence of the hand, every kept card passes the test, and each card that passes is kept as often as the hand holds it, any other not at all |
| `Legality.LegalCards` | game/game_functions.py:173-186 | a card is offered exactly when it is in the hand and valid, with the hand's multiplicity and in hand order |
| `GameStates.Views` | game/game_state.py:20-28 | one view per name; the last player of a name sets it |
| `GameStates.NewGameState` | game/game_state.py:16-29 | every player is active with their suit, their hand size and only the nine of their suit known; the stack and flag are as given |
| `GameStates.AddKnownCards` | game/game_state.py:31-37 | the cards are appended to the player's known list and counted, the stack seen is empty, and no other view changes |
| `GameStates.RemoveKnownCards` | game/game_state.py:39-49 | the known list loses the listed cards (those present), the count drops by the full list length, the stack seen is the given one, and no other view changes |
| `GameStates.RemovePlayer` | game/game_state.py:51-53 | only that player's activity flag changes, to inactive |
| `GameStates.AdjustCardToBeat` | game/game_state.py:55-57 | only the flag changes |
| `GameStates.InitialViewMirrors` | game/game_state.py:20-28 | a fresh view tracks its player's hand exactly when that player holds the nine of their suit |
| `GameStates.PlayKeepsMirror` | game/game_state.py:39-49 | recording a played held card keeps the view's count and known cards in step with the hand |
| `GameStates.PickupKeepsMirror` | game/game_state.py:31-37 | recording a pickup keeps the view in step with the sorted hand |
| `Vezimas.DefaultNames` | game/game_functions.py:44 | as many names as players, the `i`-th being `Player i` in decimal |
| `Vezimas.Roster` | game/game_functions.py:45-50 | one new player per name, human for the first seats and bot for the rest |
| `Vezimas.NewMatch` | game/game_functions.py:20-50 | fails exactly when a non-empty name list has the wrong length (checked first) or there are more bots than players; otherwise builds the roster from the given or default names |
| `Vezimas.SetPlayerReference` | game/game_functions.py:52-65 | a player's `next` is the previous roster player and `prev` the following one, wrapping round, as working and seating references; nothing else changes |
| `Vezimas.SeatingRingInverse` | game/game_functions.py:52-65 | in the seating ring, `prev` undoes `next` and `next` undoes `prev` |
| `Vezimas.ResetPlayerReferences` | game/game_functions.py:67-70 | every working reference is set back to the seating one, and nothing else changes |
| `Vezimas.ResetRestoresSeating` | game/game_functions.py:67-70 | after a trick has spliced players out, resetting restores the seating ring |
| `Vezimas.DealRounds` | game/game_functions.py:76-77 | the players in roster order each receive the next `k` cards popped off the deck, and the deck keeps the rest |
| `Vezimas.DealCards` | game/game_functions.py:72-77 | each player gets their share of `len(deck) / player_count` cards off the end of the shuffled deck, and the remainder stays in it; with a negative count and so no players, only the shuffle happens |
| `Vezimas.ResetThenDeal` | game/game_functions.py:72-128 | after clearing the table and dealing again, each hand holds `len(initial deck) / player_count` cards and the deck the remainder |
| `Vezimas.FirstHolding` | game/game_functions.py:85-86 | the first roster player holding the card, or none when nobody holds it |
| `Vezimas.AssignSuits` | game/game_functions.py:89-95 | walking along `next` only suits change, no suit is overwritten, and every new suit comes from the remaining list |
| `Vezimas.AssignSuitsWalks` | game/game_functions.py:89-95 | in any ring, the first `s` players along `next` are distinct, were unsuited and get the remaining suits in order; the walk stops at the first player with a suit (one it just gave included) or when suits run out; nobody else changes |
| `Vezimas.SetTrumps` | game/game_functions.py:79-96 | the first queen holder gets the first suit and the starting flag and is returned; others only gain suits from the list; with no holder nothing changes |
| `Vezimas.SetTrumpsWalks` | game/game_functions.py:86-95 | in any ring, after the holder takes the first suit, the players along `next` from the holder take the remaining suits in order, stopping at the first already suited player (the holder included) |
| `Vezimas.AssignSuitsInRing` | game/game_functions.py:89-95 | in the seating ring the suit walk gives the seat `t` places back the `t`-th suit, up to the number of players or suits |
| `Vezimas.SetTrumpsInSeatingRing` | game/game_functions.py:79-96 | in the seating ring the player `t` seats back from the queen's holder gets the `t`-th suit, and a player gets a suit exactly when enough suits exist for their seat |
| `Vezimas.ShareNines` | game/game_functions.py:98-103 | each hand loses the listed nines and gains, at its end, the nine of its owner's suit; nothing else changes |
| `Vezimas.ShareNine` | game/game_functions.py:100-103 | one player's hand loses the listed nines and ends with the nine of their suit; the rest of the player is unchanged |
| `Vezimas.ShareNinesOwnNineOnly` | game/game_functions.py:98-103 | with duplicate-free hands, each player then holds their own nine and no other listed nine |
| `Vezimas.RemoveStartingPlayerFlags` | game/game_functions.py:105-108 | every starting flag is cleared, and nothing else changes |
| `Vezimas.GetStartingPlayer` | game/game_functions.py:110-115 | the first flagged roster player; an error exactly when nobody is flagged |
| `Vezimas.StartingPlayerAfterTrumps` | game/game_functions.py:86-114 | after `set_trumps` on an unflagged roster, the starting player found is the queen's holder |
| `Vezimas.ClearedFlagsThenTrumps` | game/game_functions.py:86-115 | after clearing the flags `get_starting_player` raises, and a following `set_trumps` makes the queen's holder the starting player |
| `Vezimas.SameHandsSameHolder` | game/game_functions.py:85-86 | who holds the queen depends only on the hands |
| `Vezimas.NewMatchSeated` | game/game_functions.py:47-65 | a new match, once seated, forms the seating ring with every player unsuited, unflagged and empty-handed, as the suit walk and the first deal expect |
| `Vezimas.CheckWorstPlayer` | game/game_functions.py:121-123 | the first player with the highest score; an error exactly for an empty roster |
| `Vezimas.ResetCards` | game/game_functions.py:125-128 | every hand is emptied and the deck restored to its initial list |
| `Subgame.CycleOrder` | game/game_functions.py:197-203 | `player_count` ids, starting at the starting player and following `next` |
| `Subgame.CycleOrderInSeatingRing` | game/game_functions.py:197-203 | in the seating ring the cycle lists every player exactly once, from the starting player backwards through the roster |
| `Subgame.NewTrick` | game/game_functions.py:192-216 | fails exactly when no starting player is set; otherwise the cycle starts there, the stack is empty, and the public state is freshly built |
| `Subgame.NewTrickMirrors` | game/game_functions.py:214-216 | with distinct names, the fresh views track the hands exactly when every player holds their own nine |
| `Subgame.Pickup` | game/game_functions.py:206-209 | the stack moves into the mover's hand, which is sorted, and the stack empties; only the mover's hand and the public state change |
| `Subgame.PickupConservesCards` | game/game_functions.py:206-209 | hands plus stack hold the same cards before and after a pickup |
| `Subgame.Play` | game/game_functions.py:236-242 | the card leaves the mover's hand (if there) and goes on top of the stack; only the mover's hand and the public state change |
| `Subgame.PlayConservesCards` | game/game_functions.py:236-237 | playing a held card moves exactly that card from the hand to the stack |
| `Subgame.Adjust` | game/game_functions.py:224 | only the public flag changes |
| `Subgame.Open` | game/game_functions.py:222-242 | the opening card leaves the hand (its first copy) and lands on the stack, and no card is to be beaten; only the mover's hand, the stack and the public state change |
| `Subgame.Follow` | game/game_functions.py:269-299 | a second card leaves the hand and tops the stack, or the stack is picked up into the sorted hand; nothing is left to beat |
| `Subgame.Beat` | game/game_functions.py:260-299 | the beat card tops the stack; with cards left, the second card follows it or the stack is picked up, and nothing is to be beaten; with none left the stack waits to be beaten |
| `Subgame.Answer` | game/game_functions.py:244-306 | a card is to be beaten; with no card chosen the stack goes into the sorted hand, otherwise the beat path's effect on hand, stack and flag |
| `Subgame.Turn` | game/game_functions.py:222-306 | a turn keeps the trick well formed and changes only the mover's hand, the stack and the public state |
| `Subgame.TurnPlays` | game/game_functions.py:222-288 | the playing paths of a turn: the first card alone on an emptied stack, a beat card alone when the hand empties, a beat and a second card otherwise, with the hand and the flag in each case |
| `Subgame.TurnConservesCards` | game/game_functions.py:222-306 | with admissible choices, cards move only between the mover's hand and the stack |
| `Subgame.TurnPickup` | game/game_functions.py:289-306 | a pickup, at once or instead of a second card, empties the stack and leaves the mover the sorted union of hand and stack |
| `Subgame.TurnMirrors` | game/game_functions.py:222-306 | with admissible choices, a turn keeps every view tracking its player's hand |
| `Subgame.Splice` | game/game_functions.py:311-312 | `prev.next = next` then `next.prev = prev`, reading the eliminated player's references first; only these links change |
| `Subgame.SpliceKeepsRing` | game/game_functions.py:311-312 | splicing a member out of a doubly linked ring leaves a ring over the other members |
| `Subgame.SeatingRingIsRing` | game/game_functions.py:52-65 | the seating ring is a doubly linked ring over every seat |
| `Subgame.Eliminate` | game/game_functions.py:308-315 | the player's cycle slot is tombstoned (the live count drops by one), they are spliced out of the ring, and the public state marks them inactive |
| `Subgame.Resolve` | game/game_functions.py:317-326 | the trick goes on exactly when two or more are live; one live player is the loser, with one more point; none live is a tie; no one else changes |
| `Subgame.ResolveScores` | game/game_functions.py:318-322 | the end-of-turn check adds one point to the loser, if any, and to nobody else |
| `Subgame.Mover` | game/game_functions.py:218 | the player in the slot the cycle's iteration yields next, a live cycle member; none exactly when the iteration has ended |
| `Subgame.TurnOf` | game/game_functions.py:218-306 | the turn of the player the cycle yields, played with the cycle advanced past them; only the mover's hand, the stack and the public state change |
| `Subgame.Played` | game/game_functions.py:218-315 | a turn followed by the elimination check keeps the trick well formed |
| `Subgame.Step` | game/game_functions.py:218-326 | one pass of the loop keeps the trick well formed; an ended iteration finishes without a loser |
| `Subgame.PlayedConservesCards` | game/game_functions.py:222-315 | with admissible choices, a turn and an elimination keep the cards of hands and stack together |
| `Subgame.StepConservesCards` | game/game_functions.py:222-326 | with admissible choices, hands plus stack hold the same cards, and so the same number of cards, after a step |
| `Subgame.StepEliminates` | game/game_functions.py:308-312 | a step that empties the mover's hand tombstones their slot and leaves the others a ring; otherwise the cycle and the ring are kept |
| `Subgame.StepScores` | game/game_functions.py:317-326 | a step adds exactly one point to the loser of a finished trick and leaves every other score alone |
| `Subgame.StepMirrors` | game/game_functions.py:222-315 | with admissible choices, the views keep tracking the hands through a step |

## Left out

- The shuffle (`deck/deck_functions.py:57-59`) uses a random generator. `DealCards` takes the shuffled deck as a parameter, constrained only to be a rearrangement of the deck.
- Strategies, bots and console input are left out. Each turn's decisions are the `Choice` parameter, and `Subgame.Admissible` states when a choice keeps to the rules. `Subgame.Step` does not call `get_available_play_card` itself; the legal list is what `Admissible` requires the beat to come from.
- `Subgame.Step` models one pass of the `start_game` loop. Whether a whole trick ends is not claimed, because the code does not promise it.
- The game log strings, `visualise_card`, `visualise_set_of_cards`, `GameState.__repr__` and `game/game_play.py` are display or scratch code.
- The match-level sort (`game/game_functions.py:117-119`) and the match loop that repeats tricks up to a score threshold are left out.
- Python aliasing between the public state's stack snapshot and the trick's stack list is left out. Snapshots are values.
- `Vezimas.DealCards` requires `player_count` to equal the roster size when it is not negative. The constructor makes the two agree for such counts. A `player_count` of zero makes the source divide by zero, so that case is excluded. A negative `player_count` gives an empty roster; the model covers it: the deck is shuffled and nobody is dealt to. `Vezimas.ResetThenDeal` has the same requirement.
- `Vezimas.ShareNines`, `Vezimas.ShareNine`, `GameStates.Views`, `GameStates.NewGameState` and `Subgame.NewTrick` require every player to have a suit. A player without one would need the card `(9, None)`, which is not a card of the model.
- `Legality.PlayIsValid` and `Legality.LegalCards` require that the scan for the next holder's suit terminates. The source loops forever when no player along `next` holds cards, or when the player it finds has no suit. The model scans at most as many steps as there are players, which reaches every player the scan can reach.
- `Subgame.NewTrick` merges `VezimasSubgame.__init__` with the creation of the public state at the start of `start_game`.
- `TurnCycle.Remove`: removing an element that is not in the cycle is an error, because `list.index` raises.
- `Players.NewPlayer` also records the player's kind (human or bot), taken from the constructor call in `game/game_functions.py:47-50`. The player file does not take a player type.
