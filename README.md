# UNO rules engine, modelled in Dafny

This project models the rules engine of a Discord UNO bot: the free function
`shuffle` and the class `GameLogic` in `application/game_logic.py`, with the
card, player, result and cheat-code types of `common/types.py` and
`application/types.py`.

A game state has five parts:
- the turn pointer `currentPlayerIndex`;
- the draw pile `deck`, whose top is its last card;
- the `discard` pile, whose last card is the active card;
- the direction flag `reversed`;
- the seated `players`. Each player has a hand and two per-turn flags: has played a card, has called UNO.

`GameLogic` is a Dafny class with these five fields. Its commands are
methods that reassign the fields. Its queries are functions that read them.

Files:
- `types.dfy`: cards, players, results and cheat codes.
- `shuffle.dfy`: the Fisher–Yates shuffle, in place on an array copy. The random index is a nondeterministic choice.
- `piles.dfy`: operations on card sequences and rosters:
  - ids;
  - all hands flattened;
  - `pop(i)`;
  - the cards a loop of `pop()` takes;
  - `pile[-1:]` and `pile[:-1]`;
  - the wild-colour reset of a reshuffle;
  - the facts about how these keep card ids.
- `turns.dfy`: the neighbour index of `get_next_player` and what repeated turn changes do.
- `catalog.dfy`: the 108-card catalogue of `create_cards` and the 7-card deal of `distribute_cards`.
- `game.dfy`: the `GameLogic` class and the relations its contracts use. All of them are stated over `Table`, a value holding the deck, the discard pile and the players.

Every command except `start_game`, `reset` and `activate_cheat_code` conserves
cards. The multiset of card ids across deck, discard and hands
(`Table.IdBag`) is unchanged by drawing, reshuffling, passing the turn,
playing and recolouring. `start_game` replaces the deck and the hands, so its
id bag becomes the catalogue's ids plus the old discard pile's. `reset` empties
the table. A cheat code adds exactly the new card's id. Ids are compared rather than whole cards because a
reshuffle and a recolouring change card colours.

Where the source raises an exception, the model has a precondition:
- an unknown player id (`ValueError`);
- `get_current_player` on a turn pointer outside the roster (`IndexError`);
- `get_next_player` on an empty roster (`ZeroDivisionError`);
- `change_wild_card_color` on an empty discard pile, or on a named top card that is no longer coloured Wild.

Error results are modelled as `Err` with the source's messages, and the state
is left unchanged.

The model states some consequences of the code that the rules do not
suggest:
- `play_card` and `draw_card` compare the player with the current player by id only.
- The "Player has already played a card" refusal cannot happen from a state where nobody is mid-turn (`Calm`). A successful command raises the flag and then lowers it again in `next_turn`.
- A Wild Draw Four makes the next player draw 4 but does not skip them.
- A Skip ends the skipped player's turn through `next_turn`. A skipped player holding one card therefore draws the missed-UNO penalty, because their UNO flag was lowered when their own last turn ended.

The contracts of `next_turn`, `play_card` and `draw_card` give the exact
steps first, then an outline of what those steps add up to:
- `TurnEnded` says that the missed-UNO penalty is drawn through `draw_cards`, as `DrawnMany` states.
- `CardPlayed` says that the table passes through `AfterDiscard`, then the face effect of `FaceApplied`, then the final turn end (`EffectSteps`).
- `CardDrawn` says that the table passes through a one-card `DrawnMany`, the raised flag (`Flagged`) and `TurnEnded`.

The outlines (`TurnOutline`, `EffectOutline`, `PlayOutline`, `DrawOutline`)
are proved from the steps. They state the hand counts, the id bag, the
active card and who may change.

The face-specific chain at the end of `play_card` is written as a table rather than an `if` chain. `DrawPenalty` gives how many cards each face makes the next player draw: 4, 8, 2 or none. `SkipsNext` says whether the face ends the turn an extra time. Reverse alone flips the direction. Each face gets the same effect as in the source's chain.

## Model

| member | source | states |
|---|---|---|
| Shuffling.Shuffle | application/game_logic.py:10-20 | the result has the input's length and is a permutation of it, for every sequence of random swap indices; the argument is untouched |
| Piles.ResetWildColors | application/game_logic.py:242-244 | the result is the input with `WildReset` applied card by card: every wild-family card is coloured Wild; ids and faces are kept; non-wild cards are unchanged |
| Turns.NextIndex | application/game_logic.py:250-256 | the next index is in `[0, n)`: one seat forward, wrapping from the last seat to 0, or one seat back when reversed, wrapping from 0 to the last seat |
| Turns.AdvanceWithinRound | application/game_logic.py:104-113 | `k <= n` turn changes in one direction move the pointer `k` seats, wrapping once |
| Turns.FullRound | application/game_logic.py:104-113 | `n` turn changes bring the pointer back to its seat and no fewer do, so every player gets a turn each round |
| Turns.NextIndexUndone | application/game_logic.py:154-155 | one step in the flipped direction undoes a step, so a Reverse makes play retrace the seating order |
| Catalog.CreateCards | application/game_logic.py:34-54 | 108 cards with ids 0..107 in construction order. Each colour has one 0 and two each of 1-9, Skip, Reverse and Draw Two. There are 4 Wild and 4 Wild Draw Four cards, coloured Wild |
| Catalog.DistributeCards | application/game_logic.py:57-60 | player `i` gets the slice `[7i, 7i+7)` of the deck, clamped to its length; the rest of the deck follows; hands and rest together are the deck |
| Game.FindPlayer | application/game_logic.py:85-87 | the first seat with the id, or none when no seat has it |
| Game.CardIndex | application/game_logic.py:137-139 | the first hand position with the card id, or none when the hand lacks it |
| Game.CountKept | application/game_logic.py:145-163 | keeping the id bag keeps `|deck| + |discard| + Σ|hand|` |
| Game.DrawnNone | application/game_logic.py:235-236 | a draw of zero cards changes nothing |
| Game.PopKeepsIds | application/game_logic.py:246-248 | moving the deck's top card into a hand creates and loses no card |
| Game.PoppedIsDrawn | application/game_logic.py:246-248 | a pop from a non-empty deck is one full pass of the draw loop (`DrawnOne`) |
| Game.ReshuffledThenDrawn | application/game_logic.py:236-248 | a reshuffle of the empty deck, followed by a pop or, when only the active card was left, by nothing, is one full pass of the draw loop |
| Game.DrawnManyStep | application/game_logic.py:235-248 | `k` passes of the draw loop followed by one more are `k + 1` passes: the hand gains `min(k, reachable)` cards, taken off the deck top in order while it lasts; after that the rest of the drawn cards and the deck are the cards that were under the discard top, recoloured |
| Game.DrawnPastDeck | application/game_logic.py:236-248 | the pass that finds the deck just emptied: the hand holds the whole old deck in popping order, and the further drawn cards and the new deck are the recoloured cards from under the discard top |
| Game.DrawnAfterEmpty | application/game_logic.py:236-248 | a pass after the deck ran out keeps that split: it takes the next reshuffled card, or nothing once none is reachable |
| Game.TurnEndedOutline | application/game_logic.py:104-111 | a `TurnEnded` table has the outline of `TurnOutline`: only the ending player changes and both their flags are down; their hand grows by the penalty as far as cards are reachable; no card is created or lost; the active card stays; and without a penalty the piles are untouched |
| Game.TurnEndedGrew | application/game_logic.py:104-111 | a turn end with the outline of `TurnOutline` only appends to hands and keeps every seat's id |
| Game.PenaltyThenClear | application/game_logic.py:104-111 | drawing the missed-UNO penalty through `draw_cards` (`DrawnMany`), then lowering both flags, is `TurnEnded` |
| Game.StepsResolved | application/game_logic.py:149-162 | the face effect (`FaceApplied`) followed by the final turn end, of the player after a plain face and of the victim after a skipping one, is `EffectResolved`: these exact steps, with the outline of `EffectOutline` |
| Game.EndedAfterDraw | application/game_logic.py:149-162 | for Wild Draw Four, Reverse and plain faces, `EffectOutline` holds: the next player draws the penalty (4 or none); the player's turn ends with the missed-UNO penalty drawn from what is left; the next player is otherwise untouched; nobody else changes |
| Game.PenaltyAfterVictimDrew | application/game_logic.py:104-108 | after the next player drew `k` cards, the ending player draws the missed-UNO penalty from what that draw left reachable |
| Game.EndedTwiceAfterDraw | application/game_logic.py:151-162 | for Wild Draw Eight, Draw Two and Skip, `EffectOutline` holds: the victim draws exactly `min(8 or 2, reachable)`; the player draws the missed-UNO penalty from what is left; a skipped victim draws the missed-UNO penalty left after the player's own; both turns end |
| Game.SkippedVictim | application/game_logic.py:151-162 | the hand counts of a skipping face with another victim: the victim's draw, the player's missed-UNO penalty after it, and a skipped victim's own penalty after the player's |
| Game.TwoTurnsEnded | application/game_logic.py:151-162 | two turn ends in a row, by the player and then by the skipped victim: no card created or lost, the active card kept, hands only grow, nobody else changes, both players' flags down, and the victim draws only the missed-UNO penalty the player left reachable |
| Game.DiscardKeepsIds | application/game_logic.py:145-146 | moving the played card from the hand to the discard top creates and loses nothing |
| Game.PlayedThenResolved | application/game_logic.py:145-163 | the discard step followed by an `EffectResolved` effect is `CardPlayed`: `AfterDiscard` then the steps of `EffectSteps`, with the outline of `PlayOutline` |
| Game.PlayedOutline | application/game_logic.py:145-162 | the outline of `play_card`, `PlayOutline`: the played card is the active card; hands keep their seats; the victim's draw counts come from what was reachable before the play; the player draws the missed-UNO penalty for the hand left after the play; a face that neither draws nor skips leaves the next player untouched; calm states stay calm |
| Game.RecolourKeepsIds | application/game_logic.py:173 | recolouring the active card creates and loses no card |
| Game.DrewThenEnded | application/game_logic.py:187-190 | a one-card `DrawnMany`, the raised flag, then `TurnEnded` is `CardDrawn`: these exact steps, with the outline of `DrawOutline` |
| Game.DrewOutline | application/game_logic.py:187-190 | the outline of `draw_card`, `DrawOutline`: whoever draws, the id bag and the active card are kept, hands only grow, and only the drawer and the current player change; when the drawer is the current player, the counts of `DrewOwnHand` |
| Game.DrewOwnHand | application/game_logic.py:187-190 | when the drawer is the current player: a calm table stays calm, and the hand grows by one reachable card plus the missed-UNO penalty if that leaves one card without an UNO call |
| Game.SeatedAndDealt | application/game_logic.py:72-79 | shuffled fresh records dealt a shuffled catalogue make a `Started` table: the seating, the exact clamped deal from that ordering, the catalogue split between hands and deck, calm flags, distinct ids, 7-card hands for at most 15 players, and the id bag |
| Game.SeatingFacts | application/game_logic.py:73-74 | seats hold the new records in some order; nobody is mid-turn; distinct ids stay distinct |
| Game.DealtCatalog | application/game_logic.py:76-79 | hands and deck together are the catalogue; with at most 15 players every hand has 7 cards and the deck has `108 - 7n` |
| Game.StartedHandSizes | application/game_logic.py:56-59 | after `start_game`, seat `q` holds 7 cards while the deck lasts, then the 3 left over, then none, and the deck keeps `108 - min(7n, 108)` cards; with 16 or more players the deck is empty, seats 0-14 hold 7, seat 15 holds 3 and later seats hold none |
| Game.GameLogic.constructor | application/game_logic.py:24-31 | the empty state: pointer 0, empty piles, forward direction, no players |
| Game.GameLogic.Reset | application/game_logic.py:65-70 | back to the empty state |
| Game.GameLogic.GetTopCard | application/game_logic.py:90-93 | none exactly when the discard pile is empty, otherwise its last card |
| Game.GameLogic.GetPlayerCards | application/game_logic.py:84-88 | the hand of the first seat holding that id |
| Game.GameLogic.IsWinner | application/game_logic.py:193-198 | true exactly when the first seat with the id has an empty hand |
| Game.GameLogic.CanPlayCard | application/game_logic.py:115-124 | true exactly when the discard pile is empty, or the card is coloured Wild, or it shares the top card's colour or face; the player id plays no part |
| Game.GameLogic.GetNextPlayer | application/game_logic.py:250-256 | the player at the neighbour index; with distinct ids and two or more players, someone other than the current player |
| Game.GameLogic.Reshuffle | application/game_logic.py:237-244 | `Reshuffled`: from an empty deck, the discard pile is cut to its top; the deck is a permutation of the cards under it with wild colours reset, so faces, ids and non-wild colours are kept; hands, the reachable count and the id bag are kept |
| Game.GameLogic.Pop | application/game_logic.py:246-248 | the new table is `PopTo`: the deck's last card moves to the end of the hand and nothing else changes; the turn pointer and direction are kept |
| Game.GameLogic.DrawOne | application/game_logic.py:236-248 | one pass of the draw loop satisfies `DrawnOne`. The hand gains a card exactly when one is reachable. After an empty deck, the discard pile is down to its top, and the drawn card and the new deck are the cards from under the top with wild colours reset |
| Game.GameLogic.DrawCards | application/game_logic.py:235-248 | `k` passes satisfy `DrawnMany`: the hand grows by exactly `min(k, reachable)`, off the deck top in order and then from the recoloured cards under the discard top; the id bag and the active card are kept |
| Game.GameLogic.NextTurn | application/game_logic.py:104-113 | the pointer moves to the neighbour; `TurnEnded`: a player holding one card without an UNO call draws 2 through `draw_cards`, off the deck top and then from the reshuffled pile, as `DrawnMany` states; both their flags drop; nobody else changes |
| Game.GameLogic.Discard | application/game_logic.py:145-147 | the card leaves the hand, becomes the discard top and the player is flagged |
| Game.GameLogic.DrawThenSkip | application/game_logic.py:151-160 | the next player draws `count` cards as `DrawnMany` states; then the current turn ends as `TurnEnded` states, with the penalty cards drawn off the deck; the pointer moves to the next player |
| Game.GameLogic.ApplyFace | application/game_logic.py:149-160 | `FaceApplied`: Wild Draw Four/Eight and Draw Two make the next player draw 4/8/2 through `draw_cards` (`DrawnMany`); Skip, Draw Two and Wild Draw Eight then end the current turn (`TurnEnded`); Reverse alone flips the direction |
| Game.GameLogic.ResolveEffect | application/game_logic.py:149-162 | `EffectResolved`: the tables pass through the face effect and the final turn end (`EffectSteps`), so the cards drawn are deck-top cards or reshuffled ones as `DrawnMany` states; the outline gives the victim's draw, the player's missed-UNO penalty from what is left and the skipped victim's own penalty; the pointer moves 2 seats after a skipping face and 1 otherwise, in the direction after any Reverse |
| Game.GameLogic.PlayCard | application/game_logic.py:126-163 | the four refusals, in the source's order and with its messages, leave the state unchanged; a success is `CardPlayed`: the card goes onto the discard pile, then the effect's exact steps follow, which fixes the deck and the discard pile below the top; the outline gives the counts; the direction is flipped only by Reverse and the pointer advances 1 or 2 seats |
| Game.GameLogic.PlayAt | application/game_logic.py:145-163 | the success path of `play_card`: `CardPlayed`, the direction flipped only by Reverse, and the pointer advanced 1 or 2 seats |
| Game.GameLogic.DrawCard | application/game_logic.py:176-191 | the two refusals leave the state unchanged; a success is `CardDrawn`: the drawn card is the deck top, or after an empty deck a reshuffled card, as the one-card `DrawnMany` states; then the flag and `TurnEnded` follow; the active card is kept and the pointer moves to the neighbour |
| Game.GameLogic.DrawAndFlag | application/game_logic.py:187-188 | player `p` draws one card as `DrawnMany` states, then only `p`'s played flag is raised (`Flagged`) |
| Game.GameLogic.TakeOneAndPass | application/game_logic.py:187-190 | draw one card, raise the flag and end the turn: `CardDrawn`, whose steps name the drawn card, with the pointer on the next player |
| Game.GameLogic.SayUno | application/game_logic.py:200-212 | refused when UNO was already called or the hand does not hold exactly two cards; otherwise only that player's UNO flag is raised |
| Game.GameLogic.ChangeWildCardColor | application/game_logic.py:165-174 | refused unless the id names the discard top; otherwise only the top's colour changes, and every card of the new colour becomes playable |
| Game.GameLogic.ActivateCheatCode | application/game_logic.py:214-233 | refused before a game starts; otherwise exactly one Wild card with the cheat's face is appended to that hand, and the id bag grows by its id |
| Game.GameLogic.StartGame | application/game_logic.py:72-79 | `Started`: seats are a permutation of new records; some ordering of the catalogue was dealt from its front, seat `q` getting its clamped 7-card slice, and the remainder is the deck; hands plus deck are a permutation of the catalogue; nobody is mid-turn; distinct ids give distinct seats; with n <= 15 there are 7-card hands and `108 - 7n` deck cards; the discard pile, the direction and the pointer are unchanged |

## Left out

- `get_players`, `get_deck_cards`, `get_discard_cards`, `is_reversed` and `get_current_player` are plain reads of `players`, `deck`, `discard`, `reversed` and `players[currentPlayerIndex]`. Sequences are values here, so the copies they return need no model.
- The `print(top_card)` in `can_play_card` is console output.
- The distribution of `random.randint` is not modelled. The shuffle's swap index is a nondeterministic choice. The cheat card's id is a parameter in 10000..10000000.
- The "Invalid cheat code" branch of `activate_cheat_code` needs a cheat value outside the enum. The enum is closed here.
- `change_wild_card_color` accepts any colour string in the source; here the colour is one of the `Color` values.
- `next_turn` finds the next seat with `players.index`, by record equality. The model uses the neighbour index directly. The two differ only when two seats hold equal records, which needs equal ids.
- The source reaches player records through shared references to the same dicts. The model reaches them by seat index. Each record sits in exactly one seat, so the effect is the same.
- `draw_cards` with a negative count does nothing in the source; here the count is a `nat`. The engine only passes 1, 2, 4 and 8.
- Game.GameLogic.PlayCard: in the outline, the victim's exact draw count, the player's own hand count and the preservation of `Calm` are stated only when the playing seat is the current seat. Distinct ids guarantee this, as StartGame provides for distinct input ids. The steps in `CardPlayed` hold in every case.
- Game.GameLogic.DrawCard: in the outline, the drawn count and the preservation of `Calm` are stated only when the drawing seat is the current seat, for the same reason. The steps in `CardDrawn` hold in every case.
- Game.GameLogic.ResolveEffect: in the outline, the victim's counts and the player's own hand count are stated for a roster of two or more players. The steps in `EffectResolved` also cover a single player, who is then their own victim.
- The Discord interface (`commands/game_ui.py`) and the bot start-up (`main.py`) are not part of this model.
