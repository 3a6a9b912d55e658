/**
 * The rules engine of application/game_logic.py: one game's mutable state and
 * the commands and queries that read and change it.
 */
module Game {
  import opened Types
  import opened Outcomes
  import opened Piles
  import opened Turns
  import Shuffling
  import Catalog

  /** The first player with this id: the `next(p for p in players if p["id"] == id)` lookup. */
  function FindPlayer(players: seq<Player>, id: string): (r: Option<nat>)
    ensures r.Some? ==> r.value < |players| && players[r.value].id == id
    ensures r.Some? ==> forall j :: 0 <= j < r.value ==> players[j].id != id
    ensures r.None? ==> forall j :: 0 <= j < |players| ==> players[j].id != id
  {
    if players == [] then None
    else if players[0].id == id then Some(0)
    else match FindPlayer(players[1..], id)
      case None => None
      case Some(k) => Some(k + 1)
  }

  /** The position of the first card with this id in a hand, as `play_card` looks it up. */
  function CardIndex(hand: seq<Card>, cardId: int): (r: Option<nat>)
    ensures r.Some? ==> r.value < |hand| && hand[r.value].id == cardId
    ensures r.Some? ==> forall j :: 0 <= j < r.value ==> hand[j].id != cardId
    ensures r.None? ==> forall j :: 0 <= j < |hand| ==> hand[j].id != cardId
  {
    if hand == [] then None
    else if hand[0].id == cardId then Some(0)
    else match CardIndex(hand[1..], cardId)
      case None => None
      case Some(k) => Some(k + 1)
  }

  /** Faces after which an extra `next_turn` passes over the next player. */
  predicate SkipsNext(f: Face) {
    f == Skip || f == DrawTwo || f == WildDrawEight
  }

  /** How many cards the next player is made to draw after a card with this face. */
  function DrawPenalty(f: Face): nat {
    match f
    case DrawTwo => 2
    case WildDrawFour => 4
    case WildDrawEight => 8
    case _ => 0
  }

  /** The face of the card a cheat code mints. */
  function CheatFace(cheat: GameCheat): Face {
    match cheat
    case GiveWildFour => WildDrawFour
    case GiveWildEight => WildDrawEight
  }

  /** The player records `start_game` builds: empty hand, both flags down. */
  function FreshPlayers(ids: seq<string>): seq<Player> {
    seq(|ids|, i requires 0 <= i < |ids| => Player([], false, false, ids[i]))
  }

  /** The roster with every hand emptied: who plays, in which order, with which flags. */
  function Unhanded(players: seq<Player>): seq<Player> {
    seq(|players|, i requires 0 <= i < |players| => players[i].(hand := []))
  }

  /** Where every card of a game is: the draw pile, the discard pile and the hands. */
  datatype Table = Table(deck: seq<Card>, discard: seq<Card>, players: seq<Player>)
  {
    /** The cards a draw can still reach: the deck and everything under the discard top. */
    function Available(): nat {
      |deck| + |UnderTop(discard)|
    }

    /** The ids of every card on the table. */
    function IdBag(): multiset<int> {
      multiset(Ids(deck)) + multiset(Ids(discard)) + multiset(Ids(Hands(players)))
    }
  }

  /**
   * Keeping the ids of every card keeps the number of cards on the table:
   * `|deck| + |discard|` plus the sizes of all hands.
   */
  lemma CountKept(t0: Table, t1: Table)
    requires t1.IdBag() == t0.IdBag()
    ensures |t1.deck| + |t1.discard| + |Hands(t1.players)| == |t0.deck| + |t0.discard| + |Hands(t0.players)|
  {
    assert |t1.IdBag()| == |t0.IdBag()|;
  }

  /**
   * What one pass of the `draw_cards` loop does for player `p`, from table
   * `t0` to table `t1`: if the deck is empty, everything under the discard top
   * becomes the deck with wild colours reset; then, if the deck has a card,
   * its top card goes to the end of the hand. Nothing is created or lost and
   * the active card stays; after a reshuffle, the drawn card and the new deck
   * are the cards that were under the top, recoloured.
   */
  predicate DrawnOne(t0: Table, t1: Table, p: nat) {
    && HandGrown(t1.players, t0.players, p)
    && |t1.players[p].hand| == |t0.players[p].hand| + (if t0.Available() == 0 then 0 else 1)
    && t1.Available() == (if t0.Available() == 0 then 0 else t0.Available() - 1)
    && t1.IdBag() == t0.IdBag()
    && TopOnly(t1.discard) == TopOnly(t0.discard)
    && (t0.deck != [] ==>
          && t1.deck == t0.deck[..|t0.deck| - 1] && t1.discard == t0.discard
          && t1.players[p].hand == t0.players[p].hand + [t0.deck[|t0.deck| - 1]])
    && (t0.deck == [] ==>
          && t1.discard == TopOnly(t0.discard) && WildColorsReset(t1.deck)
          && multiset(t1.players[p].hand) + multiset(t1.deck)
             == multiset(t0.players[p].hand) + multiset(MapSeq(UnderTop(t0.discard), WildReset)))
    && (WildColorsReset(t0.deck) ==> WildColorsReset(t1.deck))
  }

  /** The `pop` half of a draw, on values: the deck's top card moves to the end of player `p`'s hand. */
  function PopTo(t: Table, p: nat): Table
    requires p < |t.players| && t.deck != []
  {
    var card := t.deck[|t.deck| - 1];
    Table(t.deck[..|t.deck| - 1], t.discard, t.players[p := t.players[p].(hand := t.players[p].hand + [card])])
  }

  lemma PopKeepsIds(t: Table, p: nat)
    requires p < |t.players| && t.deck != []
    ensures PopTo(t, p).IdBag() == t.IdBag()
  {
    var card := t.deck[|t.deck| - 1];
    assert t.deck == t.deck[..|t.deck| - 1] + [card];
    IdsConcat(t.deck[..|t.deck| - 1], [card]);
    HandsAppend(t.players, p, card);
  }

  /** A pop off a non-empty deck is one pass of the draw loop. */
  lemma PoppedIsDrawn(t: Table, p: nat)
    requires p < |t.players| && t.deck != []
    ensures DrawnOne(t, PopTo(t, p), p)
  {
    PopKeepsIds(t, p);
    var t1 := PopTo(t, p);
    assert Extends(t1.players[p].hand, t.players[p].hand);
  }

  /**
   * The reshuffle of `draw_cards` on an empty deck, from `t0` to `t1`: the
   * discard pile is cut to its top, the cards under it become the deck in
   * some order with their wild colours reset and all else kept, and nobody's
   * hand changes.
   */
  predicate Reshuffled(t0: Table, t1: Table) {
    && t0.deck == []
    && t1.discard == TopOnly(t0.discard)
    && multiset(t1.deck) == multiset(MapSeq(UnderTop(t0.discard), WildReset))
    && multiset(Ids(t1.deck)) == multiset(Ids(UnderTop(t0.discard)))
    && WildColorsReset(t1.deck)
    && t1.players == t0.players
    && t1.Available() == t0.Available()
    && t1.IdBag() == t0.IdBag()
  }

  /** A reshuffle followed by a pop, when the new deck has a card, is one pass of the draw loop. */
  lemma ReshuffledThenDrawn(t0: Table, t1: Table, t2: Table, p: nat)
    requires Reshuffled(t0, t1) && p < |t0.players|
    requires if t1.deck == [] then t2 == t1 else t2 == PopTo(t1, p)
    ensures DrawnOne(t0, t2, p)
  {
    assert TopOnly(t1.discard) == TopOnly(t0.discard);
    if t1.deck == [] {
      assert Extends(t2.players[p].hand, t0.players[p].hand);
      assert HandGrown(t2.players, t0.players, p);
    } else {
      PoppedIsDrawn(t1, p);
      PopKeepsSplit(t1.players[p].hand, t2.players[p].hand, t1.deck, t2.deck);
    }
  }

  /**
   * What `draw_cards(p, k)` does: the hand grows by as many cards as were
   * reachable, up to `k`; while the deck lasts the cards come off its top in
   * order and the discard pile is untouched. Once it ran out, the hand had
   * taken the whole deck in popping order, the discard pile is down to its top
   * card, and the cards that were under the top, with wild colours reset and
   * all else kept, are now split between the rest of the drawn cards and the
   * deck.
   */
  predicate DrawnMany(t0: Table, t: Table, p: nat, k: nat) {
    && HandGrown(t.players, t0.players, p)
    && |t.players[p].hand| == |t0.players[p].hand| + Min(k, t0.Available())
    && t.Available() == t0.Available() - Min(k, t0.Available())
    && t.IdBag() == t0.IdBag()
    && TopOnly(t.discard) == TopOnly(t0.discard)
    && (k <= |t0.deck| ==>
          && t.deck == t0.deck[..|t0.deck| - k] && t.discard == t0.discard
          && t.players[p].hand == t0.players[p].hand + TakeTop(t0.deck, k))
    && (|t0.deck| < k ==>
          var emptied := t0.players[p].hand + TakeTop(t0.deck, |t0.deck|);
          && t.discard == TopOnly(t0.discard) && WildColorsReset(t.deck)
          && Extends(t.players[p].hand, emptied)
          && multiset(t.players[p].hand) + multiset(t.deck)
             == multiset(emptied) + multiset(MapSeq(UnderTop(t0.discard), WildReset)))
  }

  /** Drawing nothing changes nothing. */
  lemma DrawnNone(t0: Table, p: nat)
    requires p < |t0.players|
    ensures DrawnMany(t0, t0, p, 0)
  {
    assert TakeTop(t0.deck, 0) == [];
    assert t0.deck[..|t0.deck| - 0] == t0.deck;
  }

  /** `k` draws followed by one more are `k + 1` draws. */
  lemma DrawnManyStep(t0: Table, t1: Table, t2: Table, p: nat, k: nat)
    requires DrawnMany(t0, t1, p, k) && DrawnOne(t1, t2, p)
    ensures DrawnMany(t0, t2, p, k + 1)
  {
    HandGrownTrans(t2.players, t1.players, t0.players, p);
    if k < |t0.deck| {
      DrawnFromDeck(t0, t1, t2, p, k);
    } else if k == |t0.deck| {
      assert t1.deck == [];
      DrawnPastDeck(t0, t1, t2, p, k);
    } else {
      assert TopOnly(TopOnly(t0.discard)) == TopOnly(t0.discard);
      DrawnAfterEmpty(t0, t1, t2, p, k);
    }
  }

  /** The deck part of `DrawnManyStep` while the deck lasts: the cards come off its top in order. */
  lemma DrawnFromDeck(t0: Table, t1: Table, t2: Table, p: nat, k: nat)
    requires k < |t0.deck|
    requires DrawnMany(t0, t1, p, k) && DrawnOne(t1, t2, p)
    ensures t2.deck == t0.deck[..|t0.deck| - (k + 1)] && t2.discard == t0.discard
    ensures t2.players[p].hand == t0.players[p].hand + TakeTop(t0.deck, k + 1)
  {
    TakeTopStep(t0.deck, k);
    assert t1.deck[..|t1.deck| - 1] == t0.deck[..|t0.deck| - (k + 1)];
  }

  /** The draw that finds the deck just emptied reshuffles the cards under the top. */
  lemma DrawnPastDeck(t0: Table, t1: Table, t2: Table, p: nat, k: nat)
    requires k == |t0.deck|
    requires DrawnMany(t0, t1, p, k) && DrawnOne(t1, t2, p)
    ensures var emptied := t0.players[p].hand + TakeTop(t0.deck, |t0.deck|);
      && Extends(t2.players[p].hand, emptied)
      && multiset(t2.players[p].hand) + multiset(t2.deck)
         == multiset(emptied) + multiset(MapSeq(UnderTop(t0.discard), WildReset))
  {
    assert t1.deck == [] && t1.players[p].hand == t0.players[p].hand + TakeTop(t0.deck, |t0.deck|);
  }

  /**
   * A draw after the deck ran out takes the next reshuffled card, or nothing
   * once those are gone too: the discard pile then holds only its top card.
   */
  lemma DrawnAfterEmpty(t0: Table, t1: Table, t2: Table, p: nat, k: nat)
    requires |t0.deck| < k
    requires DrawnMany(t0, t1, p, k) && DrawnOne(t1, t2, p)
    ensures var emptied := t0.players[p].hand + TakeTop(t0.deck, |t0.deck|);
      && Extends(t2.players[p].hand, emptied)
      && multiset(t2.players[p].hand) + multiset(t2.deck)
         == multiset(emptied) + multiset(MapSeq(UnderTop(t0.discard), WildReset))
  {
    var emptied := t0.players[p].hand + TakeTop(t0.deck, |t0.deck|);
    var h1, h2 := t1.players[p].hand, t2.players[p].hand;
    ExtendsTrans(h2, h1, emptied);
    if t1.deck == [] {
      assert UnderTop(t1.discard) == [];
      NothingLeftToDraw(h1, h2, t2.deck);
    } else {
      PopKeepsSplit(h1, h2, t1.deck, t2.deck);
    }
  }

  /** Popping the deck's top card onto the hand keeps the cards in hand and deck together. */
  lemma PopKeepsSplit(h1: seq<Card>, h2: seq<Card>, d1: seq<Card>, d2: seq<Card>)
    requires d1 != []
    requires h2 == h1 + [d1[|d1| - 1]] && d2 == d1[..|d1| - 1]
    ensures multiset(h2) + multiset(d2) == multiset(h1) + multiset(d1)
  {
    assert d1 == d2 + [d1[|d1| - 1]];
  }

  /** A draw that found no card anywhere added nothing to the hand and left the deck empty. */
  lemma NothingLeftToDraw(h1: seq<Card>, h2: seq<Card>, d2: seq<Card>)
    requires Extends(h2, h1)
    requires multiset(h2) + multiset(d2) == multiset(h1) + multiset(MapSeq([], WildReset))
    ensures h2 == h1 && d2 == []
  {
    assert MapSeq([], WildReset) == [];
    assert |multiset(h2) + multiset(d2)| == |multiset(h1)|;
    assert |h2| + |d2| == |h1|;
    assert h2 == h2[..|h1|];
  }

  /** The missed-UNO penalty of `next_turn`: one card left and no UNO call costs 2 cards. */
  function UnoPenalty(pl: Player): nat {
    if |pl.hand| == 1 && !pl.hasSaidUno then 2 else 0
  }

  /** Player `c` with both per-turn flags lowered. */
  function ClearFlags(players: seq<Player>, c: nat): seq<Player>
    requires c < |players|
  {
    players[c := players[c].(hasPlayedCard := false, hasSaidUno := false)]
  }

  /** Table `t` with player `c`'s two flags set as `pl` has them. */
  function FlagsAs(t: Table, c: nat, pl: Player): Table
    requires c < |t.players|
  {
    t.(players := t.players[c := t.players[c].(hasPlayedCard := pl.hasPlayedCard, hasSaidUno := pl.hasSaidUno)])
  }

  /**
   * The table after player `c` ends a turn: `c` draws the missed-UNO penalty
   * through `draw_cards`, as `DrawnMany` states, and loses both flags.
   */
  predicate TurnEnded(t0: Table, t1: Table, c: nat) {
    && c < |t0.players| == |t1.players|
    && !t1.players[c].hasPlayedCard && !t1.players[c].hasSaidUno
    && DrawnMany(t0, FlagsAs(t1, c, t0.players[c]), c, UnoPenalty(t0.players[c]))
  }

  /**
   * What ending a turn keeps and changes: nobody but `c` changes and `c`'s
   * flags are down; `c`'s hand only grows, by the missed-UNO penalty as far as
   * cards are reachable; nothing is created or lost, the active card stays,
   * and without a penalty the piles are untouched.
   */
  predicate TurnOutline(t0: Table, t1: Table, c: nat) {
    && c < |t0.players| == |t1.players|
    && t1.players == t0.players[c := t0.players[c].(hand := t1.players[c].hand, hasPlayedCard := false, hasSaidUno := false)]
    && Extends(t1.players[c].hand, t0.players[c].hand)
    && |t1.players[c].hand| == |t0.players[c].hand| + Min(UnoPenalty(t0.players[c]), t0.Available())
    && t1.Available() == t0.Available() - Min(UnoPenalty(t0.players[c]), t0.Available())
    && t1.IdBag() == t0.IdBag()
    && TopOnly(t1.discard) == TopOnly(t0.discard)
    && (UnoPenalty(t0.players[c]) == 0 ==> t1.deck == t0.deck && t1.discard == t0.discard)
  }

  lemma TurnEndedOutline(t0: Table, t1: Table, c: nat)
    requires TurnEnded(t0, t1, c)
    ensures TurnOutline(t0, t1, c)
  {
    var u := FlagsAs(t1, c, t0.players[c]);
    HandsKeep(t1.players, c, u.players[c]);
    assert t1.players[c] == t0.players[c].(hand := t1.players[c].hand, hasPlayedCard := false, hasSaidUno := false);
    assert t1.players == u.players[c := t1.players[c]];
    if UnoPenalty(t0.players[c]) == 0 {
      assert u.deck == t0.deck[..|t0.deck| - 0];
    }
  }

  /** Ending a turn only grows hands. */
  lemma TurnEndedGrew(t0: Table, t1: Table, c: nat)
    requires TurnOutline(t0, t1, c)
    ensures HandsOnlyGrew(t1.players, t0.players)
  {
    forall q | 0 <= q < |t1.players|
      ensures Extends(t1.players[q].hand, t0.players[q].hand)
    {
      if q != c {
        assert t1.players[q] == t0.players[q];
      }
    }
  }

  /** Drawing the penalty and then lowering the flags is ending the turn. */
  lemma PenaltyThenClear(t0: Table, t1: Table, t2: Table, c: nat)
    requires c < |t0.players| && DrawnMany(t0, t1, c, UnoPenalty(t0.players[c]))
    requires t2 == Table(t1.deck, t1.discard, ClearFlags(t1.players, c))
    ensures TurnEnded(t0, t2, c)
  {
    assert FlagsAs(t2, c, t0.players[c]).players == t1.players;
  }

  /**
   * The tables the face effect of `play_card` passes through, for a card with
   * face `face` played by the current player `c` with `v` next: `v` draws the
   * face's penalty (`t0` to `t1`); after a skipping face `c`'s turn then ends
   * (`t1` to `t2`), after any other face nothing more happens.
   */
  predicate FaceApplied(t0: Table, t1: Table, t2: Table, c: nat, v: nat, face: Face) {
    && v < |t0.players|
    && DrawnMany(t0, t1, v, DrawPenalty(face))
    && if SkipsNext(face) then TurnEnded(t1, t2, c) else t2 == t1
  }

  /**
   * The face effect followed by the final `next_turn` of `play_card`: after a
   * skipping face it ends `v`'s turn, after any other face `c`'s.
   */
  predicate EffectSteps(t0: Table, t1: Table, t2: Table, t3: Table, c: nat, v: nat, face: Face) {
    && FaceApplied(t0, t1, t2, c, v, face)
    && TurnEnded(t2, t3, if SkipsNext(face) then v else c)
  }

  /**
   * The table after the effect of a card with face `face` played by the
   * current player `c`, with `v` the next player at the time of playing: hands
   * only grew and nobody else changed; nothing was created or lost and the
   * active card stayed; `c`'s flags are down. When `v` is another player, `v`
   * drew the card's penalty as far as cards were reachable, and `c` then drew
   * the missed-UNO penalty from what was left; a Skip ends `v`'s turn too, so
   * a skipped `v` holding one card draws the missed-UNO penalty after `c`'s
   * own; a skipping face lowers `v`'s flags, any other face keeps them.
   */
  predicate EffectOutline(t0: Table, t1: Table, c: nat, v: nat, face: Face) {
    && c < |t0.players| && v < |t0.players|
    && HandsOnlyGrew(t1.players, t0.players)
    && t1.IdBag() == t0.IdBag() && TopOnly(t1.discard) == TopOnly(t0.discard)
    && !t1.players[c].hasPlayedCard && !t1.players[c].hasSaidUno
    && (forall q :: 0 <= q < |t1.players| && q != c && q != v ==> t1.players[q] == t0.players[q])
    && (v != c ==>
          && |t1.players[c].hand| == |t0.players[c].hand| + Min(UnoPenalty(t0.players[c]),
               t0.Available() - Min(DrawPenalty(face), t0.Available()))
          && (DrawPenalty(face) > 0 ==>
                |t1.players[v].hand| == |t0.players[v].hand| + Min(DrawPenalty(face), t0.Available()))
          && (face == Skip ==>
                |t1.players[v].hand| == |t0.players[v].hand| + Min(UnoPenalty(t0.players[v]),
                  t0.Available() - Min(UnoPenalty(t0.players[c]), t0.Available())))
          && (DrawPenalty(face) == 0 && face != Skip ==> t1.players[v].hand == t0.players[v].hand)
          && (SkipsNext(face) ==> !t1.players[v].hasPlayedCard && !t1.players[v].hasSaidUno)
          && (!SkipsNext(face) ==> t1.players[v] == t0.players[v].(hand := t1.players[v].hand)))
  }

  /**
   * The effect of a card with face `face` played by the current player `c`
   * with `v` next: the tables pass through the steps of `EffectSteps`, and
   * the outcome has the outline of `EffectOutline`.
   */
  ghost predicate EffectResolved(t0: Table, t3: Table, c: nat, v: nat, face: Face) {
    && (exists drawn: Table, ended: Table :: EffectSteps(t0, drawn, ended, t3, c, v, face))
    && EffectOutline(t0, t3, c, v, face)
  }

  /** The steps of a card's effect have the outline `EffectOutline` states. */
  lemma StepsResolved(t0: Table, t1: Table, t2: Table, t3: Table, c: nat, v: nat, w: nat, face: Face)
    requires c < |t0.players| && FaceApplied(t0, t1, t2, c, v, face)
    requires w == (if SkipsNext(face) then v else c) && TurnEnded(t2, t3, w)
    ensures EffectResolved(t0, t3, c, v, face)
  {
    assert EffectSteps(t0, t1, t2, t3, c, v, face);
    if SkipsNext(face) {
      TurnEndedOutline(t1, t2, c);
      TurnEndedOutline(t2, t3, v);
      EndedTwiceAfterDraw(t0, t1, t2, t3, c, v, face);
    } else {
      TurnEndedOutline(t1, t3, c);
      EndedAfterDraw(t0, t1, t3, c, v, face);
    }
  }

  /** A non-skipping face: `v` draws its penalty (none but for Wild Draw Four), then `c`'s turn ends. */
  lemma EndedAfterDraw(t0: Table, t1: Table, t2: Table, c: nat, v: nat, face: Face)
    requires c < |t0.players| && v < |t0.players| && !SkipsNext(face)
    requires DrawnMany(t0, t1, v, DrawPenalty(face)) && TurnOutline(t1, t2, c)
    ensures EffectOutline(t0, t2, c, v, face)
  {
    HandGrownOnly(t1.players, t0.players, v);
    TurnEndedGrew(t1, t2, c);
    HandsOnlyGrewTrans(t2.players, t1.players, t0.players);
    if v != c {
      PenaltyAfterVictimDrew(t0, t1, t2, c, v, DrawPenalty(face));
      if DrawPenalty(face) == 0 {
        assert t1.players[v].hand == t0.players[v].hand + TakeTop(t0.deck, 0);
      }
    }
  }

  /**
   * After `v` drew `k` cards, another player `c` ending the turn draws the
   * missed-UNO penalty from what `v` left reachable.
   */
  lemma PenaltyAfterVictimDrew(t0: Table, t1: Table, t2: Table, c: nat, v: nat, k: nat)
    requires c < |t0.players| && v < |t0.players| && v != c
    requires DrawnMany(t0, t1, v, k) && TurnOutline(t1, t2, c)
    ensures |t2.players[c].hand| == |t0.players[c].hand| + Min(UnoPenalty(t0.players[c]), t0.Available() - Min(k, t0.Available()))
  {
    assert t1.players[c] == t0.players[c];
  }

  /**
   * Player `c` ends a turn and then player `v` ends one: hands only grew,
   * only `c` and `v` changed and both have their flags down; `v` drew the
   * missed-UNO penalty from what `c`'s penalty left reachable.
   */
  lemma TwoTurnsEnded(t1: Table, t2: Table, t3: Table, c: nat, v: nat)
    requires TurnOutline(t1, t2, c) && TurnOutline(t2, t3, v)
    ensures HandsOnlyGrew(t3.players, t1.players)
    ensures t3.IdBag() == t1.IdBag() && TopOnly(t3.discard) == TopOnly(t1.discard)
    ensures forall q :: 0 <= q < |t3.players| && q != c && q != v ==> t3.players[q] == t1.players[q]
    ensures !t3.players[c].hasPlayedCard && !t3.players[c].hasSaidUno
    ensures !t3.players[v].hasPlayedCard && !t3.players[v].hasSaidUno
    ensures v != c ==>
      && t2.players[v] == t1.players[v] && t3.players[c] == t2.players[c]
      && |t3.players[v].hand| == |t1.players[v].hand| + Min(UnoPenalty(t1.players[v]),
           t1.Available() - Min(UnoPenalty(t1.players[c]), t1.Available()))
  {
    TurnEndedGrew(t1, t2, c);
    TurnEndedGrew(t2, t3, v);
    HandsOnlyGrewTrans(t3.players, t2.players, t1.players);
  }

  /**
   * A skipping face: `v` draws its penalty (none for a Skip), `c`'s turn ends,
   * then `v`'s turn ends. After a Draw Two or a Wild Draw Eight the victim can
   * only hold a single card when no card was left to draw, so their own
   * missed-UNO penalty adds nothing.
   */
  lemma EndedTwiceAfterDraw(t0: Table, t1: Table, t2: Table, t3: Table, c: nat, v: nat, face: Face)
    requires c < |t0.players| && v < |t0.players| && SkipsNext(face)
    requires DrawnMany(t0, t1, v, DrawPenalty(face)) && TurnOutline(t1, t2, c) && TurnOutline(t2, t3, v)
    ensures EffectOutline(t0, t3, c, v, face)
  {
    TwoTurnsEnded(t1, t2, t3, c, v);
    HandGrownOnly(t1.players, t0.players, v);
    HandsOnlyGrewTrans(t3.players, t1.players, t0.players);
    if v != c {
      SkippedVictim(t0, t1, t2, t3, c, v, face);
    }
  }

  /** The counts of `EndedTwiceAfterDraw` when the victim is another player. */
  lemma SkippedVictim(t0: Table, t1: Table, t2: Table, t3: Table, c: nat, v: nat, face: Face)
    requires c < |t0.players| && v < |t0.players| && v != c && SkipsNext(face)
    requires DrawnMany(t0, t1, v, DrawPenalty(face)) && TurnOutline(t1, t2, c) && TurnOutline(t2, t3, v)
    ensures |t3.players[c].hand| == |t0.players[c].hand| + Min(UnoPenalty(t0.players[c]),
              t0.Available() - Min(DrawPenalty(face), t0.Available()))
    ensures DrawPenalty(face) > 0 ==>
              |t3.players[v].hand| == |t0.players[v].hand| + Min(DrawPenalty(face), t0.Available())
    ensures face == Skip ==>
              |t3.players[v].hand| == |t0.players[v].hand| + Min(UnoPenalty(t0.players[v]),
                t0.Available() - Min(UnoPenalty(t0.players[c]), t0.Available()))
  {
    PenaltyAfterVictimDrew(t0, t1, t2, c, v, DrawPenalty(face));
    TwoTurnsEnded(t1, t2, t3, c, v);
    assert t1.players[c] == t0.players[c];
    if face == Skip {
      assert t1.players[v].hand == t0.players[v].hand + TakeTop(t0.deck, 0);
    } else {
      VictimDrawsNoMore(|t0.players[v].hand|, t0.Available(), DrawPenalty(face),
                        t1.players[v], t1.Available(), UnoPenalty(t1.players[c]));
    }
  }

  /**
   * A victim of Draw Two or Wild Draw Eight who is left holding one card drew
   * the last reachable card, so ending their turn draws nothing more.
   */
  lemma VictimDrawsNoMore(held: nat, reachable: nat, k: nat, victim: Player, left: nat, spent: nat)
    requires k >= 2 && |victim.hand| == held + Min(k, reachable) && left == reachable - Min(k, reachable)
    ensures Min(UnoPenalty(victim), left - Min(spent, left)) == 0
  {
  }

  /**
   * What a successful `draw_card` does to the table, with `p` the drawing
   * player and `c` the current one: nothing is created or lost and the
   * active card stays; hands only grow and only `p` and `c` change; `c` ends
   * the turn with UNO uncalled. When `p` is `c`, nobody is left mid-turn, and
   * `c` draws one card if one is reachable and then, if that leaves exactly
   * one card without an UNO call, the missed-UNO penalty.
   */
  predicate DrawOutline(t0: Table, t3: Table, p: nat, c: nat) {
    && p < |t0.players| && c < |t0.players|
    && t3.IdBag() == t0.IdBag() && TopOnly(t3.discard) == TopOnly(t0.discard)
    && HandsOnlyGrew(t3.players, t0.players)
    && (forall q :: 0 <= q < |t3.players| && q != p && q != c ==> t3.players[q] == t0.players[q])
    && !t3.players[c].hasSaidUno
    && (p == c ==>
          var held := |t0.players[c].hand| + Min(1, t0.Available());
          && (Calm(t0.players) ==> Calm(t3.players))
          && |t3.players[c].hand| == held + (if held == 1 && !t0.players[c].hasSaidUno
                                             then Min(2, t0.Available() - Min(1, t0.Available())) else 0))
  }

  /** Table `t` with player `p`'s played flag raised, as `draw_card` does after the draw. */
  function Flagged(t: Table, p: nat): Table
    requires p < |t.players|
  {
    t.(players := t.players[p := t.players[p].(hasPlayedCard := true)])
  }

  /**
   * What a successful `draw_card` does, step by step: `p` draws one card
   * through `draw_cards`, as `DrawnMany` states, `p`'s played flag goes up,
   * and `c`'s turn ends as `TurnEnded` states; the outcome has the outline
   * of `DrawOutline`.
   */
  ghost predicate CardDrawn(t0: Table, t3: Table, p: nat, c: nat) {
    && (exists drawn: Table :: p < |drawn.players| && DrawnMany(t0, drawn, p, 1) && TurnEnded(Flagged(drawn, p), t3, c))
    && DrawOutline(t0, t3, p, c)
  }

  /** Drawing one card, raising the played flag and ending `c`'s turn is `draw_card`. */
  lemma DrewThenEnded(t0: Table, t1: Table, t3: Table, p: nat, c: nat)
    requires p < |t0.players| && c < |t0.players|
    requires DrawnMany(t0, t1, p, 1) && TurnEnded(Flagged(t1, p), t3, c)
    ensures CardDrawn(t0, t3, p, c)
  {
    TurnEndedOutline(Flagged(t1, p), t3, c);
    DrewOutline(t0, t1, t3, p, c);
  }

  /**
   * The outline of `draw_card`: the draw keeps the id bag and the top card
   * and only grows `p`'s hand; raising the flag and ending the turn change
   * only `p` and `c`.
   */
  lemma DrewOutline(t0: Table, t1: Table, t3: Table, p: nat, c: nat)
    requires p < |t0.players| && c < |t0.players|
    requires DrawnMany(t0, t1, p, 1) && TurnOutline(Flagged(t1, p), t3, c)
    ensures DrawOutline(t0, t3, p, c)
  {
    var t2 := Flagged(t1, p);
    HandsKeep(t1.players, p, t2.players[p]);
    HandGrownOnly(t1.players, t0.players, p);
    SameHandGrew(t1.players, p, t2.players[p]);
    TurnEndedGrew(t2, t3, c);
    HandsOnlyGrewTrans(t2.players, t1.players, t0.players);
    HandsOnlyGrewTrans(t3.players, t2.players, t0.players);
    if p == c {
      DrewOwnHand(t0, t1, t3, c);
    }
  }

  /**
   * When the current player draws: the flag raised by the draw is lowered
   * again, and the hand grows by the reachable card plus the penalty.
   */
  lemma DrewOwnHand(t0: Table, t1: Table, t3: Table, c: nat)
    requires c < |t0.players|
    requires DrawnMany(t0, t1, c, 1) && TurnOutline(Flagged(t1, c), t3, c)
    ensures var held := |t0.players[c].hand| + Min(1, t0.Available());
      && (Calm(t0.players) ==> Calm(t3.players))
      && |t3.players[c].hand| == held + (if held == 1 && !t0.players[c].hasSaidUno
                                         then Min(2, t0.Available() - Min(1, t0.Available())) else 0)
  {
    var t2 := Flagged(t1, c);
    HandsKeep(t1.players, c, t2.players[c]);
    assert t2.Available() == t1.Available();
    if Calm(t0.players) {
      forall q | 0 <= q < |t3.players|
        ensures !t3.players[q].hasPlayedCard
      {
        if q != c {
          assert t3.players[q] == t2.players[q] == t1.players[q];
          assert t1.players[q].hasPlayedCard == t0.players[q].hasPlayedCard;
        }
      }
    }
  }

  /** The table right after `play_card` moves card `i` of hand `p` onto the discard pile and flags `p`. */
  function AfterDiscard(t0: Table, p: nat, i: nat): Table
    requires p < |t0.players| && i < |t0.players[p].hand|
  {
    Table(t0.deck, t0.discard + [t0.players[p].hand[i]],
          t0.players[p := t0.players[p].(hand := RemoveAt(t0.players[p].hand, i), hasPlayedCard := true)])
  }

  /** Moving a card from a hand to the discard pile neither creates nor loses a card. */
  lemma DiscardKeepsIds(t0: Table, p: nat, i: nat)
    requires p < |t0.players| && i < |t0.players[p].hand|
    ensures AfterDiscard(t0, p, i).IdBag() == t0.IdBag()
  {
    var q := AfterDiscard(t0, p, i).players[p];
    HandsRemove(t0.players, p, i, q);
    IdsConcat(t0.discard, [t0.players[p].hand[i]]);
  }

  /**
   * What a successful `play_card` does to the table, for card `i` of player
   * `p` played while `c` is current and `v` is next: nothing is created or
   * lost; the played card is the active card; seats keep their ids; `p`'s
   * hand lost that card and otherwise only grew, the others only grew; only
   * `p`, `c` and `v` change; `c` ends with UNO uncalled. When `p` is `c`:
   * nobody is left mid-turn; when `v` is another player, `v` draws the
   * card's penalty from the cards reachable before the play, `c` then draws
   * the missed-UNO penalty for the hand left after the play from what remains,
   * a skipped `v` draws the missed-UNO penalty after `c`'s own, and after a
   * face that neither draws nor skips `v` is untouched.
   */
  predicate PlayOutline(t0: Table, t2: Table, p: nat, i: nat, c: nat, v: nat) {
    && p < |t0.players| && i < |t0.players[p].hand| && c < |t0.players| && v < |t0.players|
    && |t2.players| == |t0.players|
    && t2.IdBag() == t0.IdBag()
    && TopOnly(t2.discard) == [t0.players[p].hand[i]]
    && (forall q :: 0 <= q < |t2.players| ==> t2.players[q].id == t0.players[q].id)
    && Extends(t2.players[p].hand, RemoveAt(t0.players[p].hand, i))
    && (forall q :: 0 <= q < |t2.players| && q != p ==> Extends(t2.players[q].hand, t0.players[q].hand))
    && (forall q :: 0 <= q < |t2.players| && q != p && q != c && q != v ==> t2.players[q] == t0.players[q])
    && !t2.players[c].hasSaidUno
    && (p == c ==>
          var face := t0.players[c].hand[i].face;
          var reachable := |t0.deck| + |t0.discard|;
          && (Calm(t0.players) ==> Calm(t2.players))
          && (v != c ==>
                |t2.players[c].hand| == |t0.players[c].hand| - 1
                  + Min(UnoPenalty(t0.players[c].(hand := RemoveAt(t0.players[c].hand, i))),
                        reachable - Min(DrawPenalty(face), reachable)))
          && (v != c && !SkipsNext(face) && DrawPenalty(face) == 0 ==> t2.players[v] == t0.players[v])
          && (v != c && DrawPenalty(face) > 0 ==>
                |t2.players[v].hand| == |t0.players[v].hand| + Min(DrawPenalty(face), reachable))
          && (v != c && face == Skip ==>
                |t2.players[v].hand| == |t0.players[v].hand| + Min(UnoPenalty(t0.players[v]),
                  reachable - Min(UnoPenalty(t0.players[c].(hand := RemoveAt(t0.players[c].hand, i))), reachable))))
  }

  /**
   * What a successful `play_card` does, step by step: card `i` of player `p`
   * goes onto the discard pile and `p` is flagged, as `AfterDiscard` states;
   * then the card's effect passes through the tables of `EffectSteps`. The
   * outcome has the outline of `PlayOutline`.
   */
  ghost predicate CardPlayed(t0: Table, t3: Table, p: nat, i: nat, c: nat, v: nat) {
    && p < |t0.players| && i < |t0.players[p].hand|
    && (exists drawn: Table, ended: Table :: EffectSteps(AfterDiscard(t0, p, i), drawn, ended, t3, c, v, t0.players[p].hand[i].face))
    && PlayOutline(t0, t3, p, i, c, v)
  }

  /** Discarding the card and resolving its effect is `play_card`. */
  lemma PlayedThenResolved(t0: Table, t2: Table, p: nat, i: nat, c: nat, v: nat)
    requires p < |t0.players| && i < |t0.players[p].hand|
    requires EffectResolved(AfterDiscard(t0, p, i), t2, c, v, t0.players[p].hand[i].face)
    ensures CardPlayed(t0, t2, p, i, c, v)
  {
    PlayedOutline(t0, t2, p, i, c, v);
  }

  /**
   * The outline of `play_card`: the discard step keeps the id bag and puts the
   * card on top; the effect's outline then gives the hands and counts, with
   * the cards reachable after the discard being those reachable before it.
   */
  lemma PlayedOutline(t0: Table, t2: Table, p: nat, i: nat, c: nat, v: nat)
    requires p < |t0.players| && i < |t0.players[p].hand|
    requires EffectOutline(AfterDiscard(t0, p, i), t2, c, v, t0.players[p].hand[i].face)
    ensures PlayOutline(t0, t2, p, i, c, v)
  {
    var t1 := AfterDiscard(t0, p, i);
    DiscardKeepsIds(t0, p, i);
    assert TopOnly(t1.discard) == [t0.players[p].hand[i]];
    assert UnderTop(t1.discard) == t0.discard;
    forall q | 0 <= q < |t2.players| && q != p
      ensures Extends(t2.players[q].hand, t0.players[q].hand)
    {
      assert t1.players[q] == t0.players[q];
    }
    if p == c && v != c {
      assert |t1.players[c].hand| == |t0.players[c].hand| - 1;
      assert t1.players[v] == t0.players[v];
    }
  }

  /**
   * Seating shuffled new players and dealing them hands: the seats hold
   * the new records in some order, nobody is mid-turn, and distinct ids
   * stay distinct.
   */
  lemma SeatingFacts(newcomers: seq<Player>, seated: seq<Player>, dealt: seq<Player>, ids: seq<string>)
    requires newcomers == FreshPlayers(ids) && multiset(seated) == multiset(newcomers)
    requires |dealt| == |seated| && forall i :: 0 <= i < |dealt| ==> dealt[i] == seated[i].(hand := dealt[i].hand)
    ensures multiset(Unhanded(dealt)) == multiset(newcomers)
    ensures Calm(dealt)
    ensures Distinct(ids) ==> UniqueIds(dealt)
  {
    var empty := (pl: Player) => pl.(hand := []);
    var id := (pl: Player) => pl.id;
    MapPermutation(seated, newcomers, empty);
    MapPermutation(seated, newcomers, id);
    assert Unhanded(dealt) == MapSeq(seated, empty);
    assert MapSeq(newcomers, empty) == newcomers;
    assert MapSeq(newcomers, id) == ids;
    forall q | 0 <= q < |dealt|
      ensures !dealt[q].hasPlayedCard
    {
      assert seated[q] in multiset(newcomers);
    }
    if Distinct(ids) {
      DistinctPermutation(ids, MapSeq(seated, id));
      forall i, j | 0 <= i < j < |dealt|
        ensures dealt[i].id != dealt[j].id
      {
        assert MapSeq(seated, id)[i] != MapSeq(seated, id)[j];
      }
    }
  }

  /**
   * Dealing a shuffled catalogue: hands and the rest of the deck together are
   * the catalogue, and with at most 15 players every hand gets 7 cards.
   */
  lemma DealtCatalog(shuffled: seq<Card>, dealt: seq<Player>, rest: seq<Card>)
    requires multiset(shuffled) == multiset(Catalog.Catalog()) && |shuffled| == 108
    requires Hands(dealt) + rest == shuffled && rest == shuffled[Min(7 * |dealt|, 108)..]
    requires forall i :: 0 <= i < |dealt| ==> dealt[i].hand == Catalog.DealtHand(shuffled, i)
    ensures multiset(Hands(dealt) + rest) == multiset(Catalog.Catalog())
    ensures multiset(Ids(rest)) + multiset(Ids(Hands(dealt))) == multiset(Ids(Catalog.Catalog()))
    ensures |dealt| <= 15 ==> |rest| == 108 - 7 * |dealt| && forall q :: 0 <= q < |dealt| ==> |dealt[q].hand| == 7
  {
    IdsPermutation(Hands(dealt) + rest, Catalog.Catalog());
    IdsConcat(Hands(dealt), rest);
  }

  /**
   * What `start_game` leaves on the table for the ids `ids`, when the discard
   * pile was `discard0`: the newcomers seated in some order with nobody
   * mid-turn, the catalogue split between the hands and the deck, 7-card
   * hands for at most 15 players, and the discard pile untouched. The deal
   * itself is exact: some ordering of the catalogue was dealt 7 cards a seat
   * from its front, clamped once it runs short, and its remainder is the deck.
   */
  ghost predicate Started(ids: seq<string>, t: Table, discard0: seq<Card>) {
    && |t.players| == |ids|
    && (exists shuffled: seq<Card> ::
          && multiset(shuffled) == multiset(Catalog.Catalog()) && |shuffled| == 108
          && t.deck == shuffled[Min(7 * |ids|, 108)..]
          && forall q :: 0 <= q < |t.players| ==> t.players[q].hand == Catalog.DealtHand(shuffled, q))
    && multiset(Unhanded(t.players)) == multiset(FreshPlayers(ids))
    && multiset(Hands(t.players) + t.deck) == multiset(Catalog.Catalog())
    && Calm(t.players)
    && (Distinct(ids) ==> UniqueIds(t.players))
    && (|ids| <= 15 ==> |t.deck| == 108 - 7 * |ids| && forall q :: 0 <= q < |t.players| ==> |t.players[q].hand| == 7)
    && t.discard == discard0
    && t.IdBag() == multiset(Ids(Catalog.Catalog())) + multiset(Ids(discard0))
  }

  /** Seating shuffled newcomers and dealing them a shuffled catalogue is a started game. */
  lemma SeatedAndDealt(ids: seq<string>, seated: seq<Player>, shuffled: seq<Card>,
                       dealt: seq<Player>, rest: seq<Card>, discard0: seq<Card>)
    requires multiset(seated) == multiset(FreshPlayers(ids))
    requires |dealt| == |seated| && forall i :: 0 <= i < |dealt| ==> dealt[i] == seated[i].(hand := dealt[i].hand)
    requires multiset(shuffled) == multiset(Catalog.Catalog()) && |shuffled| == 108
    requires Hands(dealt) + rest == shuffled && rest == shuffled[Min(7 * |dealt|, 108)..]
    requires forall i :: 0 <= i < |dealt| ==> dealt[i].hand == Catalog.DealtHand(shuffled, i)
    ensures Started(ids, Table(rest, discard0, dealt), discard0)
  {
    SeatingFacts(FreshPlayers(ids), seated, dealt, ids);
    assert |dealt| == |ids| by { assert |seated| == |FreshPlayers(ids)|; }
    DealtCatalog(shuffled, dealt, rest);
    DealtIdBag(dealt, rest, discard0);
  }

  /**
   * Hand sizes after `start_game`, for any number of players: seat `q` gets
   * 7 cards while the deck lasts, then the 3 left over, then none. With 16 or
   * more players the deck is used up: seats 0-14 hold 7 cards, seat 15 holds
   * 3 and every later seat is empty.
   */
  lemma StartedHandSizes(ids: seq<string>, t: Table, discard0: seq<Card>)
    requires Started(ids, t, discard0)
    ensures forall q :: 0 <= q < |t.players| ==>
      |t.players[q].hand| == (if 7 * q + 7 <= 108 then 7 else if 7 * q < 108 then 108 - 7 * q else 0)
    ensures |t.deck| == 108 - Min(7 * |ids|, 108)
    ensures |ids| >= 16 ==>
      && t.deck == [] && |t.players[15].hand| == 3
      && forall q :: 16 <= q < |t.players| ==> t.players[q].hand == []
  {
  }

  /** The id bag of a freshly dealt table: the catalogue's ids and the discard pile's. */
  lemma DealtIdBag(dealt: seq<Player>, rest: seq<Card>, discard0: seq<Card>)
    requires multiset(Ids(rest)) + multiset(Ids(Hands(dealt))) == multiset(Ids(Catalog.Catalog()))
    ensures Table(rest, discard0, dealt).IdBag() == multiset(Ids(Catalog.Catalog())) + multiset(Ids(discard0))
  {
  }

  /** Recolouring the active card neither creates nor loses a card. */
  lemma RecolourKeepsIds(t: Table, color: Color)
    requires t.discard != []
    ensures var top := t.discard[|t.discard| - 1];
      t.(discard := t.discard[..|t.discard| - 1] + [top.(color := color)]).IdBag() == t.IdBag()
  {
    var under := t.discard[..|t.discard| - 1];
    var top := t.discard[|t.discard| - 1];
    assert t.discard == under + [top];
    IdsConcat(under, [top]);
    IdsConcat(under, [top.(color := color)]);
  }

  class GameLogic {
    var currentPlayerIndex: nat
    /** The draw pile; its top is its last element. */
    var deck: seq<Card>
    /** The played cards; the last one is the active card. */
    var discard: seq<Card>
    var reversed: bool
    /** The roster in turn order. */
    var players: seq<Player>

    /** The turn pointer designates a player: what `get_current_player` needs. */
    predicate Ready()
      reads this
    {
      currentPlayerIndex < |players|
    }

    /** The three piles as a value. */
    function Cards(): Table
      reads this`deck, this`discard, this`players
    {
      Table(deck, discard, players)
    }

    constructor ()
      ensures currentPlayerIndex == 0 && deck == [] && discard == [] && !reversed && players == []
    {
      currentPlayerIndex, deck, discard, reversed, players := 0, [], [], false, [];
    }

    /** `reset`: back to the empty state a new engine starts in. */
    method Reset()
      modifies this
      ensures currentPlayerIndex == 0 && deck == [] && discard == [] && !reversed && players == []
    {
      currentPlayerIndex := 0;
      deck := [];
      discard := [];
      reversed := false;
      players := [];
    }

    /** `get_top_card`: the active card, if anything has been played. */
    function GetTopCard(): (r: Option<Card>)
      reads this
      ensures r.None? <==> discard == []
      ensures r.Some? ==> r.value == discard[|discard| - 1]
    {
      if |discard| == 0 then None else Some(discard[|discard| - 1])
    }

    /** `get_player_cards`: the hand of the first player with this id (unknown ids raise). */
    function GetPlayerCards(playerId: string): (r: seq<Card>)
      reads this
      requires FindPlayer(players, playerId).Some?
      ensures exists q :: 0 <= q < |players| && players[q].id == playerId && r == players[q].hand
                          && forall j :: 0 <= j < q ==> players[j].id != playerId
    {
      players[FindPlayer(players, playerId).value].hand
    }

    /** `is_winner`: the first player with this id has emptied their hand (unknown ids raise). */
    function IsWinner(playerId: string): (r: bool)
      reads this
      requires FindPlayer(players, playerId).Some?
      ensures r <==> exists q :: 0 <= q < |players| && players[q].id == playerId && players[q].hand == []
                                 && forall j :: 0 <= j < q ==> players[j].id != playerId
    {
      |players[FindPlayer(players, playerId).value].hand| == 0
    }

    /**
     * `can_play_card`: anything opens an empty discard pile; otherwise the card
     * must share the top card's colour or face, or be coloured Wild. The
     * player id plays no part.
     */
    function CanPlayCard(card: Card, playerId: string): (r: bool)
      reads this
      ensures discard == [] ==> r
      ensures card.color == Color.Wild ==> r
      ensures discard != [] && card.color != Color.Wild ==>
                (r <==> card.color == discard[|discard| - 1].color || card.face == discard[|discard| - 1].face)
    {
      if |discard| == 0 then true
      else
        var top := discard[|discard| - 1];
        card.color == top.color || card.face == top.face || card.color == Color.Wild
    }

    /**
     * The exhausted-deck branch of `draw_cards`: everything under the discard
     * top is shuffled into the deck, the discard pile keeps only its top, and
     * every card whose face starts with "Wild" is coloured Wild again.
     */
    method Reshuffle()
      requires deck == []
      modifies this
      ensures Reshuffled(old(Cards()), Cards())
      ensures currentPlayerIndex == old(currentPlayerIndex) && reversed == old(reversed)
    {
      var under := UnderTop(discard);
      PileSplit(discard);
      IdsConcat(under, TopOnly(discard));
      var shuffled := Shuffling.Shuffle(under);
      discard := TopOnly(discard);
      deck := ResetWildColors(shuffled);
      IdsPermutation(shuffled, under);
      MapPermutation(shuffled, under, WildReset);
    }

    /** The `pop` half of a draw: the deck's top card moves to the end of player `p`'s hand. */
    method Pop(p: nat)
      requires p < |players| && deck != []
      modifies this
      ensures Cards() == PopTo(old(Cards()), p)
      ensures currentPlayerIndex == old(currentPlayerIndex) && reversed == old(reversed)
    {
      var card := deck[|deck| - 1];
      deck := deck[..|deck| - 1];
      players := players[p := players[p].(hand := players[p].hand + [card])];
    }

    /** One pass of the `draw_cards` loop for player `p`. */
    method DrawOne(p: nat)
      requires p < |players|
      modifies this
      ensures currentPlayerIndex == old(currentPlayerIndex) && reversed == old(reversed) && |players| == old(|players|)
      ensures DrawnOne(old(Cards()), Cards(), p)
    {
      ghost var t0 := Cards();
      if deck == [] {
        Reshuffle();
      }
      ghost var t1 := Cards();
      if deck != [] {
        Pop(p);
      }
      if t0.deck == [] {
        ReshuffledThenDrawn(t0, t1, Cards(), p);
      } else {
        PoppedIsDrawn(t0, p);
      }
    }

    /** `draw_cards`: `count` passes of the draw loop for player `p`. */
    method DrawCards(p: nat, count: nat)
      requires p < |players|
      modifies this
      ensures currentPlayerIndex == old(currentPlayerIndex) && reversed == old(reversed) && |players| == old(|players|)
      ensures DrawnMany(old(Cards()), Cards(), p, count)
    {
      DrawnNone(Cards(), p);
      var k := 0;
      while k < count
        invariant 0 <= k <= count
        invariant currentPlayerIndex == old(currentPlayerIndex) && reversed == old(reversed) && |players| == old(|players|)
        invariant DrawnMany(old(Cards()), Cards(), p, k)
      {
        ghost var before := Cards();
        DrawOne(p);
        DrawnManyStep(old(Cards()), before, Cards(), p, k);
        k := k + 1;
      }
    }

    /**
     * `next_turn`: a player ending their turn with one card and no UNO call
     * first draws 2 cards; the ending player's flags are cleared; the turn
     * passes to the neighbour in the current direction.
     */
    method NextTurn()
      requires Ready()
      modifies this
      ensures Ready() && reversed == old(reversed) && |players| == old(|players|)
      ensures currentPlayerIndex == NextIndex(old(currentPlayerIndex), old(|players|), old(reversed))
      ensures TurnEnded(old(Cards()), Cards(), old(currentPlayerIndex))
    {
      var c := currentPlayerIndex;
      ghost var t0 := Cards();
      if |players[c].hand| == 1 && !players[c].hasSaidUno {
        DrawCards(c, 2);
      } else {
        DrawnNone(t0, c);
      }
      ghost var drawn := Cards();
      players := ClearFlags(players, c);
      currentPlayerIndex := NextIndex(currentPlayerIndex, |players|, reversed);
      PenaltyThenClear(t0, drawn, Cards(), c);
    }


    /** `get_next_player`: the neighbour in the current direction (an empty roster raises). */
    function GetNextPlayer(): (r: Player)
      reads this
      requires |players| > 0
      ensures r == players[NextIndex(currentPlayerIndex, |players|, reversed)]
      ensures Ready() && |players| > 1 ==> r != players[currentPlayerIndex] || !UniqueIds(players)
    {
      players[NextIndex(currentPlayerIndex, |players|, reversed)]
    }

    /**
     * `say_uno`: a player who has not called UNO yet and holds exactly two
     * cards raises the flag; anything else is refused and changes nothing.
     * Whose turn it is plays no part.
     */
    method SayUno(playerId: string) returns (res: Result)
      requires FindPlayer(players, playerId).Some?
      modifies this
      ensures var p := FindPlayer(old(players), playerId).value;
        res == if old(players[p].hasSaidUno) then Err("Player has already called UNO")
               else if |old(players[p].hand)| != 2 then Err("Player cannot call UNO unless they have exactly two cards")
               else Ok
      ensures var p := FindPlayer(old(players), playerId).value;
        players == if res.Ok? then old(players)[p := old(players[p]).(hasSaidUno := true)] else old(players)
      ensures deck == old(deck) && discard == old(discard)
      ensures currentPlayerIndex == old(currentPlayerIndex) && reversed == old(reversed)
    {
      var p := FindPlayer(players, playerId).value;
      if players[p].hasSaidUno {
        return Err("Player has already called UNO");
      }
      if |players[p].hand| != 2 {
        return Err("Player cannot call UNO unless they have exactly two cards");
      }
      players := players[p := players[p].(hasSaidUno := true)];
      res := Ok;
    }

    /**
     * `change_wild_card_color`: recolours the active card if `cardId` names it.
     * The active card must exist and, when it is the one named, still be
     * coloured Wild (otherwise the source raises). Afterwards every card of
     * the new colour is playable.
     */
    method ChangeWildCardColor(cardId: int, newColor: Color) returns (res: Result)
      requires discard != []
      requires discard[|discard| - 1].id == cardId ==> discard[|discard| - 1].color == Color.Wild
      modifies this
      ensures res.Err? <==> old(discard[|discard| - 1].id) != cardId
      ensures res.Err? ==> res == Err("Last card is not this one.") && discard == old(discard)
      ensures res.Ok? ==> discard == old(discard)[..|old(discard)| - 1] + [old(discard[|discard| - 1]).(color := newColor)]
      ensures res.Ok? ==> forall card: Card, pid: string :: card.color == newColor ==> CanPlayCard(card, pid)
      ensures deck == old(deck) && players == old(players)
      ensures currentPlayerIndex == old(currentPlayerIndex) && reversed == old(reversed)
      ensures Cards().IdBag() == old(Cards().IdBag())
    {
      var top := discard[|discard| - 1];
      if top.id != cardId {
        return Err("Last card is not this one.");
      }
      RecolourKeepsIds(Cards(), newColor);
      discard := discard[..|discard| - 1] + [top.(color := newColor)];
      res := Ok;
    }

    /**
     * `activate_cheat_code`: once a game has started, the named player gets a
     * new Wild card with the cheat's face; `newCardId` is the id the source
     * draws at random from 10000..10000000. Before that it is refused.
     */
    method ActivateCheatCode(playerId: string, cheat: GameCheat, newCardId: int) returns (res: Result)
      requires |players| > 0 ==> FindPlayer(players, playerId).Some?
      requires 10000 <= newCardId <= 10000000
      modifies this
      ensures res.Err? <==> old(players) == []
      ensures res.Err? ==> res == Err("Game has not started yet") && players == old(players)
      ensures res.Ok? ==>
        var p := FindPlayer(old(players), playerId).value;
        players == old(players)[p := old(players[p]).(hand := old(players[p].hand) + [Card(Color.Wild, CheatFace(cheat), newCardId)])]
      ensures res.Ok? ==> Cards().IdBag() == old(Cards().IdBag()) + multiset{newCardId}
      ensures deck == old(deck) && discard == old(discard)
      ensures currentPlayerIndex == old(currentPlayerIndex) && reversed == old(reversed)
    {
      if |players| == 0 {
        return Err("Game has not started yet");
      }
      var p := FindPlayer(players, playerId).value;
      var card := Card(Color.Wild, CheatFace(cheat), newCardId);
      HandsAppend(players, p, card);
      players := players[p := players[p].(hand := players[p].hand + [card])];
      res := Ok;
    }


    /** The first half of a successful `play_card`: the card leaves hand `p` for the discard top and `p` is flagged. */
    method Discard(p: nat, i: nat)
      requires p < |players| && i < |players[p].hand|
      modifies this
      ensures Cards() == AfterDiscard(old(Cards()), p, i)
      ensures currentPlayerIndex == old(currentPlayerIndex) && reversed == old(reversed) && |players| == old(|players|)
    {
      var card := players[p].hand[i];
      players := players[p := players[p].(hand := RemoveAt(players[p].hand, i), hasPlayedCard := true)];
      discard := discard + [card];
    }

    /**
     * The face effects of `play_card`, as a table: the next player draws the
     * face's penalty (4 for Wild Draw Four, 8 for Wild Draw Eight, 2 for Draw
     * Two, none otherwise), Reverse flips the direction, and after Skip, Draw
     * Two and Wild Draw Eight the current turn ends so that the final
     * `next_turn` passes over the next player.
     */
    method ApplyFace(face: Face) returns (ghost drawn: Table)
      requires Ready()
      modifies this
      ensures Ready() && |players| == old(|players|) && reversed == (old(reversed) != (face == Reverse))
      ensures currentPlayerIndex == if SkipsNext(face) then NextIndex(old(currentPlayerIndex), old(|players|), old(reversed))
                                    else old(currentPlayerIndex)
      ensures FaceApplied(old(Cards()), drawn, Cards(), old(currentPlayerIndex),
                          NextIndex(old(currentPlayerIndex), old(|players|), old(reversed)), face)
    {
      var v := NextIndex(currentPlayerIndex, |players|, reversed);
      if SkipsNext(face) {
        drawn := DrawThenSkip(DrawPenalty(face));
      } else {
        DrawCards(v, DrawPenalty(face));
        drawn := Cards();
        if face == Reverse {
          reversed := !reversed;
        }
      }
    }

    /**
     * The next player draws `count` cards and then loses their turn, as after
     * a Wild Draw Eight, a Draw Two or (with no cards) a Skip.
     */
    method DrawThenSkip(count: nat) returns (ghost drawn: Table)
      requires Ready()
      modifies this
      ensures Ready() && |players| == old(|players|) && reversed == old(reversed)
      ensures currentPlayerIndex == NextIndex(old(currentPlayerIndex), old(|players|), old(reversed))
      ensures DrawnMany(old(Cards()), drawn, NextIndex(old(currentPlayerIndex), old(|players|), old(reversed)), count)
      ensures TurnEnded(drawn, Cards(), old(currentPlayerIndex))
    {
      var v := NextIndex(currentPlayerIndex, |players|, reversed);
      if count == 0 {
        DrawnNone(Cards(), v);
      } else {
        DrawCards(v, count);
      }
      drawn := Cards();
      NextTurn();
    }

    /**
     * The second half of a successful `play_card`: the face's effect, then the
     * end of `c`'s turn.
     */
    method ResolveEffect(face: Face)
      requires Ready()
      modifies this
      ensures Ready() && |players| == old(|players|) && reversed == (old(reversed) != (face == Reverse))
      ensures currentPlayerIndex == Advance(old(currentPlayerIndex), |players|, reversed, if SkipsNext(face) then 2 else 1)
      ensures EffectResolved(old(Cards()), Cards(), old(currentPlayerIndex),
                             NextIndex(old(currentPlayerIndex), |players|, old(reversed)), face)
    {
      var c := currentPlayerIndex;
      var v := NextIndex(c, |players|, reversed);
      ghost var n := |players|;
      ghost var t0 := Cards();
      ghost var t1 := ApplyFace(face);
      ghost var t2 := Cards();
      ghost var w := currentPlayerIndex;
      ghost var steps := if SkipsNext(face) then 2 else 1;
      AdvanceTwice(c, n, reversed);
      assert w == Advance(c, n, reversed, steps - 1);
      NextTurn();
      StepsResolved(t0, t1, t2, Cards(), c, v, w, face);
    }

    /**
     * `play_card`: the first player with `playerId` plays the card `cardId`
     * from their hand. Refused, with nothing changed, when that player is not
     * the current one (by id), has already played, does not hold the card, or
     * the card does not match the active card. Otherwise the card becomes the
     * active card, its effect is applied and the turn moves on one seat, or
     * two after a skipping face.
     */
    method PlayCard(playerId: string, cardId: int) returns (res: Result)
      requires Ready() && FindPlayer(players, playerId).Some?
      modifies this
      ensures var p, c := FindPlayer(old(players), playerId).value, old(currentPlayerIndex);
        var hand := old(players[p].hand);
        res == if old(players[p].id) != old(players[c].id) then Err("Not the player's turn")
               else if old(players[p].hasPlayedCard) then Err("Player has already played a card")
               else if CardIndex(hand, cardId).None? then Err("Card not found in player's hand")
               else if !old(CanPlayCard(hand[CardIndex(hand, cardId).value], playerId)) then Err("Cannot play this card")
               else Ok
      ensures res.Err? ==>
        && players == old(players) && deck == old(deck) && discard == old(discard)
        && currentPlayerIndex == old(currentPlayerIndex) && reversed == old(reversed)
      ensures res.Ok? ==>
        var p, c := FindPlayer(old(players), playerId).value, old(currentPlayerIndex);
        var i := CardIndex(old(players[p].hand), cardId).value;
        var card := old(players[p].hand[i]);
        && Ready()
        && reversed == (old(reversed) != (card.face == Reverse))
        && currentPlayerIndex == Advance(c, |players|, reversed, if SkipsNext(card.face) then 2 else 1)
        && CardPlayed(old(Cards()), Cards(), p, i, c, NextIndex(c, |players|, old(reversed)))
      ensures res.Ok? && UniqueIds(old(players)) ==> FindPlayer(old(players), playerId).value == old(currentPlayerIndex)
    {
      var p := FindPlayer(players, playerId).value;
      var c := currentPlayerIndex;
      if players[p].id != players[c].id {
        return Err("Not the player's turn");
      }
      if players[p].hasPlayedCard {
        return Err("Player has already played a card");
      }
      var found := CardIndex(players[p].hand, cardId);
      if found.None? {
        return Err("Card not found in player's hand");
      }
      var i := found.value;
      var card := players[p].hand[i];
      if !CanPlayCard(card, playerId) {
        return Err("Cannot play this card");
      }
      assert UniqueIds(players) ==> p == c;
      PlayAt(p, i);
      res := Ok;
    }

    /** The success path of `play_card` for card `i` of player `p`: discard it, then resolve its effect. */
    method PlayAt(p: nat, i: nat)
      requires Ready() && p < |players| && i < |players[p].hand|
      modifies this
      ensures var c, card := old(currentPlayerIndex), old(players[p].hand[i]);
        && Ready() && |players| == old(|players|)
        && reversed == (old(reversed) != (card.face == Reverse))
        && currentPlayerIndex == Advance(c, |players|, reversed, if SkipsNext(card.face) then 2 else 1)
        && CardPlayed(old(Cards()), Cards(), p, i, c, NextIndex(c, |players|, old(reversed)))
    {
      ghost var t0 := Cards();
      var c := currentPlayerIndex;
      var v := NextIndex(c, |players|, reversed);
      var face := players[p].hand[i].face;
      Discard(p, i);
      ResolveEffect(face);
      PlayedThenResolved(t0, Cards(), p, i, c, v);
    }

    /**
     * `draw_card`: the first player with `playerId` takes one card instead of
     * playing. Refused, with nothing changed, when that player is not the
     * current one (by id) or has already played. Otherwise they draw one card
     * if one is reachable and the current player's turn ends.
     */
    method DrawCard(playerId: string) returns (res: Result)
      requires Ready() && FindPlayer(players, playerId).Some?
      modifies this
      ensures var p, c := FindPlayer(old(players), playerId).value, old(currentPlayerIndex);
        res == if old(players[p].id) != old(players[c].id) then Err("Not the player's turn")
               else if old(players[p].hasPlayedCard) then Err("Player has already played a card")
               else Ok
      ensures res.Err? ==>
        && players == old(players) && deck == old(deck) && discard == old(discard)
        && currentPlayerIndex == old(currentPlayerIndex) && reversed == old(reversed)
      ensures res.Ok? ==>
        var p, c := FindPlayer(old(players), playerId).value, old(currentPlayerIndex);
        && Ready() && reversed == old(reversed)
        && currentPlayerIndex == NextIndex(c, |players|, reversed)
        && GetTopCard() == old(GetTopCard())
        && CardDrawn(old(Cards()), Cards(), p, c)
      ensures res.Ok? && UniqueIds(old(players)) ==> FindPlayer(old(players), playerId).value == old(currentPlayerIndex)
    {
      var p := FindPlayer(players, playerId).value;
      var c := currentPlayerIndex;
      if players[p].id != players[c].id {
        return Err("Not the player's turn");
      }
      if players[p].hasPlayedCard {
        return Err("Player has already played a card");
      }
      TakeOneAndPass(p);
      TopKept(old(discard), discard);
      res := Ok;
    }

    /** The first two steps of `draw_card`'s success path: draw one card for `p`, then raise `p`'s played flag. */
    method DrawAndFlag(p: nat) returns (ghost drawn: Table)
      requires Ready() && p < |players|
      modifies this
      ensures Ready() && reversed == old(reversed) && |players| == old(|players|)
      ensures currentPlayerIndex == old(currentPlayerIndex)
      ensures DrawnMany(old(Cards()), drawn, p, 1)
      ensures Cards() == Flagged(drawn, p)
    {
      DrawCards(p, 1);
      drawn := Cards();
      players := players[p := players[p].(hasPlayedCard := true)];
    }

    /** The success path of `draw_card` for player `p`: draw one card, raise the flag, end the current turn. */
    method TakeOneAndPass(p: nat)
      requires Ready() && p < |players|
      modifies this
      ensures Ready() && reversed == old(reversed) && |players| == old(|players|)
      ensures currentPlayerIndex == NextIndex(old(currentPlayerIndex), old(|players|), old(reversed))
      ensures CardDrawn(old(Cards()), Cards(), p, old(currentPlayerIndex))
    {
      ghost var c := currentPlayerIndex;
      ghost var t0 := Cards();
      ghost var t1 := DrawAndFlag(p);
      NextTurn();
      DrewThenEnded(t0, t1, Cards(), p, c);
    }

    /**
     * `start_game`: the players, with empty hands and both flags down, are
     * seated in a random order; the 108 catalogue cards are shuffled into the
     * deck; then each player in seat order gets the next 7 cards off the
     * front of the deck. The discard pile, the direction and the turn pointer
     * are left as they were.
     */
    method StartGame(playerIds: seq<string>)
      modifies this
      ensures Started(playerIds, Cards(), old(discard))
      ensures reversed == old(reversed) && currentPlayerIndex == old(currentPlayerIndex)
    {
      var newcomers := FreshPlayers(playerIds);
      var seated := Shuffling.Shuffle(newcomers);
      var cards := Catalog.CreateCards();
      assert cards == Catalog.Catalog();
      var shuffled := Shuffling.Shuffle(cards);
      var dealt, rest := Catalog.DistributeCards(seated, shuffled);
      players := dealt;
      deck := rest;
      SeatedAndDealt(playerIds, seated, shuffled, dealt, rest, discard);
    }
  }
}
