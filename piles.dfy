/**
 * Card sequences as the engine moves them around: ids, the hands of all
 * players taken together, removal at an index, the cards popped off the top
 * of a pile, and the wild-colour reset applied on a reshuffle.
 */
module Piles {
  import opened Types

  function Min(a: int, b: int): int {
    if a <= b then a else b
  }

  /** The ids of `cards`, in order. */
  function Ids(cards: seq<Card>): seq<int> {
    seq(|cards|, i requires 0 <= i < |cards| => cards[i].id)
  }

  /** All hands one after the other, in turn order. */
  function Hands(players: seq<Player>): seq<Card> {
    if players == [] then [] else Hands(players[..|players| - 1]) + players[|players| - 1].hand
  }

  /** `s` with the element at `i` taken out (Python's `list.pop(i)`). */
  function RemoveAt<T>(s: seq<T>, i: nat): seq<T>
    requires i < |s|
  {
    s[..i] + s[i + 1..]
  }

  /** The first `k` cards popped off `deck`, whose top is its last element, in popping order. */
  function TakeTop(deck: seq<Card>, k: nat): seq<Card>
    requires k <= |deck|
  {
    seq(k, j requires 0 <= j < k => deck[|deck| - 1 - j])
  }

  /** `s` begins with `prefix`: only appends happened. */
  predicate Extends<T(==)>(s: seq<T>, prefix: seq<T>) {
    |prefix| <= |s| && s[..|prefix|] == prefix
  }

  lemma ExtendsTrans<T>(c: seq<T>, b: seq<T>, a: seq<T>)
    requires Extends(c, b) && Extends(b, a)
    ensures Extends(c, a)
  {
    assert c[..|a|] == c[..|b|][..|a|];
  }

  /**
   * `players` is `before` with only player `p`'s hand changed, and that hand
   * only grown at its end.
   */
  predicate HandGrown(players: seq<Player>, before: seq<Player>, p: nat) {
    && |players| == |before| && p < |players|
    && players == before[p := before[p].(hand := players[p].hand)]
    && Extends(players[p].hand, before[p].hand)
  }

  lemma HandGrownTrans(c: seq<Player>, b: seq<Player>, a: seq<Player>, p: nat)
    requires HandGrown(c, b, p) && HandGrown(b, a, p)
    ensures HandGrown(c, a, p)
  {
    ExtendsTrans(c[p].hand, b[p].hand, a[p].hand);
  }

  /** Every seat keeps its player id and every hand only grew at its end. */
  predicate HandsOnlyGrew(players: seq<Player>, before: seq<Player>) {
    && |players| == |before|
    && forall q :: 0 <= q < |players| ==>
         players[q].id == before[q].id && Extends(players[q].hand, before[q].hand)
  }

  lemma HandGrownOnly(players: seq<Player>, before: seq<Player>, p: nat)
    requires HandGrown(players, before, p)
    ensures HandsOnlyGrew(players, before)
  {
    forall q | 0 <= q < |players|
      ensures Extends(players[q].hand, before[q].hand)
    {
      if q != p {
        assert players[q].hand == before[q].hand;
      }
    }
  }

  /** Changing one player's flags, not their id or hand, only grows hands trivially. */
  lemma SameHandGrew(players: seq<Player>, p: nat, x: Player)
    requires p < |players| && x.id == players[p].id && x.hand == players[p].hand
    ensures HandsOnlyGrew(players[p := x], players)
  {
    forall q | 0 <= q < |players|
      ensures Extends(players[p := x][q].hand, players[q].hand)
    {
      assert players[p := x][q].hand == players[q].hand;
    }
  }

  lemma HandsOnlyGrewTrans(c: seq<Player>, b: seq<Player>, a: seq<Player>)
    requires HandsOnlyGrew(c, b) && HandsOnlyGrew(b, a)
    ensures HandsOnlyGrew(c, a)
  {
    forall q | 0 <= q < |c|
      ensures Extends(c[q].hand, a[q].hand)
    {
      ExtendsTrans(c[q].hand, b[q].hand, a[q].hand);
    }
  }

  /** No two seats hold the same player id. */
  predicate UniqueIds(players: seq<Player>) {
    forall i, j :: 0 <= i < j < |players| ==> players[i].id != players[j].id
  }

  /** Nobody is halfway through a turn: no player has the played-a-card flag up. */
  predicate Calm(players: seq<Player>) {
    forall q :: 0 <= q < |players| ==> !players[q].hasPlayedCard
  }

  /** Python's `pile[-1:]`: the top card alone, or nothing. */
  function TopOnly(pile: seq<Card>): seq<Card> {
    if pile == [] then [] else [pile[|pile| - 1]]
  }

  /** Piles with the same `pile[-1:]` have the same top card. */
  lemma TopKept(a: seq<Card>, b: seq<Card>)
    requires TopOnly(a) == TopOnly(b)
    ensures a == [] <==> b == []
    ensures a != [] ==> a[|a| - 1] == b[|b| - 1]
  {
    if a != [] && b != [] {
      assert TopOnly(a)[0] == TopOnly(b)[0];
    }
  }

  /** Python's `pile[:-1]`: everything under the top card. */
  function UnderTop(pile: seq<Card>): seq<Card> {
    if pile == [] then [] else pile[..|pile| - 1]
  }

  /** Every wild-family card in `cards` is coloured Wild again. */
  predicate WildColorsReset(cards: seq<Card>) {
    forall i :: 0 <= i < |cards| && IsWildFamily(cards[i].face) ==> cards[i].color == Color.Wild
  }

  lemma IdsConcat(a: seq<Card>, b: seq<Card>)
    ensures Ids(a + b) == Ids(a) + Ids(b)
  {
  }

  lemma PileSplit(pile: seq<Card>)
    ensures pile == UnderTop(pile) + TopOnly(pile)
  {
  }

  /** `f` applied to every element of `s`, in order. */
  function MapSeq<T, U>(s: seq<T>, f: T -> U): seq<U> {
    seq(|s|, i requires 0 <= i < |s| => f(s[i]))
  }

  lemma MapConcat<T, U>(a: seq<T>, b: seq<T>, f: T -> U)
    ensures MapSeq(a + b, f) == MapSeq(a, f) + MapSeq(b, f)
  {
  }

  /** Mapping two permutations of each other element by element gives permutations of each other. */
  lemma {:induction false} MapPermutation<T, U>(a: seq<T>, b: seq<T>, f: T -> U)
    requires multiset(a) == multiset(b)
    ensures multiset(MapSeq(a, f)) == multiset(MapSeq(b, f))
    decreases |a|
  {
    if a == [] {
      assert |multiset(b)| == 0;
      assert b == [];
    } else {
      var x := a[|a| - 1];
      var a' := a[..|a| - 1];
      assert a == a' + [x];
      assert x in multiset(b);
      var j :| 0 <= j < |b| && b[j] == x;
      var b' := b[..j] + b[j + 1..];
      assert b == b[..j] + [x] + b[j + 1..];
      assert multiset(b) == multiset(b[..j]) + multiset{x} + multiset(b[j + 1..]);
      assert multiset(b') == multiset(b[..j]) + multiset(b[j + 1..]);
      assert multiset(a) == multiset(a') + multiset{x};
      assert multiset(a') == multiset(a) - multiset{x};
      assert multiset(b') == multiset(b) - multiset{x};
      MapPermutation(a', b', f);
      MapConcat(a', [x], f);
      MapConcat(b[..j], [x], f);
      MapConcat(b[..j] + [x], b[j + 1..], f);
      MapConcat(b[..j], b[j + 1..], f);
      var l, r := MapSeq(b[..j], f), MapSeq(b[j + 1..], f);
      assert MapSeq([x], f) == [f(x)];
      assert MapSeq(b, f) == l + [f(x)] + r;
      assert MapSeq(a, f) == MapSeq(a', f) + [f(x)];
      assert multiset(MapSeq(b, f)) == multiset(l) + multiset{f(x)} + multiset(r);
      assert multiset(MapSeq(b', f)) == multiset(l) + multiset(r);
      assert multiset(MapSeq(a, f)) == multiset(MapSeq(a', f)) + multiset{f(x)};
    }
  }

  /** Permuting cards permutes their ids. */
  lemma IdsPermutation(a: seq<Card>, b: seq<Card>)
    requires multiset(a) == multiset(b)
    ensures multiset(Ids(a)) == multiset(Ids(b))
  {
    var id := (c: Card) => c.id;
    MapPermutation(a, b, id);
    assert Ids(a) == MapSeq(a, id);
    assert Ids(b) == MapSeq(b, id);
  }

  /** No element occurs twice. */
  predicate Distinct<T(==)>(s: seq<T>) {
    forall i, j :: 0 <= i < j < |s| ==> s[i] != s[j]
  }

  lemma {:induction false} DistinctOnce<T>(s: seq<T>, x: T)
    requires Distinct(s)
    ensures multiset(s)[x] <= 1
    decreases |s|
  {
    if s != [] {
      var s' := s[..|s| - 1];
      assert s == s' + [s[|s| - 1]];
      DistinctOnce(s', x);
      if s[|s| - 1] == x {
        assert x !in s';
      }
    }
  }

  /** A permutation of a sequence without repeats has no repeats. */
  lemma DistinctPermutation<T>(a: seq<T>, b: seq<T>)
    requires multiset(a) == multiset(b) && Distinct(a)
    ensures Distinct(b)
  {
    forall i, j | 0 <= i < j < |b|
      ensures b[i] != b[j]
    {
      if b[i] == b[j] {
        assert b == b[..j] + [b[j]] + b[j + 1..];
        assert b[i] in b[..j];
        assert multiset(b)[b[j]] >= 2;
        DistinctOnce(a, b[j]);
        assert false;
      }
    }
  }

  /** Taking out the card at `i` takes exactly its id out of the hand's ids. */
  lemma RemoveAtIds(hand: seq<Card>, i: nat)
    requires i < |hand|
    ensures multiset(Ids(RemoveAt(hand, i))) + multiset{hand[i].id} == multiset(Ids(hand))
  {
    assert hand == hand[..i] + [hand[i]] + hand[i + 1..];
    IdsConcat(hand[..i], [hand[i]]);
    IdsConcat(hand[..i] + [hand[i]], hand[i + 1..]);
    IdsConcat(hand[..i], hand[i + 1..]);
  }

  /** Flattening distributes over concatenating rosters. */
  lemma {:induction false} HandsConcat(a: seq<Player>, b: seq<Player>)
    ensures Hands(a + b) == Hands(a) + Hands(b)
    decreases |b|
  {
    if b == [] {
      assert a + b == a;
    } else {
      var b' := b[..|b| - 1];
      assert (a + b)[..|a + b| - 1] == a + b';
      HandsConcat(a, b');
    }
  }

  /**
   * Replacing one player record changes the ids held in all hands by exactly
   * the difference between the old and the new hand.
   */
  lemma HandsUpdate(players: seq<Player>, p: nat, q: Player)
    requires p < |players|
    ensures multiset(Ids(Hands(players[p := q]))) + multiset(Ids(players[p].hand))
         == multiset(Ids(Hands(players))) + multiset(Ids(q.hand))
  {
    var before, after := players[..p], players[p + 1..];
    assert players == before + [players[p]] + after;
    assert players[p := q] == before + [q] + after;
    HandsConcat(before + [players[p]], after);
    HandsConcat(before, [players[p]]);
    HandsConcat(before + [q], after);
    HandsConcat(before, [q]);
    assert Hands([q]) == q.hand by { assert [q][..0] == []; }
    assert Hands([players[p]]) == players[p].hand by { assert [players[p]][..0] == []; }
    IdsConcat(Hands(before) + players[p].hand, Hands(after));
    IdsConcat(Hands(before), players[p].hand);
    IdsConcat(Hands(before) + q.hand, Hands(after));
    IdsConcat(Hands(before), q.hand);
  }

  /** Appending a card to one hand adds exactly its id to the ids held in all hands. */
  lemma HandsAppend(players: seq<Player>, p: nat, card: Card)
    requires p < |players|
    ensures multiset(Ids(Hands(players[p := players[p].(hand := players[p].hand + [card])])))
         == multiset(Ids(Hands(players))) + multiset{card.id}
  {
    var q := players[p].(hand := players[p].hand + [card]);
    HandsUpdate(players, p, q);
    IdsConcat(players[p].hand, [card]);
    var h := multiset(Ids(players[p].hand));
    assert multiset(Ids(Hands(players[p := q]))) + h == multiset(Ids(Hands(players))) + multiset{card.id} + h;
    assert multiset(Ids(Hands(players[p := q])))
        == (multiset(Ids(Hands(players))) + multiset{card.id} + h) - h;
  }

  /** Taking the card at `i` out of one hand removes exactly its id from the ids held in all hands. */
  lemma HandsRemove(players: seq<Player>, p: nat, i: nat, q: Player)
    requires p < |players| && i < |players[p].hand|
    requires q.hand == RemoveAt(players[p].hand, i)
    ensures multiset(Ids(Hands(players[p := q]))) + multiset{players[p].hand[i].id}
         == multiset(Ids(Hands(players)))
  {
    HandsUpdate(players, p, q);
    RemoveAtIds(players[p].hand, i);
    var h := multiset(Ids(q.hand));
    var x := multiset{players[p].hand[i].id};
    assert multiset(Ids(Hands(players[p := q]))) + h + x == multiset(Ids(Hands(players))) + h;
    assert multiset(Ids(Hands(players[p := q]))) + x
        == (multiset(Ids(Hands(players))) + h) - h;
  }

  /** Changing a player's flags leaves the hands untouched. */
  lemma HandsKeep(players: seq<Player>, p: nat, q: Player)
    requires p < |players| && q.hand == players[p].hand
    ensures Hands(players[p := q]) == Hands(players)
  {
    var before, after := players[..p], players[p + 1..];
    assert players == before + [players[p]] + after;
    assert players[p := q] == before + [q] + after;
    HandsConcat(before + [players[p]], after);
    HandsConcat(before, [players[p]]);
    HandsConcat(before + [q], after);
    HandsConcat(before, [q]);
    assert Hands([q]) == q.hand by { assert [q][..0] == []; }
    assert Hands([players[p]]) == players[p].hand by { assert [players[p]][..0] == []; }
  }

  /** Popping one more card off the same deck extends the popped sequence by that card. */
  lemma TakeTopStep(deck: seq<Card>, k: nat)
    requires k < |deck|
    ensures TakeTop(deck, k + 1) == TakeTop(deck, k) + [deck[|deck| - 1 - k]]
  {
  }

  /** The card a wild-colour reset leaves: wild-family faces get colour Wild, others stay. */
  function WildReset(c: Card): Card {
    if IsWildFamily(c.face) then c.(color := Color.Wild) else c
  }

  /**
   * The recolouring loop of `draw_cards`: after a reshuffle every card whose
   * face starts with "Wild" gets colour Wild. Ids, faces and every other card
   * stay as they were.
   */
  method ResetWildColors(cards: seq<Card>) returns (r: seq<Card>)
    ensures r == MapSeq(cards, WildReset)
    ensures Ids(r) == Ids(cards)
    ensures WildColorsReset(r)
    ensures forall i :: 0 <= i < |r| ==> r[i].face == cards[i].face
    ensures forall i :: 0 <= i < |r| && !IsWildFamily(cards[i].face) ==> r[i] == cards[i]
  {
    r := cards;
    var k := 0;
    while k < |r|
      invariant 0 <= k <= |r| == |cards|
      invariant forall i :: 0 <= i < |r| ==> r[i].id == cards[i].id && r[i].face == cards[i].face
      invariant forall i :: k <= i < |r| ==> r[i] == cards[i]
      invariant forall i :: 0 <= i < k ==> r[i] == WildReset(cards[i])
    {
      if IsWildFamily(r[k].face) {
        r := r[k := r[k].(color := Color.Wild)];
      }
      k := k + 1;
    }
  }
}
