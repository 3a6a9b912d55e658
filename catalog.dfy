/** The fixed 108-card catalogue (`create_cards`) and the deal (`distribute_cards`). */
module Catalog {
  import opened Types
  import opened Piles

  const CardColors: seq<Color> := [Blue, Green, Red, Yellow]
  const ColoredFaces: seq<Face> :=
    [Zero, One, Two, Three, Four, Five, Six, Seven, Eight, Nine, Skip, Reverse, DrawTwo]
  const WildFaces: seq<Face> := [Face.Wild, WildDrawFour]
  const WildCardFaceAmount: nat := 4
  const CatalogSize: nat := 108
  const HandSize: nat := 7

  /**
   * The card with catalogue id `id`, in closed form: each colour takes a block
   * of 25 ids (one "0", then two of each of the twelve other faces), and the
   * last 8 ids are 4 Wild and 4 Wild Draw Four cards, all coloured Wild.
   */
  function CatalogCard(id: nat): Card
    requires id < CatalogSize
  {
    if id < 100 then
      var ci := Block(id);
      Card(CardColors[ci], ColoredFaces[(id - 25 * ci + 1) / 2], id)
    else Card(Color.Wild, if id < 100 + WildCardFaceAmount then Face.Wild else WildDrawFour, id)
  }

  /** The colour block, of 25 ids each, that a coloured id falls in. */
  function Block(id: nat): (ci: nat)
    requires id < 100
    ensures ci < |CardColors| && 25 * ci <= id < 25 * ci + 25
  {
    if id < 25 then 0 else if id < 50 then 1 else if id < 75 then 2 else 3
  }

  function Catalog(): seq<Card> {
    seq(CatalogSize, i requires 0 <= i < CatalogSize => CatalogCard(i))
  }

  /** How many copies of each colour and face the catalogue holds. */
  function Copies(c: Color, f: Face): nat {
    if c == Color.Wild then (if f == Face.Wild || f == WildDrawFour then WildCardFaceAmount else 0)
    else if f == Zero then 1
    else if IsWildFamily(f) then 0
    else 2
  }

  /** The number of cards of colour `c` and face `f` in `cards`. */
  function Count(cards: seq<Card>, c: Color, f: Face): nat {
    if cards == [] then 0
    else Count(cards[..|cards| - 1], c, f) + (if cards[|cards| - 1].color == c && cards[|cards| - 1].face == f then 1 else 0)
  }

  function ColorRank(c: Color): nat {
    match c
    case Blue => 0
    case Green => 1
    case Red => 2
    case Yellow => 3
    case Wild => 4
  }

  function FaceRank(f: Face): nat {
    match f
    case Zero => 0 case One => 1 case Two => 2 case Three => 3 case Four => 4
    case Five => 5 case Six => 6 case Seven => 7 case Eight => 8 case Nine => 9
    case Skip => 10 case Reverse => 11 case DrawTwo => 12
    case Wild => 13 case WildDrawFour => 14 case WildDrawEight => 15
  }

  lemma CountAppend(cards: seq<Card>, x: Card)
    ensures forall c, f :: Count(cards + [x], c, f) == Count(cards, c, f) + (if x.color == c && x.face == f then 1 else 0)
  {
    assert (cards + [x])[..|cards|] == cards;
  }

  /** The ids the colour loop gives the card(s) of colour number `ci` and face number `fi`. */
  lemma ColoredIds(ci: nat, fi: nat)
    requires ci < |CardColors| && fi < |ColoredFaces|
    ensures var base := 25 * ci + (if fi == 0 then 0 else 2 * fi - 1);
      && CatalogCard(base) == Card(CardColors[ci], ColoredFaces[fi], base)
      && (fi != 0 ==> CatalogCard(base + 1) == Card(CardColors[ci], ColoredFaces[fi], base + 1))
  {
    var off := if fi == 0 then 0 else 2 * fi - 1;
    BlockOf(ci, off);
    assert (off + 1) / 2 == fi;
    if fi != 0 {
      BlockOf(ci, off + 1);
      assert (off + 2) / 2 == fi;
    }
  }

  /** Ids `25 * ci` to `25 * ci + 24` form colour block `ci`. */
  lemma BlockOf(ci: nat, off: nat)
    requires ci < |CardColors| && off < 25
    ensures Block(25 * ci + off) == ci
  {
  }

  /** The id the wild loop gives the `k`-th copy of wild face number `wi`. */
  lemma WildIds(wi: nat, k: nat)
    requires wi < |WildFaces| && k < WildCardFaceAmount
    ensures CatalogCard(100 + 4 * wi + k) == Card(Color.Wild, WildFaces[wi], 100 + 4 * wi + k)
  {
  }

  lemma RanksOfTables()
    ensures forall k :: 0 <= k < |CardColors| ==> ColorRank(CardColors[k]) == k
    ensures forall k :: 0 <= k < |ColoredFaces| ==> FaceRank(ColoredFaces[k]) == k
    ensures forall k :: 0 <= k < |WildFaces| ==> FaceRank(WildFaces[k]) == 13 + k
  {
  }

  /** `cards` is the catalogue up to its length. */
  ghost predicate CatalogPrefix(cards: seq<Card>) {
    |cards| <= CatalogSize && cards == Catalog()[..|cards|]
  }

  /** The counts once colours below `ci`, and faces below `fi` of colour `ci`, are in. */
  ghost predicate CountsSoFar(cards: seq<Card>, ci: nat, fi: nat) {
    forall c, f :: Count(cards, c, f)
      == if ColorRank(c) < ci || (ColorRank(c) == ci && FaceRank(f) < fi) then Copies(c, f) else 0
  }

  /** One pass of the inner colour loop: the card(s) for face `fi` of colour `ci`. */
  lemma ColoredFaceStep(cards: seq<Card>, ci: nat, fi: nat, next: seq<Card>)
    requires ci < |CardColors| && fi < |ColoredFaces|
    requires |cards| == 25 * ci + (if fi == 0 then 0 else 2 * fi - 1)
    requires CatalogPrefix(cards) && CountsSoFar(cards, ci, fi)
    requires next == cards + [Card(CardColors[ci], ColoredFaces[fi], |cards|)]
                    + (if fi == 0 then [] else [Card(CardColors[ci], ColoredFaces[fi], |cards| + 1)])
    ensures |next| == 25 * ci + 2 * fi + 1
    ensures CatalogPrefix(next) && CountsSoFar(next, ci, fi + 1)
  {
    ColoredIds(ci, fi);
    var x := Card(CardColors[ci], ColoredFaces[fi], |cards|);
    PrefixAppend(cards, x);
    if fi != 0 {
      PrefixAppend(cards + [x], Card(CardColors[ci], ColoredFaces[fi], |cards| + 1));
      assert next == cards + [x] + [Card(CardColors[ci], ColoredFaces[fi], |cards| + 1)];
    } else {
      assert next == cards + [x];
    }
    ColoredCountStep(cards, ci, fi, next);
  }

  lemma PrefixAppend(cards: seq<Card>, x: Card)
    requires CatalogPrefix(cards) && |cards| < CatalogSize && x == CatalogCard(|cards|)
    ensures CatalogPrefix(cards + [x])
  {
    assert Catalog()[..|cards| + 1] == Catalog()[..|cards|] + [Catalog()[|cards|]];
  }

  lemma ColoredCountStep(cards: seq<Card>, ci: nat, fi: nat, next: seq<Card>)
    requires ci < |CardColors| && fi < |ColoredFaces|
    requires CountsSoFar(cards, ci, fi)
    requires next == cards + [Card(CardColors[ci], ColoredFaces[fi], |cards|)]
                    + (if fi == 0 then [] else [Card(CardColors[ci], ColoredFaces[fi], |cards| + 1)])
    ensures CountsSoFar(next, ci, fi + 1)
  {
    RanksOfTables();
    var color, face := CardColors[ci], ColoredFaces[fi];
    var x := Card(color, face, |cards|);
    CountAppend(cards, x);
    if fi != 0 {
      CountAppend(cards + [x], Card(color, face, |cards| + 1));
      assert next == cards + [x] + [Card(color, face, |cards| + 1)];
    } else {
      assert next == cards + [x];
    }
    assert Copies(color, face) == if fi == 0 then 1 else 2;
    forall c, f
      ensures Count(next, c, f)
        == if ColorRank(c) < ci || (ColorRank(c) == ci && FaceRank(f) < fi + 1) then Copies(c, f) else 0
    {
      if c == color && f == face {
        assert Count(cards, c, f) == 0;
      } else {
        assert Count(next, c, f) == Count(cards, c, f);
        assert ColorRank(c) == ci ==> c == color;
        assert ColorRank(c) == ci && FaceRank(f) == fi ==> f == face;
      }
    }
  }

  /** The counts once wild faces below `wi`, and `k` copies of wild face `wi`, are in. */
  ghost predicate WildCountsSoFar(cards: seq<Card>, wi: nat, k: nat)
    requires wi < |WildFaces|
  {
    forall c, f :: Count(cards, c, f)
      == if c != Color.Wild || FaceRank(f) < 13 + wi then Copies(c, f)
         else if f == WildFaces[wi] then k else 0
  }

  /** One pass of the wild loop: copy number `k` of wild face number `wi`. */
  lemma WildFaceStep(cards: seq<Card>, wi: nat, k: nat, next: seq<Card>)
    requires wi < |WildFaces| && k < WildCardFaceAmount
    requires |cards| == 100 + 4 * wi + k
    requires CatalogPrefix(cards) && WildCountsSoFar(cards, wi, k)
    requires next == cards + [Card(Color.Wild, WildFaces[wi], |cards|)]
    ensures CatalogPrefix(next) && WildCountsSoFar(next, wi, k + 1)
  {
    RanksOfTables();
    WildIds(wi, k);
    PrefixAppend(cards, Card(Color.Wild, WildFaces[wi], |cards|));
    CountAppend(cards, Card(Color.Wild, WildFaces[wi], |cards|));
  }

  /** The counts once wild faces below `wi` are in. */
  ghost predicate WildFacesSoFar(cards: seq<Card>, wi: nat) {
    forall c, f :: Count(cards, c, f) == if c != Color.Wild || FaceRank(f) < 13 + wi then Copies(c, f) else 0
  }

  /** Finishing colour `ci` is starting colour `ci + 1`. */
  lemma ColorDone(cards: seq<Card>, ci: nat)
    requires ci < |CardColors| && CountsSoFar(cards, ci, |ColoredFaces|)
    ensures CountsSoFar(cards, ci + 1, 0)
  {
    forall c, f ensures Count(cards, c, f) == if ColorRank(c) < ci + 1 then Copies(c, f) else 0 {
      if ColorRank(c) == ci && FaceRank(f) >= 13 {
        assert c != Color.Wild && IsWildFamily(f);
      }
    }
  }

  /** Finishing the colours is starting the wild faces. */
  lemma ColorsDone(cards: seq<Card>)
    requires CountsSoFar(cards, |CardColors|, 0)
    ensures WildFacesSoFar(cards, 0)
  {
    forall c, f ensures Count(cards, c, f) == if c != Color.Wild || FaceRank(f) < 13 then Copies(c, f) else 0 {
      if c == Color.Wild && FaceRank(f) < 13 {
        assert !(f == Face.Wild || f == WildDrawFour);
      }
    }
  }

  lemma WildStart(cards: seq<Card>, wi: nat)
    requires wi < |WildFaces| && WildFacesSoFar(cards, wi)
    ensures WildCountsSoFar(cards, wi, 0)
  {
    RanksOfTables();
  }

  lemma WildDone(cards: seq<Card>, wi: nat)
    requires wi < |WildFaces| && WildCountsSoFar(cards, wi, WildCardFaceAmount)
    ensures WildFacesSoFar(cards, wi + 1)
  {
    RanksOfTables();
    forall c, f ensures Count(cards, c, f) == if c != Color.Wild || FaceRank(f) < 14 + wi then Copies(c, f) else 0 {
      if c == Color.Wild && FaceRank(f) == 13 + wi {
        assert f == WildFaces[wi];
      }
    }
  }

  /** After both wild faces every colour and face has its copies. */
  lemma CountsDone(cards: seq<Card>)
    requires WildFacesSoFar(cards, |WildFaces|)
    ensures forall c, f :: Count(cards, c, f) == Copies(c, f)
  {
    forall c, f ensures Count(cards, c, f) == Copies(c, f) {
      if c == Color.Wild && FaceRank(f) >= 15 {
        assert f == WildDrawEight;
      }
    }
  }

  /** A prefix of the full length is the catalogue. */
  lemma PrefixDone(cards: seq<Card>)
    requires CatalogPrefix(cards) && |cards| == CatalogSize
    ensures forall i :: 0 <= i < |cards| ==> cards[i].id == i && cards[i] == CatalogCard(i)
  {
    assert cards == Catalog();
  }

  /**
   * `create_cards`: appends, for each colour in order, one "0" and two of every
   * other coloured face, then four of each wild face, each card taking the
   * current length of the list as its id. The result is exactly the catalogue,
   * ids 0..107 in construction order, with the advertised number of copies.
   */
  method CreateCards() returns (cards: seq<Card>)
    ensures |cards| == CatalogSize
    ensures forall i :: 0 <= i < |cards| ==> cards[i].id == i && cards[i] == CatalogCard(i)
    ensures forall c, f :: Count(cards, c, f) == Copies(c, f)
  {
    cards := [];
    for ci := 0 to |CardColors|
      invariant |cards| == 25 * ci
      invariant CatalogPrefix(cards) && CountsSoFar(cards, ci, 0)
    {
      var color := CardColors[ci];
      for fi := 0 to |ColoredFaces|
        invariant |cards| == 25 * ci + (if fi == 0 then 0 else 2 * fi - 1)
        invariant CatalogPrefix(cards) && CountsSoFar(cards, ci, fi)
      {
        var face := ColoredFaces[fi];
        ghost var before := cards;
        cards := cards + [Card(color, face, |cards|)];
        if face != Zero {
          cards := cards + [Card(color, face, |cards|)];
        }
        ColoredFaceStep(before, ci, fi, cards);
      }
      ColorDone(cards, ci);
    }
    ColorsDone(cards);
    for wi := 0 to |WildFaces|
      invariant |cards| == 100 + 4 * wi
      invariant CatalogPrefix(cards) && WildFacesSoFar(cards, wi)
    {
      var face := WildFaces[wi];
      WildStart(cards, wi);
      for k := 0 to WildCardFaceAmount
        invariant |cards| == 100 + 4 * wi + k
        invariant CatalogPrefix(cards) && WildCountsSoFar(cards, wi, k)
      {
        ghost var before := cards;
        cards := cards + [Card(Color.Wild, face, |cards|)];
        WildFaceStep(before, wi, k, cards);
      }
      WildDone(cards, wi);
    }
    CountsDone(cards);
    PrefixDone(cards);
  }

  /** The seven cards (fewer, or none, once the deck runs short) dealt to seat `j`. */
  function DealtHand(cards: seq<Card>, j: nat): seq<Card> {
    cards[Min(7 * j, |cards|)..Min(7 * j + 7, |cards|)]
  }

  /** The deal once the first `i` players have their hands. */
  ghost predicate DealtUpTo(players: seq<Player>, cards: seq<Card>, dealt: seq<Player>, rest: seq<Card>, i: nat) {
    && i <= |players| && |dealt| == |players|
    && rest == cards[Min(7 * i, |cards|)..]
    && (forall j :: 0 <= j < i ==> dealt[j] == players[j].(hand := DealtHand(cards, j)))
    && (forall j :: i <= j < |players| ==> dealt[j] == players[j])
    && Hands(dealt[..i]) + rest == cards
  }

  /** What is left before seat `i` is dealt splits into its hand and what is left after. */
  lemma DealSlices(cards: seq<Card>, rest: seq<Card>, i: nat)
    requires rest == cards[Min(7 * i, |cards|)..]
    ensures rest[..Min(HandSize, |rest|)] == DealtHand(cards, i)
    ensures rest[Min(HandSize, |rest|)..] == cards[Min(7 * (i + 1), |cards|)..]
  {
    var lo, hi := Min(7 * i, |cards|), Min(7 * i + 7, |cards|);
    assert lo + Min(HandSize, |rest|) == hi;
  }

  /** One pass of the deal loop: player `i` takes the front of what is left. */
  lemma DealStep(players: seq<Player>, cards: seq<Card>, dealt: seq<Player>, rest: seq<Card>, i: nat)
    requires DealtUpTo(players, cards, dealt, rest, i) && i < |players|
    ensures var take := Min(HandSize, |rest|);
      DealtUpTo(players, cards, dealt[i := dealt[i].(hand := rest[..take])], rest[take..], i + 1)
  {
    var take := Min(HandSize, |rest|);
    DealSlices(cards, rest, i);
    var next := dealt[i := dealt[i].(hand := rest[..take])];
    assert next[..i + 1][..i] == dealt[..i];
    assert Hands(next[..i + 1]) == Hands(dealt[..i]) + rest[..take];
    assert rest[..take] + rest[take..] == rest;
    assert Hands(next[..i + 1]) + rest[take..] == cards;
    forall j | 0 <= j < i + 1
      ensures next[j] == players[j].(hand := DealtHand(cards, j))
    {
    }
    forall j | i + 1 <= j < |players|
      ensures next[j] == players[j]
    {
    }
  }

  /** Before the deal loop nobody has a hand yet. */
  lemma DealStart(players: seq<Player>, cards: seq<Card>)
    ensures DealtUpTo(players, cards, players, cards, 0)
  {
    assert players[..0] == [];
  }

  /** After the deal loop every seat has its hand. */
  lemma DealDone(players: seq<Player>, cards: seq<Card>, dealt: seq<Player>, rest: seq<Card>)
    requires DealtUpTo(players, cards, dealt, rest, |players|)
    ensures Hands(dealt) + rest == cards
  {
    assert dealt[..|players|] == dealt;
  }

  /**
   * `distribute_cards`: in roster order, each player's hand becomes the next
   * seven cards from the front of `cards` (fewer, or none, once it runs short),
   * and those cards leave `cards`.
   */
  method DistributeCards(players: seq<Player>, cards: seq<Card>) returns (dealt: seq<Player>, rest: seq<Card>)
    ensures |dealt| == |players|
    ensures forall i :: 0 <= i < |dealt| ==> dealt[i] == players[i].(hand := DealtHand(cards, i))
    ensures rest == cards[Min(7 * |players|, |cards|)..]
    ensures Hands(dealt) + rest == cards
  {
    DealStart(players, cards);
    dealt, rest := players, cards;
    for i := 0 to |players|
      invariant DealtUpTo(players, cards, dealt, rest, i)
    {
      DealStep(players, cards, dealt, rest, i);
      var take := Min(HandSize, |rest|);
      dealt := dealt[i := dealt[i].(hand := rest[..take])];
      rest := rest[take..];
    }
    DealDone(players, cards, dealt, rest);
  }
}
