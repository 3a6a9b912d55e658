/** Cards, players and the small shared types of the engine (common/types.py). */
module Types {

  /** The closed set of card colours; `Wild` is the colour of an uncoloured wild card. */
  datatype Color = Blue | Green | Red | Yellow | Wild

  /** The closed set of card faces. `WildDrawEight` only exists on cheat-minted cards. */
  datatype Face =
    | Zero | One | Two | Three | Four | Five | Six | Seven | Eight | Nine
    | Skip | Reverse | DrawTwo
    | Wild | WildDrawFour | WildDrawEight

  /** The faces whose name starts with "Wild": their colour resets to Wild on a reshuffle. */
  predicate IsWildFamily(f: Face) {
    f == Face.Wild || f == WildDrawFour || f == WildDrawEight
  }

  /** A card; catalogue cards carry ids 0..107, cheat cards a large random id. */
  datatype Card = Card(color: Color, face: Face, id: int)

  /** A participant: the hand in acquisition order and the two per-turn flags. */
  datatype Player = Player(hand: seq<Card>, hasPlayedCard: bool, hasSaidUno: bool, id: string)

  datatype Option<T> = None | Some(value: T)
}

/** The success/error outcome and the cheat codes (application/types.py). */
module Outcomes {

  /** `success(None)` or `error(message)`; every success of the engine carries no payload. */
  datatype Result = Ok | Err(msg: string)

  datatype GameCheat = GiveWildFour | GiveWildEight
}
