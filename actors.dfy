/** The combatants the engine works on. Only the members the combat engine
    and the room read or write are modelled; everything else about a player
    or a non-player character belongs to other parts of the game. */
module Actors {

  /** `GameStatus`: the engine only ever sets Standing and Fighting; every
      other status of the game is folded into Other. */
  datatype GameStatus = Standing | Fighting | Other

  class Player {
    const Key: string
    const Forename: string
    const ShortDescription: string
    /** The key of the player's room; no operation of this model moves anyone. */
    const Location: string
    var HitPoints: int
    var Status: GameStatus
    /** Names this player has learnt for other players, by their key. */
    var RememberedNames: map<string, string>

    constructor (key: string, forename: string, shortDescription: string, location: string, hitPoints: int)
      ensures Key == key && Forename == forename && ShortDescription == shortDescription
      ensures Location == location
      ensures HitPoints == hitPoints && Status == Standing && RememberedNames == map[]
    {
      Key, Forename, ShortDescription, Location := key, forename, shortDescription, location;
      HitPoints, Status, RememberedNames := hitPoints, Standing, map[];
    }
  }

  class NonPlayer {
    const Key: string
    const Name: string
    const Description: string
    const Keywords: seq<string>
    const Aggro: bool
    /** The key of the character's room. */
    const Location: string
    var HitPoints: int
    var Status: GameStatus

    constructor (key: string, name: string, aggro: bool, location: string, hitPoints: int)
      ensures Key == key && Name == name && Aggro == aggro && Location == location
      ensures HitPoints == hitPoints && Status == Standing
    {
      Key, Name, Aggro, Location := key, name, aggro, location;
      HitPoints, Status := hitPoints, Standing;
    }
  }
}
