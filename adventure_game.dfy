/** The text adventure of adventureGame.py: a player with health and an
    inventory, rooms with items and named exits, and a game that moves
    between the rooms of a fixed map and picks items up. */
module Adventure {
  import opened Wrappers
  import opened Strings

  /** `s.index(x)`: the first position of `x`, or `None` where Python would
      raise `ValueError`. */
  function IndexOf<T(==)>(s: seq<T>, x: T): (k: Option<nat>)
    ensures k.Some? <==> x in s
    ensures k.Some? ==> k.value < |s| && s[k.value] == x
    ensures k.Some? ==> forall j :: 0 <= j < k.value ==> s[j] != x
  {
    if s == [] then None
    else if s[0] == x then Some(0)
    else
      match IndexOf(s[1..], x)
      case None => None
      case Some(k) => Some(k + 1)
  }

  /** `s.remove(x)`: the first element equal to `x` is deleted. */
  function RemoveFirst<T(==)>(s: seq<T>, x: T): (r: seq<T>)
    requires x in s
    ensures |r| == |s| - 1
    ensures r == s[..IndexOf(s, x).value] + s[IndexOf(s, x).value + 1..]
  {
    if s[0] == x then s[1..]
    else
      var t := s[1..];
      var k := IndexOf(t, x).value;
      assert IndexOf(s, x).value == k + 1;
      assert [s[0]] + t[..k] == s[..k + 1] && t[k + 1..] == s[k + 2..];
      Reassociate([s[0]], t[..k], t[k + 1..]);
      [s[0]] + RemoveFirst(t, x)
  }

  /** `[i.lower() for i in items]` */
  function LowerAll(items: seq<string>): (r: seq<string>)
    ensures |r| == |items|
    ensures forall i :: 0 <= i < |items| ==> r[i] == Lower(items[i])
  {
    if items == [] then [] else [Lower(items[0])] + LowerAll(items[1..])
  }

  /** The position of the first item equal to `item` ignoring case. */
  function MatchIndex(items: seq<string>, item: string): Option<nat>
  {
    IndexOf(LowerAll(items), Lower(item))
  }

  /** `remove` of the item found by a case-insensitive search deletes that
      very position: an equal item earlier on would have matched first. */
  lemma RemoveMatch(items: seq<string>, item: string, k: nat)
    requires MatchIndex(items, item) == Some(k)
    ensures k < |items| && Lower(items[k]) == Lower(item)
    ensures forall j :: 0 <= j < k ==> Lower(items[j]) != Lower(item)
    ensures RemoveFirst(items, items[k]) == items[..k] + items[k + 1..]
  {
    var lowered := LowerAll(items);
    assert k < |lowered| && lowered[k] == Lower(item);
    assert forall j :: 0 <= j < k ==> lowered[j] != Lower(item);
    assert forall j :: 0 <= j < k ==> items[j] != items[k];
    FirstAt(items, items[k], k);
  }

  /** The position of a value with no equal value before it is its first
      index. */
  lemma FirstAt<T>(s: seq<T>, x: T, k: nat)
    requires k < |s| && s[k] == x
    requires forall j :: 0 <= j < k ==> s[j] != x
    ensures IndexOf(s, x) == Some(k)
  {
  }

  class Player {
    const name: string
    var health: int
    var inventory: seq<string>

    /** A missing inventory starts empty. */
    constructor (name: string, health: int, inventory: Option<seq<string>>)
      ensures this.name == name && this.health == health
      ensures this.inventory == if inventory.Some? then inventory.value else []
    {
      this.name := name;
      this.health := health;
      this.inventory := if inventory.Some? then inventory.value else [];
    }

    /** Health drops by exactly `amount`, with no floor. */
    method TakeDamage(amount: int)
      modifies this
      ensures health == old(health) - amount
      ensures inventory == old(inventory)
    {
      health := health - amount;
    }

    /** Health rises by exactly `amount`, with no ceiling. */
    method Heal(amount: int)
      modifies this
      ensures health == old(health) + amount
      ensures inventory == old(inventory)
    {
      health := health + amount;
    }

    method AddToInventory(item: string)
      modifies this
      ensures inventory == old(inventory) + [item]
      ensures health == old(health)
    {
      inventory := inventory + [item];
    }
  }

  class Room {
    const name: string
    const description: string
    var items: seq<string>
    /** Direction to the name of the room it leads to. */
    const exits: map<string, string>

    constructor (name: string, description: string, items: seq<string>, exits: map<string, string>)
      ensures this.name == name && this.description == description
      ensures this.items == items && this.exits == exits
    {
      this.name := name;
      this.description := description;
      this.items := items;
      this.exits := exits;
    }
  }

  /** Every exit of every room of `rooms` names a room of `rooms`. */
  predicate Closed(rooms: map<string, Room>)
  {
    forall n, d :: n in rooms && d in rooms[n].exits ==> rooms[n].exits[d] in rooms
  }

  /** Every exit can be walked back: the room it leads to has an exit to the
      room it came from. */
  predicate Reversible(rooms: map<string, Room>)
  {
    forall n, d :: n in rooms && d in rooms[n].exits ==>
      rooms[n].exits[d] in rooms && exists e :: e in rooms[rooms[n].exits[d]].exits && rooms[rooms[n].exits[d]].exits[e] == n
  }

  /** Every room is filed under its own name. */
  predicate Named(rooms: map<string, Room>)
  {
    forall n :: n in rooms ==> rooms[n].name == n
  }

  class Game {
    const player: Player
    var currentRoom: Room
    /** The map of rooms that `move` looks exit targets up in. */
    const rooms: map<string, Room>

    constructor (player: Player, startRoom: Room, rooms: map<string, Room>)
      ensures this.player == player && currentRoom == startRoom && this.rooms == rooms
    {
      this.player := player;
      this.currentRoom := startRoom;
      this.rooms := rooms;
    }

    /** Following an exit whose target is not in the map raises `KeyError`
        and changes nothing; a direction that is not an exit changes
        nothing; otherwise the room the exit names becomes current. */
    method Move(direction: string) returns (r: Outcome)
      modifies this
      ensures r.Fail? <==> direction in old(currentRoom).exits && old(currentRoom).exits[direction] !in rooms
      ensures r.Fail? ==> r.error == KeyError
      ensures r.Fail? || direction !in old(currentRoom).exits ==> currentRoom == old(currentRoom)
      ensures r.Pass? && direction in old(currentRoom).exits ==> currentRoom == rooms[old(currentRoom).exits[direction]]
      ensures currentRoom == old(currentRoom) || currentRoom in rooms.Values
      ensures Closed(rooms) && old(currentRoom) in rooms.Values ==> r == Pass && currentRoom in rooms.Values
    {
      if direction in currentRoom.exits {
        var nextRoomName := currentRoom.exits[direction];
        assert Closed(rooms) && currentRoom in rooms.Values ==> nextRoomName in rooms by {
          if Closed(rooms) && currentRoom in rooms.Values {
            var n :| n in rooms && rooms[n] == currentRoom;
            assert rooms[n].exits[direction] in rooms;
          }
        }
        if nextRoomName !in rooms {
          return Fail(KeyError);
        }
        currentRoom := rooms[nextRoomName];
      }
      return Pass;
    }

    /** The first room item equal to `item` ignoring case moves, in its own
        spelling, from the room to the end of the inventory; without such an
        item nothing changes. */
    method Take(item: string) returns (taken: Option<string>)
      modifies player, currentRoom
      ensures MatchIndex(old(currentRoom.items), item).None? ==>
        taken == None && player.inventory == old(player.inventory) && currentRoom.items == old(currentRoom.items)
      ensures MatchIndex(old(currentRoom.items), item).Some? ==>
        var k := MatchIndex(old(currentRoom.items), item).value;
        k < |old(currentRoom.items)|
        && taken == Some(old(currentRoom.items)[k])
        && player.inventory == old(player.inventory) + [old(currentRoom.items)[k]]
        && currentRoom.items == old(currentRoom.items)[..k] + old(currentRoom.items)[k + 1..]
      ensures taken.Some? ==> Lower(taken.value) == Lower(item)
      ensures |player.inventory| + |currentRoom.items| == old(|player.inventory| + |currentRoom.items|)
      ensures player.health == old(player.health)
    {
      var itemLower := Lower(item);
      var roomItemsLower := LowerAll(currentRoom.items);
      if itemLower in roomItemsLower {
        var k := IndexOf(roomItemsLower, itemLower).value;
        RemoveMatch(currentRoom.items, item, k);
        var actualItem := currentRoom.items[k];
        player.AddToInventory(actualItem);
        currentRoom.items := RemoveFirst(currentRoom.items, actualItem);
        return Some(actualItem);
      }
      return None;
    }

    /** Using an item only reports whether the player holds it. */
    method Use(item: string) returns (held: bool)
      ensures held <==> item in player.inventory
    {
      held := item in player.inventory;
    }
  }

  /** The names and exits of the four rooms of the game. */
  predicate Layout(rooms: map<string, Room>)
  {
    && rooms.Keys == {"Forest Entrance", "Forest Clearing", "Cave Entrance", "Treasure Room"}
    && rooms["Forest Entrance"].name == "Forest Entrance"
    && rooms["Forest Clearing"].name == "Forest Clearing"
    && rooms["Cave Entrance"].name == "Cave Entrance"
    && rooms["Treasure Room"].name == "Treasure Room"
    && rooms["Forest Entrance"].exits == map["north" := "Forest Clearing"]
    && rooms["Forest Clearing"].exits == map["south" := "Forest Entrance", "east" := "Cave Entrance"]
    && rooms["Cave Entrance"].exits == map["west" := "Forest Clearing", "east" := "Treasure Room"]
    && rooms["Treasure Room"].exits == map["west" := "Cave Entrance"]
  }

  /** In the game's map every exit leads to a room of the map, so `move`
      never raises `KeyError`, and every exit can be walked back. */
  lemma LayoutConnected(rooms: map<string, Room>)
    requires Layout(rooms)
    ensures Named(rooms) && Closed(rooms) && Reversible(rooms)
  {
    assert rooms["Forest Entrance"].exits["north"] == "Forest Clearing";
    assert rooms["Forest Clearing"].exits["south"] == "Forest Entrance";
    assert rooms["Forest Clearing"].exits["east"] == "Cave Entrance";
    assert rooms["Cave Entrance"].exits["west"] == "Forest Clearing";
    assert rooms["Cave Entrance"].exits["east"] == "Treasure Room";
    assert rooms["Treasure Room"].exits["west"] == "Cave Entrance";
  }

  /** `predefined_rooms`: the four rooms, each with its one item. */
  method PredefinedRooms() returns (rooms: map<string, Room>, forestEntrance: Room)
    ensures Layout(rooms)
    ensures forestEntrance == rooms["Forest Entrance"]
    ensures forall n :: n in rooms ==> fresh(rooms[n])
    ensures rooms["Forest Entrance"].items == ["map"]
    ensures rooms["Forest Clearing"].items == ["Sword"]
    ensures rooms["Cave Entrance"].items == ["Torch"]
    ensures rooms["Treasure Room"].items == ["Treasure"]
  {
    forestEntrance := new Room("Forest Entrance",
      "You find yourself at the entrance of a mysterious forest.",
      ["map"], map["north" := "Forest Clearing"]);
    var forestClearing := new Room("Forest Clearing",
      "A peaceful clearing in the middle of the forest.",
      ["Sword"], map["south" := "Forest Entrance", "east" := "Cave Entrance"]);
    var caveEntrance := new Room("Cave Entrance",
      "A dark cave entrance with a mysterious aura.",
      ["Torch"], map["west" := "Forest Clearing", "east" := "Treasure Room"]);
    var treasureRoom := new Room("Treasure Room",
      "A room filled with glittering treasures.",
      ["Treasure"], map["west" := "Cave Entrance"]);
    rooms := map["Forest Entrance" := forestEntrance, "Forest Clearing" := forestClearing,
                 "Cave Entrance" := caveEntrance, "Treasure Room" := treasureRoom];
  }

  /** The command loop reduced to its moves: in a closed map, a game that
      is in a room of the map stays in the map whatever the directions. */
  method Wander(game: Game, directions: seq<string>)
    requires Closed(game.rooms) && game.currentRoom in game.rooms.Values
    modifies game
    ensures game.currentRoom in game.rooms.Values
  {
    for i := 0 to |directions|
      invariant game.currentRoom in game.rooms.Values
    {
      var r := game.Move(directions[i]);
    }
  }

  /** "treasure" matches the one item of the treasure room. */
  lemma TreasureMatches()
    ensures MatchIndex(["Treasure"], "treasure") == Some(0)
  {
    TreasureLower();
    assert LowerAll(["Treasure"]) == [Lower("Treasure")];
  }

  lemma TreasureLower()
    ensures Lower("treasure") == "treasure" && Lower("Treasure") == "treasure"
  {
    var lower, upper := Lower("treasure"), Lower("Treasure");
    assert forall i :: 0 <= i < 8 ==> lower[i] == "treasure"[i];
    assert forall i :: 0 <= i < 8 ==> upper[i] == "treasure"[i];
  }

  /** From the entrance, north, east and east reach the treasure, which can
      be taken whatever its spelling. */
  method TreasureHunt() returns (game: Game, taken: Option<string>)
    ensures game.currentRoom.name == "Treasure Room"
    ensures taken == Some("Treasure")
    ensures game.player.inventory == ["Treasure"]
    ensures game.currentRoom.items == []
  {
    var rooms, start := PredefinedRooms();
    var player := new Player("Adventurer", 100, Some([]));
    game := new Game(player, start, rooms);
    var r := game.Move("north");
    assert game.currentRoom == rooms["Forest Clearing"];
    r := game.Move("east");
    assert game.currentRoom == rooms["Cave Entrance"];
    r := game.Move("east");
    assert game.currentRoom == rooms["Treasure Room"];
    TreasureMatches();
    taken := game.Take("treasure");
  }
}
