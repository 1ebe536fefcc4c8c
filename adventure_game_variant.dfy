/** AdventureGame.py: the same player, room and game as adventureGame.py
    over a map that files rooms under the wrong names, with a start room
    that is not in the map at all. */
module AdventureVariant {
  import opened Wrappers
  import opened Adventure

  /** Names, exits and wiring of the map of AdventureGame.py: the key
      "Forest Entrance" holds the forest clearing, and the keys
      "Forest Clearing" and "Cave Entrance" both hold the cave entrance. */
  predicate VariantLayout(rooms: map<string, Room>)
  {
    && rooms.Keys == {"Forest Entrance", "Forest Clearing", "Cave Entrance", "Treasure Room"}
    && rooms["Forest Entrance"].name == "Forest Clearing"
    && rooms["Forest Clearing"].name == "Cave Entrance"
    && rooms["Cave Entrance"] == rooms["Forest Clearing"]
    && rooms["Treasure Room"].name == "Treasure Room"
    && rooms["Forest Entrance"].exits == map["south" := "Forest Entrance"]
    && rooms["Forest Clearing"].exits == map["north" := "Forest Entrance", "east" := "Treasure Room"]
    && rooms["Treasure Room"].exits == map["west" := "Cave Entrance"]
  }

  /** Every exit still names a key of the map, so `move` never raises. */
  lemma VariantClosed(rooms: map<string, Room>)
    requires VariantLayout(rooms)
    ensures Closed(rooms)
  {
    assert rooms["Forest Entrance"].exits["south"] == "Forest Entrance";
    assert rooms["Forest Clearing"].exits["north"] == "Forest Entrance";
    assert rooms["Forest Clearing"].exits["east"] == "Treasure Room";
    assert rooms["Treasure Room"].exits["west"] == "Cave Entrance";
  }

  /** No room of the map is the room named "Forest Entrance", and the
      rooms are not filed under their own names. */
  lemma VariantMisnamed(rooms: map<string, Room>)
    requires VariantLayout(rooms)
    ensures !Named(rooms)
    ensures forall n :: n in rooms ==> rooms[n].name != "Forest Entrance"
  {
    assert rooms["Forest Entrance"].name != "Forest Entrance";
  }

  /** The cave's north exit leads to the clearing, whose only exit leads
      back to the clearing itself: that exit cannot be walked back. */
  lemma VariantOneWay(rooms: map<string, Room>)
    requires VariantLayout(rooms)
    ensures !Reversible(rooms)
  {
    var cave := rooms["Cave Entrance"];
    assert cave.exits["north"] == "Forest Entrance";
    var back := rooms["Forest Entrance"].exits;
    assert forall e :: e in back ==> back[e] == "Forest Entrance";
    assert "Forest Entrance" != "Cave Entrance";
  }

  /** The module-level rooms and map, and the start room that `main`
      builds on its own. */
  method VariantRooms() returns (rooms: map<string, Room>, start: Room)
    ensures VariantLayout(rooms)
    ensures fresh(start) && start !in rooms.Values
    ensures start.name == "Forest Entrance" && start.items == ["map"]
    ensures start.exits == map["north" := "Forest Clearing"]
  {
    var forestClearing := new Room("Forest Clearing",
      "A peaceful clearing in the middle of the forest.",
      ["Sword"], map["south" := "Forest Entrance"]);
    var caveEntrance := new Room("Cave Entrance",
      "A dark cave entrance with a mysterious aura.",
      ["Torch"], map["north" := "Forest Entrance", "east" := "Treasure Room"]);
    var treasureRoom := new Room("Treasure Room",
      "A room filled with glittering treasures.",
      ["Treasure"], map["west" := "Cave Entrance"]);
    rooms := map["Forest Entrance" := forestClearing, "Forest Clearing" := caveEntrance,
                 "Cave Entrance" := caveEntrance, "Treasure Room" := treasureRoom];
    start := new Room("Forest Entrance",
      "You find yourself at the entrance of a mysterious forest.",
      ["map"], map["north" := "Forest Clearing"]);
  }

  /** Moving north from the start follows the exit named "Forest Clearing"
      but lands in the room named "Cave Entrance"; after that, no sequence
      of moves leads back to the start room. */
  method Miswired(directions: seq<string>) returns (game: Game, start: Room, firstRoom: Room)
    ensures start.name == "Forest Entrance" && start.exits == map["north" := "Forest Clearing"]
    ensures firstRoom.name == "Cave Entrance"
    ensures game.currentRoom != start && game.currentRoom.name != "Forest Entrance"
  {
    var rooms;
    rooms, start := VariantRooms();
    var player := new Player("Adventurer", 100, Some([]));
    game := new Game(player, start, rooms);
    var r := game.Move("north");
    firstRoom := game.currentRoom;
    VariantClosed(rooms);
    VariantMisnamed(rooms);
    Wander(game, directions);
  }
}
