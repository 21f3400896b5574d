/** Several maps and generators on one map's data: each map uses the cells exactly while it has players. */
module Activation {
  import opened Basics
  import opened ViewSets
  import opened MapData

  function Players(uids: set<nat>): set<nat> {
    set u | u in uids && IsPlayer(u)
  }

  lemma PlayersAfterEnter(uids: set<nat>, u: nat)
    requires u !in uids
    ensures |Players(uids + {u})| == |Players(uids)| + if IsPlayer(u) then 1 else 0
  {
    if IsPlayer(u) {
      assert Players(uids + {u}) == Players(uids) + {u};
    } else {
      assert Players(uids + {u}) == Players(uids);
    }
  }

  datatype User = OfMap(mapId: nat) | OfGenerator(id: nat)

  /** The members of a map and its player counter. */
  datatype Room = Room(entities: set<nat>, count: int)

  /** A map's own view: the data it shares, and its room. */
  datatype Use<R> = Use(data: State<R>, room: Room)

  /** GameMap::enterRoom: the first player unpacks the cells. */
  function EnterOn<R>(codec: Codec, n: nat, s: Use<R>, map_: R, u: nat): Use<R> {
    var r := s.room;
    if u in r.entities then s
    else if !IsPlayer(u) then Use(s.data, Room(r.entities + {u}, r.count))
    else Use(if r.count == 0 then Unpacking(codec, n, s.data, Some(map_)) else s.data, Room(r.entities + {u}, r.count + 1))
  }

  /** GameMap::leaveRoom: the last player packs them. */
  function LeaveOn<R>(codec: Codec, s: Use<R>, map_: R, u: nat): Use<R> {
    var r := s.room;
    if u !in r.entities then s
    else if !IsPlayer(u) then Use(s.data, Room(r.entities - {u}, r.count))
    else Use(if r.count - 1 == 0 then Packing(codec, s.data, Some(map_)) else s.data, Room(r.entities - {u}, r.count - 1))
  }

  datatype Shared = Shared(data: State<User>, rooms: map<nat, Room>)

  function On(s: Shared, m: nat): Use<User>
    requires m in s.rooms
  {
    Use(s.data, s.rooms[m])
  }

  function Put(s: Shared, m: nat, after: Use<User>): Shared {
    Shared(after.data, s.rooms[m := after.room])
  }

  /** A generator's turn is its unpack, any steps of others, and its pack; the last two concern every map's data. */
  datatype Event =
    | Entering(mapId: nat, u: nat)
    | Leaving(mapId: nat, u: nat)
    | TurnBegins(id: nat)
    | TurnEnds(id: nat)
    | PackAll
    | UnpackAll

  function Next(codec: Codec, n: nat, s: Shared, e: Event): Shared {
    match e
    case Entering(m, u) => if m in s.rooms then Put(s, m, EnterOn(codec, n, On(s, m), OfMap(m), u)) else s
    case Leaving(m, u) => if m in s.rooms then Put(s, m, LeaveOn(codec, On(s, m), OfMap(m), u)) else s
    case TurnBegins(g) => s.(data := Unpacking(codec, n, s.data, Some(OfGenerator(g))))
    case TurnEnds(g) => s.(data := Packing(codec, s.data, Some(OfGenerator(g))))
    case PackAll => s.(data := Packing(codec, After(codec, n, s.data, Resume), None))
    case UnpackAll => s.(data := After(codec, n, s.data, UnpackAndSuspend))
  }

  function Outcome(codec: Codec, n: nat, s: Shared, events: seq<Event>): Shared {
    if events == [] then s else Next(codec, n, Outcome(codec, n, s, events[..|events| - 1]), events[|events| - 1])
  }

  /** The loaded cells, no user, and maps with nobody on them. */
  function Loaded(grid: seq<Cell>, maps: set<nat>): Shared {
    Shared(State(Cells(grid), true, {}), map m | m in maps :: Room({}, 0))
  }

  /** Every map counts its players, and uses the data exactly while there are some. */
  ghost predicate Counted(s: Shared) {
    forall m :: m in s.rooms ==>
                  s.rooms[m].count == |Players(s.rooms[m].entities)| && (OfMap(m) in s.data.refs <==> s.rooms[m].count > 0)
  }

  lemma NextKeepsCount(codec: Codec, n: nat, s: Shared, e: Event)
    requires Counted(s)
    ensures Counted(Next(codec, n, s, e)) && Next(codec, n, s, e).rooms.Keys == s.rooms.Keys
  {
    match e
    case Entering(m, u) =>
      if m in s.rooms && u !in s.rooms[m].entities {
        PlayersAfterEnter(s.rooms[m].entities, u);
      }
    case Leaving(m, u) =>
      if m in s.rooms && u in s.rooms[m].entities {
        PlayersAfterEnter(s.rooms[m].entities - {u}, u);
        assert s.rooms[m].entities - {u} + {u} == s.rooms[m].entities;
      }
    case _ =>
  }

  /** The data's part of every event is a few steps of MapData. */
  lemma NextKeepsGrid(codec: Codec, n: nat, s: Shared, e: Event)
    requires codec.Lossless() && Readable(s.data) && |Logical(codec, n, s.data)| == n
    ensures Readable(Next(codec, n, s, e).data)
    ensures Logical(codec, n, Next(codec, n, s, e).data) == Logical(codec, n, s.data)
  {
    hide Readable, Logical, Codec.Lossless;
    match e
    case Entering(m, u) => StepKeepsGrid(codec, n, s.data, Unpack(Some(OfMap(m))));
    case Leaving(m, u) => StepKeepsGrid(codec, n, s.data, Pack(Some(OfMap(m))));
    case TurnBegins(g) => StepKeepsGrid(codec, n, s.data, Unpack(Some(OfGenerator(g))));
    case TurnEnds(g) => StepKeepsGrid(codec, n, s.data, Pack(Some(OfGenerator(g))));
    case PackAll =>
      StepKeepsGrid(codec, n, s.data, Resume);
      StepKeepsGrid(codec, n, After(codec, n, s.data, Resume), Pack(None));
    case UnpackAll => StepKeepsGrid(codec, n, s.data, UnpackAndSuspend);
  }

  /**
    * After any interleaving of the maps' entries and exits, the generators' turns, packAll and unpackAll, each map
    * counts its players and uses the data exactly while there are some.
    */
  lemma {:induction false} EveryRunCounts(codec: Codec, grid: seq<Cell>, maps: set<nat>, events: seq<Event>)
    ensures Counted(Outcome(codec, |grid|, Loaded(grid, maps), events))
    ensures Outcome(codec, |grid|, Loaded(grid, maps), events).rooms.Keys == maps
  {
    if events == [] {
      assert Players({}) == {};
    } else {
      EveryRunCounts(codec, grid, maps, events[..|events| - 1]);
      NextKeepsCount(codec, |grid|, Outcome(codec, |grid|, Loaded(grid, maps), events[..|events| - 1]), events[|events| - 1]);
    }
  }

  lemma {:induction false} EveryRunKeepsGrid(codec: Codec, grid: seq<Cell>, maps: set<nat>, events: seq<Event>)
    requires codec.Lossless()
    ensures var s := Outcome(codec, |grid|, Loaded(grid, maps), events);
            Readable(s.data) && Logical(codec, |grid|, s.data) == grid
  {
    if events == [] {
    } else {
      EveryRunKeepsGrid(codec, grid, maps, events[..|events| - 1]);
      NextKeepsGrid(codec, |grid|, Outcome(codec, |grid|, Loaded(grid, maps), events[..|events| - 1]), events[|events| - 1]);
    }
  }

  /** The last event about the entity and the map was its entry. */
  function IsInside(events: seq<Event>, m: nat, u: nat): bool {
    if events == [] then false
    else
      var e := events[|events| - 1];
      if e == Entering(m, u) then true else if e == Leaving(m, u) then false else IsInside(events[..|events| - 1], m, u)
  }

  /** The last event about the generator was the beginning of a turn. */
  function InTurn(events: seq<Event>, g: nat): bool {
    if events == [] then false
    else
      var e := events[|events| - 1];
      if e == TurnBegins(g) then true else if e == TurnEnds(g) then false else InTurn(events[..|events| - 1], g)
  }

  lemma NextWho(codec: Codec, n: nat, s: Shared, e: Event, m: nat, u: nat, g: nat)
    requires m in s.rooms
    ensures var s' := Next(codec, n, s, e);
            && s'.rooms.Keys == s.rooms.Keys
            && (u in s'.rooms[m].entities <==> e == Entering(m, u) || (u in s.rooms[m].entities && e != Leaving(m, u)))
            && (OfGenerator(g) in s'.data.refs <==> e == TurnBegins(g) || (OfGenerator(g) in s.data.refs && e != TurnEnds(g)))
  {
    hide Logical;
  }

  /** After any interleaving: who is on a map, and which generators use the data, follows from their own last events. */
  lemma {:induction false} EveryRunWho(codec: Codec, grid: seq<Cell>, maps: set<nat>, events: seq<Event>, m: nat, u: nat, g: nat)
    requires m in maps
    ensures var s := Outcome(codec, |grid|, Loaded(grid, maps), events);
            && s.rooms.Keys == maps
            && (u in s.rooms[m].entities <==> IsInside(events, m, u))
            && (OfGenerator(g) in s.data.refs <==> InTurn(events, g))
  {
    hide Next;
    if events == [] {
    } else {
      EveryRunWho(codec, grid, maps, events[..|events| - 1], m, u, g);
      NextWho(codec, |grid|, Outcome(codec, |grid|, Loaded(grid, maps), events[..|events| - 1]), events[|events| - 1], m, u, g);
    }
  }

  /** A map with a player on it, and a generator in its turn, read the loaded cells, whatever the others do. */
  lemma PlayersReadCells(codec: Codec, grid: seq<Cell>, maps: set<nat>, events: seq<Event>, m: nat, u: nat)
    requires codec.Lossless() && m in maps
    ensures var s := Outcome(codec, |grid|, Loaded(grid, maps), events);
            && (m in s.rooms && u in s.rooms[m].entities && IsPlayer(u) ==> s.data.store == Cells(grid))
            && (OfGenerator(u) in s.data.refs ==> s.data.store == Cells(grid))
  {
    var s := Outcome(codec, |grid|, Loaded(grid, maps), events);
    EveryRunCounts(codec, grid, maps, events);
    EveryRunKeepsGrid(codec, grid, maps, events);
    if u in s.rooms[m].entities && IsPlayer(u) {
      assert u in Players(s.rooms[m].entities);
    }
  }
}
