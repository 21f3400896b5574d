/** Who sees whom: rooms, positions and view sets as values, and every operation that changes them. */
module ViewSets {

  const CELLS_PER_VIEW := 18
  const PLAYERID_FIRST := 1000000
  const PLAYERID_LAST := 1999999999

  predicate IsPlayer(uid: nat) {
    PLAYERID_FIRST <= uid <= PLAYERID_LAST
  }

  lemma PlayerIds(uid: nat)
    ensures IsPlayer(uid) <==> 1_000_000 <= uid <= 1_999_999_999
  {
  }

  datatype Place = Place(mapId: nat, x: nat, y: nat)

  function Gap(x: int): nat {
    if x < 0 then -x else x
  }

  /** The larger of the two coordinate differences. */
  function Distance(a: Place, b: Place): nat {
    var dx, dy := Gap(a.x - b.x), Gap(a.y - b.y);
    if dx < dy then dy else dx
  }

  predicate Near(a: Place, b: Place) {
    Distance(a, b) <= CELLS_PER_VIEW
  }

  /** Within 18 cells on both axes. */
  lemma NearIff(a: Place, b: Place)
    ensures Near(a, b) <==> -18 <= a.x - b.x <= 18 && -18 <= a.y - b.y <= 18
  {
  }

  /** The members of each existing map, and the place and the view set of each entity, by UID. */
  datatype World = World(rooms: map<nat, set<nat>>, place: map<nat, Place>, view: map<nat, set<nat>>)

  /** The entity is a member of the room of its own map. */
  predicate InRoom(w: World, u: nat)
    requires u in w.place
  {
    w.place[u].mapId in w.rooms && u in w.rooms[w.place[u].mapId]
  }

  /** Both are members of the same room. */
  predicate Together(w: World, a: nat, b: nat)
    requires a in w.place && b in w.place
  {
    w.place[a].mapId == w.place[b].mapId && InRoom(w, a) && InRoom(w, b)
  }

  predicate WellFormed(w: World) {
    && w.view.Keys == w.place.Keys
    && (forall m, u :: m in w.rooms && u in w.rooms[m] ==> u in w.place && w.place[u].mapId == m)
    && (forall a, b :: a in w.view && b in w.view[a] ==> b in w.place)
  }

  /** Views are mutual, never reflexive, and hold only near entities of the same room. */
  predicate Mutual(w: World)
    requires WellFormed(w)
  {
    forall a, b :: a in w.view && b in w.view[a] ==>
                     a in w.view[b] && a != b && Together(w, a, b) && Near(w.place[a], w.place[b])
  }

  /** Two players in one room see each other exactly when they are near. */
  predicate PlayersExact(w: World)
    requires WellFormed(w)
  {
    forall a, b :: a in w.place && b in w.place && a != b && IsPlayer(a) && IsPlayer(b) && Together(w, a, b) ==>
                     (b in w.view[a] <==> Near(w.place[a], w.place[b]))
  }

  // ---- the operations ----

  function EnterRoom(w: World, u: nat): World
    requires u in w.place
  {
    var m := w.place[u].mapId;
    if m in w.rooms then w.(rooms := w.rooms[m := w.rooms[m] + {u}]) else w
  }

  function LeaveRoom(w: World, u: nat): World
    requires u in w.place
  {
    var m := w.place[u].mapId;
    if m in w.rooms then w.(rooms := w.rooms[m := w.rooms[m] - {u}]) else w
  }

  /** Whoever the entity sees stops seeing it; then it sees nobody. */
  function Cleared(view: map<nat, set<nat>>, u: nat): map<nat, set<nat>>
    requires u in view
  {
    map v | v in view :: if v == u then {} else if v in view[u] then view[v] - {u} else view[v]
  }

  function ClearView(w: World, u: nat): World
    requires u in w.view
  {
    w.(view := Cleared(w.view, u))
  }

  /** The other members of the entity's room that are near. */
  function Visible(w: World, u: nat): set<nat>
    requires WellFormed(w) && u in w.place
  {
    if InRoom(w, u) then set v | v in w.rooms[w.place[u].mapId] && v != u && Near(w.place[u], w.place[v]) else {}
  }

  /** Every other member of the room is added to both view sets when near, removed from both otherwise. */
  function UpdateView(w: World, u: nat): World
    requires WellFormed(w) && u in w.place
  {
    if !InRoom(w, u) then w
    else
      var room, near := w.rooms[w.place[u].mapId], Visible(w, u);
      w.(view := map v | v in w.view ::
                     if v == u then (w.view[u] - (room - {u})) + near
                     else if v in near then w.view[v] + {u}
                     else if v in room then w.view[v] - {u}
                     else w.view[v])
  }

  function PutAt(w: World, u: nat, p: Place): World
    requires u in w.place
  {
    w.(place := w.place[u := p])
  }

  lemma EnterRoomShape(w: World, u: nat)
    requires WellFormed(w) && u in w.place
    ensures WellFormed(EnterRoom(w, u))
  {
  }

  lemma LeaveRoomShape(w: World, u: nat)
    requires WellFormed(w) && u in w.place
    ensures WellFormed(LeaveRoom(w, u))
  {
  }

  lemma ClearShape(w: World, u: nat)
    requires WellFormed(w) && u in w.place
    ensures WellFormed(ClearView(w, u))
  {
  }

  lemma UpdateShape(w: World, u: nat)
    requires WellFormed(w) && u in w.place
    ensures WellFormed(UpdateView(w, u))
  {
  }

  function EnterMap(w: World, u: nat): World
    requires WellFormed(w) && u in w.place
  {
    if w.place[u].mapId in w.rooms then
      var entered := EnterRoom(w, u);
      EnterRoomShape(w, u);
      ClearShape(entered, u);
      UpdateView(ClearView(entered, u), u)
    else w
  }

  function LeaveMap(w: World, u: nat): World
    requires WellFormed(w) && u in w.place
  {
    LeaveRoomShape(w, u);
    ClearView(LeaveRoom(w, u), u)
  }

  lemma LeaveMapShape(w: World, u: nat, p: Place)
    requires WellFormed(w) && u in w.place
    ensures WellFormed(LeaveMap(w, u)) && u in LeaveMap(w, u).place
    ensures WellFormed(PutAt(LeaveMap(w, u), u, p))
  {
    LeaveRoomShape(w, u);
    ClearShape(LeaveRoom(w, u), u);
  }

  /** Move to a map; nothing happens when there is no such map. */
  function MoveTo(w: World, u: nat, p: Place): World
    requires WellFormed(w) && u in w.place
  {
    if p.mapId in w.rooms then
      LeaveMapShape(w, u, p);
      EnterMap(PutAt(LeaveMap(w, u), u, p), u)
    else w
  }

  /** An accepted step on the same map. */
  function Walk(w: World, u: nat, x: nat, y: nat): World
    requires WellFormed(w) && u in w.place
  {
    if w.place[u].mapId in w.rooms then UpdateView(PutAt(w, u, Place(w.place[u].mapId, x, y)), u) else w
  }

  /** A new entity, in no room yet. */
  function Create(w: World, u: nat, p: Place): World {
    World(w.rooms, w.place[u := p], w.view[u := {}])
  }

  /** A monster or an NPC enters the room of its map; nobody's view set is updated. */
  function Spawn(w: World, u: nat, p: Place): World {
    EnterRoom(Create(w, u, p), u)
  }

  // ---- one operation ----

  /** Right after the update, the entity sees exactly the other members of its room within 18 cells. */
  lemma UpdateIsExact(w: World, u: nat)
    requires WellFormed(w) && u in w.place && InRoom(w, u)
    requires forall v :: v in w.view[u] ==> v in w.rooms[w.place[u].mapId] && v != u
    ensures WellFormed(UpdateView(w, u)) && UpdateView(w, u).view[u] == Visible(w, u)
    ensures forall v :: v in w.rooms[w.place[u].mapId] && v != u ==>
              (u in UpdateView(w, u).view[v] <==> Near(w.place[u], w.place[v]))
  {
  }

  /** With the coordinates written out: afterwards each sees the other when both differ by at most 18. */
  lemma UpdatedWithinEighteen(w: World, u: nat, v: nat)
    requires WellFormed(w) && u in w.place && MutualExcept(w, u)
    requires w.place[u].mapId in w.rooms && u in w.rooms[w.place[u].mapId] && v in w.rooms[w.place[u].mapId] && v != u
    ensures UpdateView(w, u).view.Keys == w.place.Keys
    ensures var near := -18 <= w.place[u].x - w.place[v].x <= 18 && -18 <= w.place[u].y - w.place[v].y <= 18;
            (v in UpdateView(w, u).view[u] <==> near) && (u in UpdateView(w, u).view[v] <==> near)
  {
    hide Near;
    assert forall x :: x in w.view[u] ==> Together(w, u, x);
    UpdateIsExact(w, u);
    UpdateShape(w, u);
    NearIff(w.place[u], w.place[v]);
  }

  /** The entity's own place may be out of date in the view sets. */
  predicate MutualExcept(w: World, u: nat)
    requires WellFormed(w)
  {
    forall a, b :: a in w.view && b in w.view[a] ==>
                     a in w.view[b] && a != b && Together(w, a, b) && (a != u && b != u ==> Near(w.place[a], w.place[b]))
  }

  predicate PlayersExactExcept(w: World, u: nat)
    requires WellFormed(w)
  {
    forall a, b :: a in w.place && b in w.place && a != b && a != u && b != u
                   && IsPlayer(a) && IsPlayer(b) && Together(w, a, b) ==>
                     (b in w.view[a] <==> Near(w.place[a], w.place[b]))
  }

  predicate Inv(w: World) {
    WellFormed(w) && Mutual(w) && PlayersExact(w)
  }

  /** What an update leaves in each view set, for an entity whose view set holds only members of its room. */
  lemma UpdatedViews(w: World, u: nat, v: nat, x: nat)
    requires WellFormed(w) && u in w.place && MutualExcept(w, u) && v in w.view
    ensures WellFormed(UpdateView(w, u))
    ensures x in UpdateView(w, u).view[v] <==>
              if v == u then x in Visible(w, u)
              else if x == u then v in Visible(w, u)
              else x in w.view[v]
  {
    hide Near;
    UpdateShape(w, u);
    assert x in w.view[v] ==> Together(w, v, x);
    assert v in w.view && u in w.view[v] ==> Together(w, v, u);
  }

  /** An update repairs everything that involves the entity. */
  lemma UpdateRepairs(w: World, u: nat)
    requires WellFormed(w) && u in w.place && MutualExcept(w, u)
    ensures WellFormed(UpdateView(w, u)) && Mutual(UpdateView(w, u))
    ensures PlayersExactExcept(w, u) ==> PlayersExact(UpdateView(w, u))
  {
    hide Near, UpdateView;
    UpdateKeepsRooms(w, u);
    var w' := UpdateView(w, u);
    forall a, b | a in w'.view && b in w'.view[a]
      ensures b in w.place && a in w'.view[b] && a != b && Together(w', a, b) && Near(w'.place[a], w'.place[b])
    {
      UpdatedPair(w, u, a, b);
    }
    if PlayersExactExcept(w, u) {
      UpdateMakesExact(w, u);
    }
  }

  lemma UpdatedPair(w: World, u: nat, a: nat, b: nat)
    requires WellFormed(w) && u in w.place && MutualExcept(w, u) && a in w.view
    requires WellFormed(UpdateView(w, u)) && b in UpdateView(w, u).view[a]
    ensures b in w.place && a in UpdateView(w, u).view[b] && a != b && Together(w, a, b) && Near(w.place[a], w.place[b])
  {
    hide Near, UpdateView;
    NearIsSymmetric();
    UpdateKeepsRooms(w, u);
    UpdatedViews(w, u, a, b);
    UpdatedViews(w, u, b, a);
  }

  lemma UpdateMakesExact(w: World, u: nat)
    requires WellFormed(w) && u in w.place && MutualExcept(w, u) && PlayersExactExcept(w, u)
    ensures WellFormed(UpdateView(w, u)) && PlayersExact(UpdateView(w, u))
  {
    hide Near, UpdateView, IsPlayer;
    NearIsSymmetric();
    UpdateKeepsRooms(w, u);
    var w' := UpdateView(w, u);
    forall a, b | a in w'.place && b in w'.place && a != b && IsPlayer(a) && IsPlayer(b) && Together(w', a, b)
      ensures b in w'.view[a] <==> Near(w'.place[a], w'.place[b])
    {
      UpdatedViews(w, u, a, b);
    }
  }

  lemma NearIsSymmetric()
    ensures forall p, q :: Near(p, q) <==> Near(q, p)
  {
  }

  /** clearBroadcastSet empties the view set and takes the entity out of every other one. */
  lemma ClearIsComplete(w: World, u: nat)
    requires WellFormed(w) && u in w.place && Mutual(w)
    ensures ClearView(w, u).view[u] == {}
    ensures forall v :: v in w.view ==> u !in ClearView(w, u).view[v]
    ensures forall v, x :: v in w.view && v != u && x != u ==> (x in ClearView(w, u).view[v] <==> x in w.view[v])
  {
  }

  /** Apart from the entity nothing changed, and the entity sees nobody and is seen by nobody. */
  ghost predicate Detached(w: World, w': World, u: nat)
    requires WellFormed(w) && u in w.place
  {
    && WellFormed(w') && w'.place.Keys == w.place.Keys
    && (forall v :: v in w.place && v != u ==> w'.place[v] == w.place[v] && (InRoom(w', v) <==> InRoom(w, v)))
    && (forall v :: v in w.view ==> forall x :: x in w'.view[v] <==> v != u && x != u && x in w.view[v])
  }

  lemma DetachedKeeps(w: World, w': World, u: nat)
    requires Inv(w) && u in w.place && Detached(w, w', u)
    ensures Mutual(w') && PlayersExactExcept(w', u)
    ensures !InRoom(w', u) ==> Inv(w')
  {
    DetachedMutual(w, w', u);
    DetachedExcept(w, w', u);
    hide Near, Mutual;
  }

  lemma DetachedPair(w: World, w': World, u: nat, a: nat, b: nat)
    requires Inv(w) && u in w.place && Detached(w, w', u) && a in w'.view && b in w'.view[a]
    ensures a in w'.view[b] && a != b && Together(w', a, b) && Near(w'.place[a], w'.place[b])
  {
    hide Near, InRoom, PlayersExact;
    assert a in w.view && a != u && b != u && b in w.view[a];
  }

  lemma DetachedMutual(w: World, w': World, u: nat)
    requires Inv(w) && u in w.place && Detached(w, w', u)
    ensures Mutual(w')
  {
    assert WellFormed(w');
    hide Near, InRoom, PlayersExact, Detached, Inv;
    forall a, b | a in w'.view && b in w'.view[a]
      ensures a in w'.view[b] && a != b && Together(w', a, b) && Near(w'.place[a], w'.place[b])
    {
      DetachedPair(w, w', u, a, b);
    }
  }

  lemma DetachedExcept(w: World, w': World, u: nat)
    requires Inv(w) && u in w.place && Detached(w, w', u)
    ensures PlayersExactExcept(w', u)
  {
    hide Near, InRoom, Mutual, IsPlayer;
  }

  lemma LeaveDetaches(w: World, u: nat)
    requires Inv(w) && u in w.place
    ensures Detached(w, LeaveMap(w, u), u) && !InRoom(LeaveMap(w, u), u)
    ensures LeaveMap(w, u).place == w.place && LeaveMap(w, u).rooms.Keys == w.rooms.Keys
  {
    hide Near;
    LeaveRoomShape(w, u);
    ClearShape(LeaveRoom(w, u), u);
    LeaveViews(w, u);
    hide ClearView;
  }

  lemma LeaveViews(w: World, u: nat)
    requires Inv(w) && u in w.place
    ensures var w' := LeaveMap(w, u);
            && w'.rooms == LeaveRoom(w, u).rooms && w'.place == w.place && w'.view.Keys == w.view.Keys
            && forall v :: v in w.view ==> forall x :: x in w'.view[v] <==> v != u && x != u && x in w.view[v]
  {
    hide Near;
  }

  lemma EnterDetaches(w: World, u: nat)
    requires Inv(w) && u in w.place && w.place[u].mapId in w.rooms
    ensures Detached(w, ClearView(EnterRoom(w, u), u), u) && InRoom(ClearView(EnterRoom(w, u), u), u)
    ensures ClearView(EnterRoom(w, u), u).place == w.place
  {
    hide Near;
    EnterRoomShape(w, u);
    ClearShape(EnterRoom(w, u), u);
    EnterViews(w, u);
    hide ClearView;
  }

  lemma EnterViews(w: World, u: nat)
    requires Inv(w) && u in w.place
    ensures var w' := ClearView(EnterRoom(w, u), u);
            && w'.rooms == EnterRoom(w, u).rooms && w'.place == w.place && w'.view.Keys == w.view.Keys
            && forall v :: v in w.view ==> forall x :: x in w'.view[v] <==> v != u && x != u && x in w.view[v]
  {
    hide Near;
  }

  lemma PutDetaches(w: World, u: nat, p: Place)
    requires Inv(w) && u in w.place && !InRoom(w, u)
    ensures Detached(w, PutAt(w, u, p), u) && !InRoom(PutAt(w, u, p), u)
  {
    hide Near;
    assert forall v :: v in w.view[u] ==> Together(w, u, v);
    assert forall v :: v in w.view && u in w.view[v] ==> Together(w, v, u);
  }

  lemma MutualIsExcept(w: World, u: nat)
    requires WellFormed(w) && Mutual(w)
    ensures MutualExcept(w, u)
  {
    hide Near;
  }

  lemma LeaveKeepsInv(w: World, u: nat)
    requires Inv(w) && u in w.place
    ensures Inv(LeaveMap(w, u)) && !InRoom(LeaveMap(w, u), u)
  {
    hide Near, WellFormed, LeaveMap, Mutual, PlayersExact;
    LeaveDetaches(w, u);
    DetachedKeeps(w, LeaveMap(w, u), u);
  }

  /** On arrival the player sees exactly who is near. */
  lemma EnterKeepsInv(w: World, u: nat)
    requires Inv(w) && u in w.place
    ensures Inv(EnterMap(w, u))
    ensures w.place[u].mapId in w.rooms ==>
              InRoom(EnterMap(w, u), u) && EnterMap(w, u).view[u] == Visible(EnterMap(w, u), u)
  {
    hide Near, Mutual, PlayersExact, UpdateView, ClearView;
    if w.place[u].mapId in w.rooms {
      var there := ClearView(EnterRoom(w, u), u);
      EnterDetaches(w, u);
      DetachedKeeps(w, there, u);
      MutualIsExcept(there, u);
      UpdateRepairs(there, u);
      UpdateIsExact(there, u);
      UpdateKeepsRooms(there, u);
    }
  }

  lemma UpdateKeepsRooms(w: World, u: nat)
    requires WellFormed(w) && u in w.place
    ensures UpdateView(w, u).rooms == w.rooms && UpdateView(w, u).place == w.place
    ensures WellFormed(UpdateView(w, u)) && UpdateView(w, u).view.Keys == w.view.Keys
  {
  }

  lemma MoveKeepsInv(w: World, u: nat, p: Place)
    requires Inv(w) && u in w.place
    ensures Inv(MoveTo(w, u, p))
    ensures p.mapId in w.rooms ==>
              var w' := MoveTo(w, u, p);
              w'.place == w.place[u := p] && InRoom(w', u) && w'.view[u] == Visible(w', u)
  {
    hide Near, Mutual, PlayersExact, LeaveMap, EnterMap, InRoom;
    if p.mapId in w.rooms {
      var left := LeaveMap(w, u);
      LeaveDetaches(w, u);
      DetachedKeeps(w, left, u);
      PutDetaches(left, u, p);
      DetachedKeeps(left, PutAt(left, u, p), u);
      EnterKeepsInv(PutAt(left, u, p), u);
      EnterKeepsPlaces(PutAt(left, u, p), u);
    }
  }

  lemma EnterKeepsPlaces(w: World, u: nat)
    requires WellFormed(w) && u in w.place
    ensures EnterMap(w, u).place == w.place
  {
  }

  lemma WalkKeepsInv(w: World, u: nat, x: nat, y: nat)
    requires Inv(w) && u in w.place
    ensures Inv(Walk(w, u, x, y)) && Walk(w, u, x, y).rooms == w.rooms
    ensures w.place[u].mapId in w.rooms ==> Walk(w, u, x, y).place == w.place[u := Place(w.place[u].mapId, x, y)]
    ensures InRoom(w, u) ==> Walk(w, u, x, y).view[u] == Visible(Walk(w, u, x, y), u)
  {
    hide Near, UpdateView;
    if w.place[u].mapId in w.rooms {
      var there := PutAt(w, u, Place(w.place[u].mapId, x, y));
      WalkLoosens(w, u, x, y);
      UpdateRepairs(there, u);
      UpdateKeepsRooms(there, u);
      if InRoom(w, u) {
        assert forall v :: v in w.view[u] ==> Together(w, u, v);
        UpdateIsExact(there, u);
      }
    }
  }

  lemma WalkLoosens(w: World, u: nat, x: nat, y: nat)
    requires Inv(w) && u in w.place
    ensures var there := PutAt(w, u, Place(w.place[u].mapId, x, y));
            WellFormed(there) && MutualExcept(there, u) && PlayersExactExcept(there, u)
  {
    WalkLoosensViews(w, u, x, y);
    hide Near, Mutual, MutualExcept, IsPlayer;
  }

  lemma WalkLoosensViews(w: World, u: nat, x: nat, y: nat)
    requires WellFormed(w) && Mutual(w) && u in w.place
    ensures var there := PutAt(w, u, Place(w.place[u].mapId, x, y)); WellFormed(there) && MutualExcept(there, u)
  {
    hide Near;
  }

  lemma CreateKeepsInv(w: World, u: nat, p: Place)
    requires Inv(w) && u !in w.place
    ensures Inv(Create(w, u, p)) && !InRoom(Create(w, u, p), u)
  {
    hide Near, IsPlayer;
    CreateKeepsMutual(w, u, p);
    hide Mutual;
  }

  lemma CreateKeepsMutual(w: World, u: nat, p: Place)
    requires WellFormed(w) && Mutual(w) && u !in w.place
    ensures WellFormed(Create(w, u, p)) && Mutual(Create(w, u, p))
  {
    hide Near;
  }

  lemma EnterRoomKeepsInv(w: World, u: nat)
    requires Inv(w) && u in w.place && !IsPlayer(u)
    ensures Inv(EnterRoom(w, u))
  {
    hide Near, IsPlayer;
    EnterRoomShape(w, u);
    EnterRoomMutual(w, u);
    hide Mutual;
  }

  lemma EnterRoomMutual(w: World, u: nat)
    requires WellFormed(w) && Mutual(w) && u in w.place
    ensures WellFormed(EnterRoom(w, u)) && Mutual(EnterRoom(w, u))
  {
    hide Near;
    EnterRoomShape(w, u);
    var w' := EnterRoom(w, u);
    forall a, b | a in w'.view && b in w'.view[a]
      ensures a in w'.view[b] && a != b && Together(w', a, b) && Near(w'.place[a], w'.place[b])
    {
      assert Together(w, a, b);
    }
  }

  lemma SpawnKeepsInv(w: World, u: nat, p: Place)
    requires Inv(w) && u !in w.place && !IsPlayer(u)
    ensures Inv(Spawn(w, u, p))
  {
    hide Inv, IsPlayer, EnterRoom;
    CreateKeepsInv(w, u, p);
    EnterRoomKeepsInv(Create(w, u, p), u);
  }

  // ---- every run ----

  /** Enter, Leave, Teleport and Step are the operations of a player; Login and Appear create entities. */
  datatype Action =
    | Login(u: nat, p: Place)
    | Appear(u: nat, p: Place)
    | Enter(u: nat)
    | Leave(u: nat)
    | Teleport(u: nat, p: Place)
    | Step(u: nat, x: nat, y: nat)

  /** UIDs are unique, and only existing players act. */
  predicate Possible(w: World, a: Action) {
    match a
    case Login(u, _) => u !in w.place && IsPlayer(u)
    case Appear(u, _) => u !in w.place && !IsPlayer(u)
    case _ => a.u in w.place && IsPlayer(a.u)
  }

  function Perform(w: World, a: Action): World
    requires WellFormed(w) && Possible(w, a)
  {
    match a
    case Login(u, p) => Create(w, u, p)
    case Appear(u, p) => Spawn(w, u, p)
    case Enter(u) => EnterMap(w, u)
    case Leave(u) => LeaveMap(w, u)
    case Teleport(u, p) => MoveTo(w, u, p)
    case Step(u, x, y) => Walk(w, u, x, y)
  }

  /** The server's start: the existing maps, all empty. */
  predicate Initial(w: World) {
    w.place == map[] && w.view == map[] && forall m :: m in w.rooms ==> w.rooms[m] == {}
  }

  lemma InitialKeepsInv(w: World)
    requires Initial(w)
    ensures Inv(w)
  {
  }

  /** A run: each world follows from the one before by a possible action. */
  predicate IsRun(worlds: seq<World>, actions: seq<Action>) {
    && |worlds| == |actions| + 1
    && Initial(worlds[0])
    && forall i :: 0 <= i < |actions| ==>
                     WellFormed(worlds[i]) && Possible(worlds[i], actions[i]) && worlds[i + 1] == Perform(worlds[i], actions[i])
  }

  lemma PerformKeepsInv(w: World, a: Action)
    requires Inv(w) && Possible(w, a)
    ensures Inv(Perform(w, a))
  {
    hide Near, IsPlayer, EnterMap, LeaveMap, MoveTo, Walk, Spawn, Create, Mutual, PlayersExact;
    match a
    case Login(u, p) => CreateKeepsInv(w, u, p);
    case Appear(u, p) => SpawnKeepsInv(w, u, p);
    case Enter(u) => EnterKeepsInv(w, u);
    case Leave(u) => LeaveKeepsInv(w, u);
    case Teleport(u, p) => MoveKeepsInv(w, u, p);
    case Step(u, x, y) => WalkKeepsInv(w, u, x, y);
  }

  /** Of everyone but one entity: the places, the rooms and the views they have of each other are the same. */
  ghost predicate SameBut(w: World, w': World, u: nat) {
    && (forall v :: v in w.place && v != u ==> v in w'.place && w'.place[v] == w.place[v] && (InRoom(w', v) <==> InRoom(w, v)))
    && (forall v :: v in w.view && v != u ==> v in w'.view)
    && (forall v :: v in w.view && v != u ==> forall x :: x != u ==> (x in w'.view[v] <==> x in w.view[v]))
  }

  lemma UpdateSameBut(w: World, u: nat)
    requires WellFormed(w) && u in w.place && MutualExcept(w, u)
    ensures SameBut(w, UpdateView(w, u), u)
  {
    hide Near, UpdateView;
    UpdateKeepsRooms(w, u);
    forall v, x | v in w.view && v != u && x != u
      ensures x in UpdateView(w, u).view[v] <==> x in w.view[v]
    {
      UpdatedViews(w, u, v, x);
    }
  }

  lemma DetachedSameBut(w: World, w': World, u: nat)
    requires WellFormed(w) && u in w.place && Detached(w, w', u)
    ensures SameBut(w, w', u)
  {
    hide Near;
  }

  lemma SameButTwice(w: World, w': World, w'': World, u: nat)
    requires WellFormed(w) && WellFormed(w') && SameBut(w, w', u) && SameBut(w', w'', u)
    ensures SameBut(w, w'', u)
  {
    hide InRoom;
  }

  lemma EnterSameBut(w: World, u: nat)
    requires Inv(w) && u in w.place
    ensures SameBut(w, EnterMap(w, u), u)
  {
    hide Near, Mutual, PlayersExact, UpdateView, ClearView;
    if w.place[u].mapId in w.rooms {
      var there := ClearView(EnterRoom(w, u), u);
      EnterDetaches(w, u);
      DetachedKeeps(w, there, u);
      MutualIsExcept(there, u);
      hide Detached, SameBut;
      DetachedSameBut(w, there, u);
      UpdateSameBut(there, u);
      UpdateKeepsRooms(there, u);
      SameButTwice(w, there, UpdateView(there, u), u);
    }
  }

  lemma MoveSameBut(w: World, u: nat, p: Place)
    requires Inv(w) && u in w.place
    ensures SameBut(w, MoveTo(w, u, p), u)
  {
    hide Near, Mutual, PlayersExact, LeaveMap, EnterMap, InRoom;
    if p.mapId in w.rooms {
      var left := LeaveMap(w, u);
      LeaveDetaches(w, u);
      DetachedKeeps(w, left, u);
      PutDetaches(left, u, p);
      DetachedKeeps(left, PutAt(left, u, p), u);
      EnterKeepsInv(PutAt(left, u, p), u);
      DetachedSameBut(w, left, u);
      DetachedSameBut(left, PutAt(left, u, p), u);
      EnterSameBut(PutAt(left, u, p), u);
      hide Detached, SameBut, PutAt, Inv, WellFormed;
      SameButTwice(w, left, PutAt(left, u, p), u);
      SameButTwice(w, PutAt(left, u, p), EnterMap(PutAt(left, u, p), u), u);
    }
  }

  lemma WalkSameBut(w: World, u: nat, x: nat, y: nat)
    requires Inv(w) && u in w.place
    ensures SameBut(w, Walk(w, u, x, y), u)
  {
    hide Near, Mutual, PlayersExact, UpdateView;
    if w.place[u].mapId in w.rooms {
      var there := PutAt(w, u, Place(w.place[u].mapId, x, y));
      WalkLoosens(w, u, x, y);
      UpdateSameBut(there, u);
      UpdateKeepsRooms(there, u);
      assert SameBut(w, there, u);
      hide SameBut;
      SameButTwice(w, there, UpdateView(there, u), u);
    }
  }

  /** An action concerns nobody but the one who acts: what the others are, have and see of each other stays. */
  lemma OnlyTheActor(w: World, a: Action)
    requires Inv(w) && Possible(w, a)
    ensures SameBut(w, Perform(w, a), a.u)
  {
    hide Near, IsPlayer, EnterMap, LeaveMap, MoveTo, Walk, Mutual, PlayersExact;
    match a
    case Login(u, p) =>
    case Appear(u, p) =>
    case Enter(u) => EnterSameBut(w, u);
    case Leave(u) =>
      LeaveDetaches(w, u);
      DetachedSameBut(w, LeaveMap(w, u), u);
    case Teleport(u, p) => MoveSameBut(w, u, p);
    case Step(u, x, y) => WalkSameBut(w, u, x, y);
  }

  /**
    * In every world of every run: views are mutual, irreflexive, within one room and within 18 cells, and
    * two players of one room see each other exactly when they are that near.
    */
  lemma {:induction false} EveryRun(worlds: seq<World>, actions: seq<Action>, i: nat)
    requires IsRun(worlds, actions) && i < |worlds|
    ensures WellFormed(worlds[i]) && Mutual(worlds[i]) && PlayersExact(worlds[i])
  {
    if i == 0 {
    } else {
      EveryRun(worlds, actions, i - 1);
      PerformKeepsInv(worlds[i - 1], actions[i - 1]);
    }
  }

  // ---- who sees whom, monsters included ----

  /** The action updates the actor's view set. */
  predicate Updates(w: World, a: Action) {
    a.Enter? || a.Step? || (a.Teleport? && a.p.mapId in w.rooms)
  }

  /** At some step so far an entity took an action that updates its view set, the other one existing. */
  ghost predicate UpdatedBeside(worlds: seq<World>, actions: seq<Action>, i: nat, u: nat, other: nat)
    requires i <= |actions| <= |worlds|
  {
    exists k :: UpdatedAt(worlds, actions, i, u, other, k)
  }

  predicate UpdatedAt(worlds: seq<World>, actions: seq<Action>, i: nat, u: nat, other: nat, k: nat)
    requires i <= |actions| <= |worlds|
  {
    k < i && actions[k].u == u && Updates(worlds[k], actions[k]) && other in worlds[k].place
  }

  /** One of the two updated its view set while the other existed. */
  ghost predicate Settled(worlds: seq<World>, actions: seq<Action>, i: nat, a: nat, b: nat)
    requires i <= |actions| <= |worlds|
  {
    UpdatedBeside(worlds, actions, i, a, b) || UpdatedBeside(worlds, actions, i, b, a)
  }

  lemma UpdatedBesideStep(worlds: seq<World>, actions: seq<Action>, i: nat, u: nat, other: nat)
    requires i < |actions| <= |worlds|
    ensures UpdatedBeside(worlds, actions, i + 1, u, other)
            <==> UpdatedBeside(worlds, actions, i, u, other)
                 || (actions[i].u == u && Updates(worlds[i], actions[i]) && other in worlds[i].place)
  {
    var next := i + 1;
    if k: nat :| UpdatedAt(worlds, actions, next, u, other, k) {
      assert k == i || UpdatedAt(worlds, actions, i, u, other, k);
    }
    if k: nat :| UpdatedAt(worlds, actions, i, u, other, k) {
      assert UpdatedAt(worlds, actions, i + 1, u, other, k);
    }
    if actions[i].u == u && Updates(worlds[i], actions[i]) && other in worlds[i].place {
      assert UpdatedAt(worlds, actions, i + 1, u, other, i);
    }
  }

  /** After an update the actor sees, in its room, exactly who is near. */
  lemma UpdatesAreExact(w: World, a: Action)
    requires Inv(w) && Possible(w, a) && Updates(w, a)
    ensures WellFormed(Perform(w, a)) && a.u in Perform(w, a).place
    ensures InRoom(Perform(w, a), a.u) ==> Perform(w, a).view[a.u] == Visible(Perform(w, a), a.u)
  {
    hide Near, IsPlayer, EnterMap, LeaveMap, MoveTo, Walk, Mutual, PlayersExact;
    match a
    case Enter(u) =>
      EnterKeepsInv(w, u);
      EnterKeepsPlaces(w, u);
      EnterNowhere(w, u);
    case Teleport(u, p) => MoveKeepsInv(w, u, p);
    case Step(u, x, y) =>
      WalkKeepsInv(w, u, x, y);
      WalkNowhere(w, u, x, y);
  }

  lemma EnterNowhere(w: World, u: nat)
    requires WellFormed(w) && u in w.place
    ensures w.place[u].mapId !in w.rooms ==> EnterMap(w, u) == w
  {
  }

  lemma WalkNowhere(w: World, u: nat, x: nat, y: nat)
    requires WellFormed(w) && u in w.place
    ensures w.place[u].mapId !in w.rooms ==> Walk(w, u, x, y) == w
  {
  }

  /** A monster that appears beside a standing player is not seen, and sees nobody. */
  lemma MonstersAppearUnseen(w: World, u: nat, p: Place)
    requires WellFormed(w) && u !in w.place && p.mapId in w.rooms
    ensures InRoom(Spawn(w, u, p), u)
    ensures forall v :: v in w.place ==> u !in Spawn(w, u, p).view[v] && v !in Spawn(w, u, p).view[u]
  {
  }

  /** Entities come to exist one at a time, and never cease to. */
  lemma PerformPlaces(w: World, a: Action)
    requires WellFormed(w) && Possible(w, a)
    ensures Perform(w, a).place.Keys == w.place.Keys + {a.u}
  {
    hide Near, IsPlayer;
  }

  /** In one room, the two see each other exactly when they are near and the pair is settled. */
  ghost predicate PairExact(w: World, a: nat, b: nat, settled: bool)
    requires WellFormed(w)
  {
    a in w.place && b in w.place && Together(w, a, b) ==>
      (b in w.view[a] <==> Near(w.place[a], w.place[b]) && settled)
  }

  lemma PairIsSymmetric(w: World, a: nat, b: nat, settled: bool)
    requires WellFormed(w) && Mutual(w)
    ensures PairExact(w, a, b, settled) <==> PairExact(w, b, a, settled)
  {
    NearIsSymmetric();
    hide Near;
  }

  /** An action of a third entity changes nothing for the pair. */
  lemma PairByOther(w: World, x: Action, a: nat, b: nat, settled: bool)
    requires Inv(w) && Possible(w, x) && a != x.u && b != x.u && a != b && PairExact(w, a, b, settled)
    ensures WellFormed(Perform(w, x)) && PairExact(Perform(w, x), a, b, settled)
  {
    PerformKeepsInv(w, x);
    PerformPlaces(w, x);
    OnlyTheActor(w, x);
    hide Near, IsPlayer, Mutual, PlayersExact, Perform, InRoom;
    if a in w.place && b in w.place {
      assert Together(Perform(w, x), a, b) == Together(w, a, b);
    }
  }

  /** An action of one of the two settles the pair when it is an update. */
  lemma PairByActor(w: World, x: Action, b: nat, settled: bool)
    requires Inv(w) && Possible(w, x) && b != x.u && PairExact(w, x.u, b, settled)
    requires settled ==> x.u in w.place && b in w.place
    ensures WellFormed(Perform(w, x)) && PairExact(Perform(w, x), x.u, b, settled || (Updates(w, x) && b in w.place))
  {
    PerformKeepsInv(w, x);
    PerformPlaces(w, x);
    if Updates(w, x) {
      UpdatesAreExact(w, x);
      hide Near, IsPlayer, Mutual, PlayersExact, Perform, Updates;
    } else {
      PairUnsettled(w, x, b, settled);
    }
  }

  lemma PairUnsettled(w: World, x: Action, b: nat, settled: bool)
    requires Inv(w) && Possible(w, x) && b != x.u && !Updates(w, x) && PairExact(w, x.u, b, settled)
    requires settled ==> x.u in w.place && b in w.place
    ensures WellFormed(Perform(w, x)) && PairExact(Perform(w, x), x.u, b, settled)
  {
    PerformKeepsInv(w, x);
    hide Near, IsPlayer, Mutual, PlayersExact, EnterMap, LeaveMap, Walk;
    match x
    case Login(u, p) => CreateKeepsInv(w, u, p);
    case Appear(u, p) =>
      if p.mapId in w.rooms {
        MonstersAppearUnseen(w, u, p);
      }
    case Leave(u) => LeaveKeepsInv(w, u);
    case Teleport(u, p) =>
  }

  /** One action, whoever takes it. */
  lemma PairByAny(w: World, x: Action, a: nat, b: nat, settled: bool, after: bool)
    requires Inv(w) && Possible(w, x) && a != b && PairExact(w, a, b, settled)
    requires settled ==> a in w.place && b in w.place
    requires after == (settled || (Updates(w, x) && ((x.u == a && b in w.place) || (x.u == b && a in w.place))))
    ensures WellFormed(Perform(w, x)) && PairExact(Perform(w, x), a, b, after)
  {
    hide Perform, Possible, Updates, PairExact, Mutual, PlayersExact;
    if x.u == a {
      PairByActor(w, x, b, settled);
    } else if x.u == b {
      PairIsSymmetric(w, a, b, settled);
      PairByActor(w, x, a, settled);
      PerformKeepsInv(w, x);
      PairIsSymmetric(Perform(w, x), a, b, after);
    } else {
      PairByOther(w, x, a, b, settled);
    }
  }

  /** Who exists goes on existing. */
  lemma {:induction false} PlacesGrow(worlds: seq<World>, actions: seq<Action>, k: nat, i: nat)
    requires IsRun(worlds, actions) && k <= i < |worlds|
    ensures worlds[k].place.Keys <= worlds[i].place.Keys
  {
    hide Perform, Possible;
    if k < i {
      PlacesGrow(worlds, actions, k, i - 1);
      PerformPlaces(worlds[i - 1], actions[i - 1]);
    }
  }

  lemma UpdatedBesideExists(worlds: seq<World>, actions: seq<Action>, i: nat, u: nat, other: nat)
    requires IsRun(worlds, actions) && i <= |actions| && UpdatedBeside(worlds, actions, i, u, other)
    ensures u in worlds[i].place && other in worlds[i].place
  {
    var k: nat :| UpdatedAt(worlds, actions, i, u, other, k);
    PlacesGrow(worlds, actions, k, i);
    assert Possible(worlds[k], actions[k]);
  }

  /**
    * In every world of every run, players and monsters alike: two members of one room see each other if and only if
    * they are within 18 cells and one of them entered, stepped or came by teleport while the other existed.
    */
  lemma {:induction false} EveryPair(worlds: seq<World>, actions: seq<Action>, i: nat, a: nat, b: nat)
    requires IsRun(worlds, actions) && i <= |actions| && a != b
    ensures WellFormed(worlds[i]) && PairExact(worlds[i], a, b, Settled(worlds, actions, i, a, b))
  {
    hide Perform, Possible, Updates, PairExact, UpdatedBeside, Mutual, PlayersExact, WellFormed, Initial;
    EveryRun(worlds, actions, i);
    if i == 0 {
      InitialPair(worlds[0], a, b, Settled(worlds, actions, 0, a, b));
    } else {
      var w, x := worlds[i - 1], actions[i - 1];
      EveryPair(worlds, actions, i - 1, a, b);
      EveryRun(worlds, actions, i - 1);
      UpdatedBesideStep(worlds, actions, i - 1, a, b);
      UpdatedBesideStep(worlds, actions, i - 1, b, a);
      if Settled(worlds, actions, i - 1, a, b) {
        SettledExist(worlds, actions, i - 1, a, b);
      }
      PairByAny(w, x, a, b, Settled(worlds, actions, i - 1, a, b), Settled(worlds, actions, i, a, b));
    }
  }

  /** With the coordinates written out. */
  lemma EveryPairWithinEighteen(worlds: seq<World>, actions: seq<Action>, i: nat, a: nat, b: nat, m: nat)
    requires IsRun(worlds, actions) && i <= |actions| && a != b
    requires m in worlds[i].rooms && a in worlds[i].rooms[m] && b in worlds[i].rooms[m]
    ensures WellFormed(worlds[i]) && worlds[i].place[a].mapId == worlds[i].place[b].mapId == m
    ensures var p, q := worlds[i].place[a], worlds[i].place[b];
            b in worlds[i].view[a] <==> -18 <= p.x - q.x <= 18 && -18 <= p.y - q.y <= 18 && Settled(worlds, actions, i, a, b)
  {
    EveryPair(worlds, actions, i, a, b);
    hide Near, UpdatedBeside, IsRun, Settled;
    NearIff(worlds[i].place[a], worlds[i].place[b]);
  }

  /** Two players of one room, whose identifiers are from 1,000,000 on, see each other exactly when they are that near. */
  lemma PlayersWithinEighteen(worlds: seq<World>, actions: seq<Action>, i: nat, a: nat, b: nat, m: nat)
    requires IsRun(worlds, actions) && i <= |actions| && a != b
    requires 1_000_000 <= a <= 1_999_999_999 && 1_000_000 <= b <= 1_999_999_999
    requires m in worlds[i].rooms && a in worlds[i].rooms[m] && b in worlds[i].rooms[m]
    ensures WellFormed(worlds[i])
    ensures var p, q := worlds[i].place[a], worlds[i].place[b];
            b in worlds[i].view[a] <==> -18 <= p.x - q.x <= 18 && -18 <= p.y - q.y <= 18
  {
    EveryRun(worlds, actions, i);
    hide Near, IsRun, IsPlayer;
    PlayerIds(a);
    PlayerIds(b);
    NearIff(worlds[i].place[a], worlds[i].place[b]);
  }

  /** Where the actor is after each action; OnlyTheActor says the same of the others. */
  lemma ActorEndsUp(w: World, a: Action)
    requires Inv(w) && Possible(w, a)
    ensures WellFormed(Perform(w, a)) && a.u in Perform(w, a).place && Perform(w, a).rooms.Keys == w.rooms.Keys
    ensures a.Login? ==> Perform(w, a).place[a.u] == a.p && !InRoom(Perform(w, a), a.u)
    ensures a.Appear? ==> Perform(w, a).place[a.u] == a.p && (InRoom(Perform(w, a), a.u) <==> a.p.mapId in w.rooms)
    ensures a.Enter? ==> Perform(w, a).place == w.place && (InRoom(Perform(w, a), a.u) <==> w.place[a.u].mapId in w.rooms)
    ensures a.Leave? ==> Perform(w, a).place == w.place && !InRoom(Perform(w, a), a.u) && Perform(w, a).view[a.u] == {}
    ensures a.Teleport? ==>
              if a.p.mapId in w.rooms then Perform(w, a).place[a.u] == a.p && InRoom(Perform(w, a), a.u) else Perform(w, a) == w
    ensures a.Step? ==>
              if w.place[a.u].mapId in w.rooms
              then Perform(w, a).place[a.u] == Place(w.place[a.u].mapId, a.x, a.y) && (InRoom(Perform(w, a), a.u) <==> InRoom(w, a.u))
              else Perform(w, a) == w
  {
    PerformKeepsInv(w, a);
    hide Near, IsPlayer, Mutual, PlayersExact;
    match a
    case Login(u, p) => CreateKeepsInv(w, u, p);
    case Appear(u, p) =>
    case Enter(u) =>
      EnterKeepsInv(w, u);
      EnterKeepsPlaces(w, u);
      EnterNowhere(w, u);
    case Leave(u) => LeaveKeepsInv(w, u);
    case Teleport(u, p) => MoveKeepsInv(w, u, p);
    case Step(u, x, y) =>
      WalkKeepsInv(w, u, x, y);
      WalkNowhere(w, u, x, y);
  }

  lemma InitialPair(w: World, a: nat, b: nat, settled: bool)
    requires Initial(w)
    ensures WellFormed(w) && PairExact(w, a, b, settled)
  {
  }

  lemma SettledExist(worlds: seq<World>, actions: seq<Action>, i: nat, a: nat, b: nat)
    requires IsRun(worlds, actions) && i <= |actions| && Settled(worlds, actions, i, a, b)
    ensures a in worlds[i].place && b in worlds[i].place
  {
    hide UpdatedBeside;
    if UpdatedBeside(worlds, actions, i, a, b) {
      UpdatedBesideExists(worlds, actions, i, a, b);
    } else {
      UpdatedBesideExists(worlds, actions, i, b, a);
    }
  }

  /** Monsters never act: a player sees one exactly when it is near and the player updated its view set beside it. */
  lemma MonsterSeenIff(worlds: seq<World>, actions: seq<Action>, i: nat, a: nat, b: nat)
    requires IsRun(worlds, actions) && i <= |actions| && a != b && !IsPlayer(b)
    ensures WellFormed(worlds[i])
    ensures a in worlds[i].place && b in worlds[i].place && Together(worlds[i], a, b) ==>
              (b in worlds[i].view[a]
               <==> Near(worlds[i].place[a], worlds[i].place[b]) && UpdatedBeside(worlds, actions, i, a, b))
  {
    EveryPair(worlds, actions, i, a, b);
    forall k: nat | k < i
      ensures !UpdatedAt(worlds, actions, i, b, a, k)
    {
      assert Possible(worlds[k], actions[k]);
    }
  }
}
