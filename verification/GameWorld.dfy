/** The maps and the entities together, and what a player does to both. */
module GameWorld {
  import opened Broadcast
  import opened ViewSets
  import opened GameMaps
  import MapData

  /** Comparing an entity with all members of its room is the update of the view sets. */
  lemma AllMetIsUpdate(w: ViewSets.World, u: nat)
    requires WellFormed(w) && u in w.place && InRoom(w, u)
    ensures AllMet(w.view, w.place, u, w.rooms[w.place[u].mapId]) == UpdateView(w, u).view
  {
    hide Near;
    var room := w.rooms[w.place[u].mapId];
    var met, updated := AllMet(w.view, w.place, u, room), UpdateView(w, u).view;
    forall v | v in w.view
      ensures met[v] == updated[v]
    {
      if v == u {
        assert (set x | x in room && x != u && x in w.place && Near(w.place[u], w.place[x])) == Visible(w, u);
      } else if v in room {
        assert v in Visible(w, u) <==> Near(w.place[u], w.place[v]);
      }
    }
  }

  class World {
    const crowd: Crowd
    const mGameMaps: map<nat, GameMap>

    ghost function Grounds(): set<GameMap> {
      mGameMaps.Values
    }

    ghost function Rooms(): (r: map<nat, set<nat>>)
      reads Grounds()`mEntities
      ensures r.Keys == mGameMaps.Keys
    {
      map m | m in mGameMaps :: mGameMaps[m].mEntities.Keys
    }

    /** The maps hold existing entities. */
    ghost predicate Housed()
      reads crowd`ents, Grounds()`mEntities
    {
      forall m :: m in mGameMaps ==> Houses(crowd.ents, mGameMaps[m].mEntities)
    }

    /** The entities are known, and the maps hold known entities, each under its own UID. */
    ghost predicate Registered()
      reads crowd, crowd.people`mViewSet, Grounds()`mEntities
    {
      crowd.Known() && Housed()
    }

    ghost function Abs(): ViewSets.World
      requires Registered()
      reads crowd, crowd.people`mViewSet, crowd.people`mMapId, crowd.people`mPosX, crowd.people`mPosY, Grounds()`mEntities
    {
      ViewSets.World(Rooms(), crowd.Places(), crowd.Views())
    }

    /** The maps as they were created, with nobody on them. */
    constructor (maps: map<nat, GameMap>)
      requires forall m :: m in maps ==> maps[m].mUID == m && maps[m].Valid() && maps[m].mEntities == map[]
      ensures mGameMaps == maps && Valid() && Initial(Abs()) && crowd.ents == map[]
    {
      crowd := new Crowd();
      mGameMaps := maps;
      new;
      InitialKeepsInv(Abs());
    }

    lemma InRoomHere(e: Entity)
      requires Registered() && crowd.Holds(e)
      ensures e.mUID in Abs().place && Abs().place[e.mUID] == e.At()
      ensures InRoom(Abs(), e.mUID) <==> e.mMapId in mGameMaps && e.mUID in mGameMaps[e.mMapId].mEntities
      ensures e.mMapId in mGameMaps ==> Abs().rooms[e.mMapId] == mGameMaps[e.mMapId].mEntities.Keys
    {
      crowd.PlaceOf(e.mUID);
    }

    lemma EnterRoomHere(e: Entity)
      requires Registered() && crowd.Holds(e) && e.mMapId in mGameMaps
      ensures e.mUID in crowd.Places()
      ensures ViewSets.EnterRoom(Abs(), e.mUID)
              == ViewSets.World(Rooms()[e.mMapId := mGameMaps[e.mMapId].mEntities.Keys + {e.mUID}], crowd.Places(), crowd.Views())
    {
      InRoomHere(e);
    }

    lemma LeaveRoomHere(e: Entity)
      requires Registered() && crowd.Holds(e) && e.mMapId in mGameMaps
      ensures e.mUID in crowd.Places()
      ensures ViewSets.LeaveRoom(Abs(), e.mUID)
              == ViewSets.World(Rooms()[e.mMapId := mGameMaps[e.mMapId].mEntities.Keys - {e.mUID}], crowd.Places(), crowd.Views())
    {
      InRoomHere(e);
    }

    /** GameMap::updateBroadcastSet for an entity on the map. */
    method UpdateInRoom(e: Entity, members: map<nat, Entity>)
      requires Registered() && crowd.Holds(e)
      requires e.mMapId in mGameMaps && members == mGameMaps[e.mMapId].mEntities && e.mUID in members
      modifies crowd.people`mViewSet
      ensures Registered()
      ensures Rooms() == old(Rooms()) && crowd.Places() == old(crowd.Places())
      ensures crowd.Views() == AllMet(old(crowd.Views()), old(crowd.Places()), e.mUID, members.Keys)
    {
      hide Near, Crowd.Known, Crowd.Named, Crowd.Places, Crowd.Views, AllMet;
      crowd.CompareAll(e, members);
    }

    /** Entity::updateBroadcastSet: nothing happens without a map, or for an entity that is not on it. */
    method UpdateBroadcastSet(e: Entity)
      requires Registered() && crowd.Holds(e) && WellFormed(Abs())
      modifies crowd.people`mViewSet
      ensures Registered() && Abs() == UpdateView(old(Abs()), e.mUID)
    {
      ghost var w := Abs();
      InRoomHere(e);
      if e.mMapId in mGameMaps {
        var members := mGameMaps[e.mMapId].mEntities;
        if e.mUID in members {
          AllMetIsUpdate(w, e.mUID);
          UpdateKeepsRooms(w, e.mUID);
          hide Registered, WellFormed, UpdateView, AllMet, InRoom, Crowd.Known, Crowd.Places, Crowd.Views, Rooms;
          UpdateInRoom(e, members);
        }
      }
    }

    /** Entity::clearBroadcastSet */
    method ClearBroadcastSet(e: Entity)
      requires Registered() && crowd.Holds(e) && e.mUID !in e.mViewSet
      modifies crowd.people`mViewSet
      ensures Registered() && Abs() == ClearView(old(Abs()), e.mUID)
    {
      crowd.ClearBroadcastSet(e);
    }

    ghost function Datas(): set<MapData.Data> {
      set m | m in mGameMaps :: mGameMaps[m].mData
    }

    /** Every map counts its players and uses its data, shared or not, exactly while there are some. */
    ghost predicate Sound()
      reads Grounds(), Datas()
      reads set d | d in Datas() && d.mCells != null :: d.mCells
      reads set d | d in Datas() && d.mPckData != null :: d.mPckData
    {
      forall m :: m in mGameMaps ==> mGameMaps[m].mUID == m && mGameMaps[m].Valid()
    }

    /** A map's entry: the other maps, those with the same data too, stay as they are. */
    method EnterRoom(map_: GameMap, e: Entity)
      requires Sound() && map_ in Grounds()
      modifies map_`mEntities, map_`mPlayerCount, map_.mData
      ensures Sound() && map_.mEntities == Added(old(map_.mEntities), e.mUID, e)
    {
      map_.EnterRoom(e);
    }

    method LeaveRoom(map_: GameMap, e: Entity)
      requires Sound() && map_ in Grounds()
      modifies map_`mEntities, map_`mPlayerCount, map_.mData
      ensures Sound() && map_.mEntities == old(map_.mEntities) - {e.mUID}
    {
      map_.LeaveRoom(e);
    }

    lemma NotSeenByItself(e: Entity)
      requires Registered() && crowd.Holds(e) && WellFormed(Abs()) && Mutual(Abs())
      ensures e.mUID !in e.mViewSet
    {
      hide Near;
      assert e.mUID in Abs().view && Abs().view[e.mUID] == e.mViewSet.Keys;
    }

    lemma RoomsAre(rooms: map<nat, set<nat>>)
      requires rooms.Keys == mGameMaps.Keys && forall m :: m in mGameMaps ==> rooms[m] == mGameMaps[m].mEntities.Keys
      ensures Rooms() == rooms
    {
    }

    /** The rooms after a map's entry. */
    method EnterRoomAlone(map_: GameMap, e: Entity)
      requires Sound() && map_.mUID in mGameMaps && mGameMaps[map_.mUID] == map_
      modifies map_`mEntities, map_`mPlayerCount, map_.mData
      ensures Sound() && map_.mEntities == Added(old(map_.mEntities), e.mUID, e)
      ensures Rooms() == old(Rooms())[map_.mUID := old(map_.mEntities.Keys) + {e.mUID}]
    {
      assert forall m :: m in mGameMaps && m != map_.mUID ==> mGameMaps[m] != map_;
      hide Sound, GameMap.Valid, Added;
      AddedKeys(map_.mEntities, e.mUID, e);
      ghost var rooms := Rooms()[map_.mUID := map_.mEntities.Keys + {e.mUID}];
      EnterRoom(map_, e);
      RoomsAre(rooms);
    }

    /** The members are still known. */
    method EnterRoomHoused(map_: GameMap, e: Entity)
      requires Housed() && Sound() && crowd.Holds(e) && map_.mUID in mGameMaps && mGameMaps[map_.mUID] == map_
      modifies map_`mEntities, map_`mPlayerCount, map_.mData
      ensures Housed() && Sound()
      ensures Rooms() == old(Rooms())[map_.mUID := old(map_.mEntities.Keys) + {e.mUID}]
    {
      HousesAdded(crowd.ents, map_.mEntities, e.mUID, e);
      hide Sound, GameMap.Valid, Rooms, Houses, Added;
      EnterRoomAlone(map_, e);
    }

    /** The world after a map's entry. */
    method Arrive(map_: GameMap, e: Entity)
      requires Registered() && Sound() && crowd.Holds(e) && e.mMapId in mGameMaps && mGameMaps[e.mMapId] == map_
      requires map_.mUID == e.mMapId
      modifies map_`mEntities, map_`mPlayerCount, map_.mData
      ensures Registered() && Sound()
      ensures Abs() == ViewSets.World(old(Rooms())[map_.mUID := old(map_.mEntities.Keys) + {e.mUID}],
                                      old(crowd.Places()), old(crowd.Views()))
    {
      hide Sound, Housed, GameMap.Valid, Crowd.Places, Crowd.Views, Crowd.Known, Crowd.Named, Rooms, Crowd.Holds;
      EnterRoomHoused(map_, e);
    }

    /** The rooms after a map's exit. */
    method LeaveRoomAlone(map_: GameMap, e: Entity)
      requires Sound() && map_.mUID in mGameMaps && mGameMaps[map_.mUID] == map_
      modifies map_`mEntities, map_`mPlayerCount, map_.mData
      ensures Sound() && map_.mEntities == old(map_.mEntities) - {e.mUID}
      ensures Rooms() == old(Rooms())[map_.mUID := old(map_.mEntities.Keys) - {e.mUID}]
    {
      assert forall m :: m in mGameMaps && m != map_.mUID ==> mGameMaps[m] != map_;
      hide Sound, GameMap.Valid, Added;
      KeysWithout(map_.mEntities, e.mUID);
      ghost var rooms := Rooms()[map_.mUID := map_.mEntities.Keys - {e.mUID}];
      LeaveRoom(map_, e);
      RoomsAre(rooms);
    }

    /** The members are still known. */
    method LeaveRoomHoused(map_: GameMap, e: Entity)
      requires Housed() && Sound() && crowd.Holds(e) && map_.mUID in mGameMaps && mGameMaps[map_.mUID] == map_
      modifies map_`mEntities, map_`mPlayerCount, map_.mData
      ensures Housed() && Sound()
      ensures Rooms() == old(Rooms())[map_.mUID := old(map_.mEntities.Keys) - {e.mUID}]
    {
      HousesWithout(crowd.ents, map_.mEntities, e.mUID);
      hide Sound, GameMap.Valid, Rooms, Houses, Added;
      LeaveRoomAlone(map_, e);
    }

    /** The world after a map's exit. */
    method Depart(map_: GameMap, e: Entity)
      requires Registered() && Sound() && crowd.Holds(e) && e.mMapId in mGameMaps && mGameMaps[e.mMapId] == map_
      requires map_.mUID == e.mMapId
      modifies map_`mEntities, map_`mPlayerCount, map_.mData
      ensures Registered() && Sound()
      ensures Abs() == ViewSets.World(old(Rooms())[map_.mUID := old(map_.mEntities.Keys) - {e.mUID}],
                                      old(crowd.Places()), old(crowd.Views()))
    {
      hide Sound, Housed, GameMap.Valid, Crowd.Places, Crowd.Views, Crowd.Known, Crowd.Named, Rooms, Crowd.Holds;
      LeaveRoomHoused(map_, e);
    }

    ghost predicate Valid()
      reads crowd, crowd.people, Grounds(), Datas()
      reads set d | d in Datas() && d.mCells != null :: d.mCells
      reads set d | d in Datas() && d.mPckData != null :: d.mPckData
    {
      Registered() && Sound() && Inv(Abs())
    }

    /** Entity::updateBroadcastSet, clearing first. */
    method UpdateClearing(e: Entity)
      requires Registered() && crowd.Holds(e) && WellFormed(Abs()) && e.mUID !in e.mViewSet
      modifies crowd.people`mViewSet
      ensures Registered() && WellFormed(ClearView(old(Abs()), e.mUID))
      ensures Abs() == UpdateView(ClearView(old(Abs()), e.mUID), e.mUID)
    {
      ClearShape(Abs(), e.mUID);
      hide Registered, Crowd.Places, Crowd.Views, Crowd.Known, Crowd.Named, Rooms, UpdateView, ClearView, Mutual, WellFormed;
      ClearBroadcastSet(e);
      UpdateBroadcastSet(e);
    }

    /** The maps do not notice. */
    method UpdateClearingSoundly(e: Entity)
      requires Sound() && Registered() && crowd.Holds(e) && WellFormed(Abs()) && e.mUID !in e.mViewSet
      modifies crowd.people`mViewSet
      ensures Sound() && Registered() && WellFormed(ClearView(old(Abs()), e.mUID))
      ensures Abs() == UpdateView(ClearView(old(Abs()), e.mUID), e.mUID)
    {
      hide Registered, Crowd.Places, Crowd.Views, Crowd.Known, Crowd.Named, Rooms, UpdateView, ClearView, Mutual, WellFormed, Abs;
      UpdateClearing(e);
    }

    lemma EnterMapHere(e: Entity)
      requires Registered() && crowd.Holds(e) && WellFormed(Abs()) && e.mMapId in mGameMaps
      ensures var there := ViewSets.World(Rooms()[e.mMapId := mGameMaps[e.mMapId].mEntities.Keys + {e.mUID}], crowd.Places(), crowd.Views());
              && e.mUID in there.view && WellFormed(there) && WellFormed(ClearView(there, e.mUID))
              && ViewSets.EnterMap(Abs(), e.mUID) == UpdateView(ClearView(there, e.mUID), e.mUID)
    {
      InRoomHere(e);
      EnterRoomHere(e);
      EnterRoomShape(Abs(), e.mUID);
      ClearShape(ViewSets.EnterRoom(Abs(), e.mUID), e.mUID);
    }

    /** Player::enterMap when there is such a map. */
    method EnterThisMap(map_: GameMap, e: Entity)
      requires Registered() && Sound() && crowd.Holds(e) && WellFormed(Abs()) && e.mUID !in e.mViewSet
      requires e.mMapId in mGameMaps && mGameMaps[e.mMapId] == map_ && map_.mUID == e.mMapId
      modifies crowd.people`mViewSet, map_`mEntities, map_`mPlayerCount, map_.mData
      ensures Registered() && Sound() && Abs() == ViewSets.EnterMap(old(Abs()), e.mUID)
    {
      ghost var there := ViewSets.World(Rooms()[e.mMapId := map_.mEntities.Keys + {e.mUID}], crowd.Places(), crowd.Views());
      hide Sound, Registered, Abs, Crowd.Places, Crowd.Views, Crowd.Known, Crowd.Named, Rooms, ViewSets.EnterMap;
      hide WellFormed, UpdateView, ClearView;
      EnterMapHere(e);
      Arrive(map_, e);
      assert Abs() == there;
      UpdateClearingSoundly(e);
    }

    /** The maps do not notice a clearing either. */
    method ClearSoundly(e: Entity)
      requires Sound() && Registered() && crowd.Holds(e) && e.mUID !in e.mViewSet
      modifies crowd.people`mViewSet
      ensures Sound() && Registered() && Abs() == ClearView(old(Abs()), e.mUID)
    {
      hide Registered, Crowd.Places, Crowd.Views, Crowd.Known, Crowd.Named, Rooms, ClearView, Abs;
      ClearBroadcastSet(e);
    }

    lemma LeaveMapHere(e: Entity)
      requires Registered() && crowd.Holds(e) && WellFormed(Abs())
      ensures var rooms := if e.mMapId in mGameMaps then Rooms()[e.mMapId := mGameMaps[e.mMapId].mEntities.Keys - {e.mUID}] else Rooms();
              var left := ViewSets.World(rooms, crowd.Places(), crowd.Views());
              e.mUID in left.view && ViewSets.LeaveMap(Abs(), e.mUID) == ClearView(left, e.mUID)
    {
      InRoomHere(e);
      LeaveRoomShape(Abs(), e.mUID);
      if e.mMapId in mGameMaps {
        LeaveRoomHere(e);
      }
    }

    /** Player::leaveMap */
    method LeaveMap(e: Entity)
      requires Registered() && Sound() && crowd.Holds(e) && WellFormed(Abs()) && e.mUID !in e.mViewSet
      modifies crowd.people`mViewSet, Grounds()`mEntities, Grounds()`mPlayerCount, Datas()
      ensures Registered() && Sound() && Abs() == ViewSets.LeaveMap(old(Abs()), e.mUID)
    {
      assert e.mMapId in mGameMaps ==> mGameMaps[e.mMapId].mUID == e.mMapId;
      hide Sound, Registered, Abs, Crowd.Places, Crowd.Views, Crowd.Known, Crowd.Named, Rooms, ViewSets.LeaveMap;
      hide WellFormed, UpdateView, ClearView;
      LeaveMapHere(e);
      if e.mMapId in mGameMaps {
        Depart(mGameMaps[e.mMapId], e);
      }
      ClearSoundly(e);
    }

    /** An entity is put elsewhere. */
    method PutAt(e: Entity, p: Place)
      requires Registered() && crowd.Holds(e)
      modifies e`mMapId, e`mPosX, e`mPosY
      ensures Registered() && e.At() == p
      ensures e.mUID in old(Abs()).place && Abs() == ViewSets.PutAt(old(Abs()), e.mUID, p)
    {
      hide Crowd.Places, Crowd.Views, Crowd.Known, Crowd.Named, Houses, InRoom;
      InRoomHere(e);
      crowd.PutAt(e, p);
    }

    method PutSoundly(e: Entity, p: Place)
      requires Sound() && Registered() && crowd.Holds(e)
      modifies e`mMapId, e`mPosX, e`mPosY
      ensures Sound() && Registered() && e.At() == p
      ensures e.mUID in old(Abs()).place && Abs() == ViewSets.PutAt(old(Abs()), e.mUID, p)
    {
      hide Registered, Crowd.Places, Crowd.Views, Crowd.Known, Crowd.Named, Rooms, ViewSets.PutAt, Abs, Entity.At;
      PutAt(e, p);
    }

    /** Player::enterMap; without such a map the source drops the connection. */
    method EnterMap(e: Entity)
      requires Valid() && crowd.Holds(e)
      modifies crowd.people`mViewSet, Grounds()`mEntities, Grounds()`mPlayerCount, Datas()
      ensures Valid() && Abs() == ViewSets.EnterMap(old(Abs()), e.mUID)
    {
      InRoomHere(e);
      NotSeenByItself(e);
      EnterKeepsInv(Abs(), e.mUID);
      if e.mMapId in mGameMaps {
        assert mGameMaps[e.mMapId].mUID == e.mMapId;
        hide Sound, Registered, Abs, Inv, ViewSets.EnterMap;
        EnterThisMap(mGameMaps[e.mMapId], e);
      }
    }

    /** The second half of Player::move to a map, once the old map is left. */
    method PutAndEnter(map_: GameMap, e: Entity, p: Place)
      requires Registered() && Sound() && crowd.Holds(e) && e.mUID in Abs().view && e.mUID !in Abs().view[e.mUID]
      requires e.mUID in Abs().place && WellFormed(ViewSets.PutAt(Abs(), e.mUID, p))
      requires p.mapId in mGameMaps && mGameMaps[p.mapId] == map_ && map_.mUID == p.mapId
      modifies crowd.people, map_`mEntities, map_`mPlayerCount, map_.mData
      ensures Registered() && Sound() && Abs() == ViewSets.EnterMap(ViewSets.PutAt(old(Abs()), e.mUID, p), e.mUID)
      ensures Place(e.mPrevMap, e.mPrevX, e.mPrevY) == old(Place(e.mPrevMap, e.mPrevX, e.mPrevY))
    {
      hide Sound, Registered, Abs, WellFormed, ViewSets.EnterMap, ViewSets.PutAt;
      ViewHere(e);
      PutSoundly(e, p);
      EnterThisMap(map_, e);
    }

    lemma ViewHere(e: Entity)
      requires Registered() && crowd.Holds(e)
      ensures e.mUID in Abs().view && Abs().view[e.mUID] == e.mViewSet.Keys
    {
    }

    lemma MoveToHere(w: ViewSets.World, u: nat, p: Place)
      requires Inv(w) && u in w.place && p.mapId in w.rooms
      ensures var left := ViewSets.LeaveMap(w, u);
              && u in left.view && left.view[u] == {} && u in left.place && WellFormed(left) && WellFormed(ViewSets.PutAt(left, u, p))
              && ViewSets.MoveTo(w, u, p) == ViewSets.EnterMap(ViewSets.PutAt(left, u, p), u)
    {
      LeaveMapShape(w, u, p);
    }

    /** Where the entity was is kept. */
    method Remember(e: Entity)
      requires Registered() && crowd.Holds(e)
      modifies e`mPrevMap, e`mPrevX, e`mPrevY
      ensures Registered() && Abs() == old(Abs())
      ensures Place(e.mPrevMap, e.mPrevX, e.mPrevY) == e.At()
    {
      hide Registered, Abs;
      e.mPrevMap, e.mPrevX, e.mPrevY := e.mMapId, e.mPosX, e.mPosY;
    }

    /** The first half of Player::move to a map. */
    method LeaveAndRemember(e: Entity)
      requires Registered() && Sound() && crowd.Holds(e) && WellFormed(Abs()) && e.mUID !in e.mViewSet
      modifies crowd.people, Grounds()`mEntities, Grounds()`mPlayerCount, Datas()
      ensures Registered() && Sound() && Abs() == ViewSets.LeaveMap(old(Abs()), e.mUID)
      ensures Place(e.mPrevMap, e.mPrevX, e.mPrevY) == old(e.At())
    {
      hide Registered, Abs, WellFormed, ViewSets.LeaveMap;
      LeaveMap(e);
      assert e.At() == old(e.At());
      Remember(e);
    }

    lemma MoveFacts(e: Entity, p: Place)
      requires Registered() && crowd.Holds(e) && Inv(Abs()) && p.mapId in mGameMaps
      ensures WellFormed(Abs()) && e.mUID !in e.mViewSet && e.mUID in Abs().place
      ensures var left := ViewSets.LeaveMap(Abs(), e.mUID);
              && e.mUID in left.view && left.view[e.mUID] == {} && e.mUID in left.place
              && WellFormed(ViewSets.PutAt(left, e.mUID, p))
              && ViewSets.MoveTo(Abs(), e.mUID, p) == ViewSets.EnterMap(ViewSets.PutAt(left, e.mUID, p), e.mUID)
    {
      InRoomHere(e);
      NotSeenByItself(e);
      MoveToHere(Abs(), e.mUID, p);
    }

    /** Player::move to a map that exists. */
    method MoveToThisMap(map_: GameMap, e: Entity, p: Place)
      requires Registered() && Sound() && crowd.Holds(e) && Inv(Abs())
      requires p.mapId in mGameMaps && mGameMaps[p.mapId] == map_ && map_.mUID == p.mapId
      modifies crowd.people, Grounds()`mEntities, Grounds()`mPlayerCount, Datas()
      ensures Registered() && Sound() && Abs() == ViewSets.MoveTo(old(Abs()), e.mUID, p)
      ensures Place(e.mPrevMap, e.mPrevX, e.mPrevY) == old(e.At())
    {
      hide Sound, Registered, Abs, Inv, WellFormed, InRoom, Crowd.Holds, ViewSets.LeaveMap, ViewSets.EnterMap, ViewSets.MoveTo, ViewSets.PutAt;
      MoveFacts(e, p);
      LeaveAndRemember(e);
      PutAndEnter(map_, e, p);
    }

    /** Player::move to a map: nothing happens when there is no such map. */
    method MoveTo(e: Entity, p: Place) returns (moved: bool)
      requires Valid() && crowd.Holds(e)
      modifies crowd.people, Grounds()`mEntities, Grounds()`mPlayerCount, Datas()
      ensures Valid() && Abs() == ViewSets.MoveTo(old(Abs()), e.mUID, p) && moved == (p.mapId in mGameMaps)
      ensures moved ==> Place(e.mPrevMap, e.mPrevX, e.mPrevY) == old(e.At())
    {
      InRoomHere(e);
      MoveKeepsInv(Abs(), e.mUID, p);
      moved := p.mapId in mGameMaps;
      if moved {
        assert mGameMaps[p.mapId].mUID == p.mapId;
        hide Sound, Registered, Abs, Inv, ViewSets.MoveTo;
        MoveToThisMap(mGameMaps[p.mapId], e, p);
      }
    }

    /** Player::leaveMap on its own, as when a player logs out. */
    method Leave(e: Entity)
      requires Valid() && crowd.Holds(e)
      modifies crowd.people`mViewSet, Grounds()`mEntities, Grounds()`mPlayerCount, Datas()
      ensures Valid() && Abs() == ViewSets.LeaveMap(old(Abs()), e.mUID)
    {
      InRoomHere(e);
      NotSeenByItself(e);
      LeaveKeepsInv(Abs(), e.mUID);
      hide Sound, Registered, Abs, Inv, WellFormed, ViewSets.LeaveMap;
      LeaveMap(e);
    }

    /** For a player on its map, at one of the map's points, the checks accept exactly the steps they should. */
    lemma JudgedOnTheMap(map_: GameMap, e: Entity, x: nat, y: nat)
      requires Sound() && map_ in Grounds() && e.mUID in map_.mEntities && IsPlayer(e.mUID)
      requires e.mPosX < map_.mData.mWidth && e.mPosY < map_.mData.mHeight
      ensures |map_.mData.grid| == map_.mData.mWidth * map_.mData.mHeight
      ensures map_.Judge(x, y, e.mPosX, e.mPosY) == if map_.Accepts(x, y, e.mPosX, e.mPosY) then Accepted else Refused
    {
      map_.PlayersActivate(e.mUID);
      assert map_ in map_.mData.mRefs;
      map_.JudgeIsAccepts(x, y, e.mPosX, e.mPosY);
    }

    lemma WalkHere(e: Entity, x: nat, y: nat)
      requires Registered() && crowd.Holds(e) && Inv(Abs()) && e.mMapId in mGameMaps
      ensures e.mUID in Abs().place && Inv(ViewSets.Walk(Abs(), e.mUID, x, y))
      ensures WellFormed(ViewSets.PutAt(Abs(), e.mUID, Place(e.mMapId, x, y)))
      ensures ViewSets.Walk(Abs(), e.mUID, x, y) == UpdateView(ViewSets.PutAt(Abs(), e.mUID, Place(e.mMapId, x, y)), e.mUID)
    {
      InRoomHere(e);
      WalkKeepsInv(Abs(), e.mUID, x, y);
      WalkLoosens(Abs(), e.mUID, x, y);
    }

    /** The writes of an accepted step. */
    method PutAndUpdate(e: Entity, x: nat, y: nat)
      requires Registered() && Sound() && crowd.Holds(e)
      requires e.mUID in Abs().place && WellFormed(ViewSets.PutAt(Abs(), e.mUID, Place(e.mMapId, x, y)))
      modifies crowd.people
      ensures Registered() && Sound()
      ensures Abs() == UpdateView(ViewSets.PutAt(old(Abs()), e.mUID, Place(old(e.mMapId), x, y)), e.mUID)
      ensures e.mPrevX == old(e.mPosX) && e.mPrevY == old(e.mPosY)
    {
      hide Registered, Abs, WellFormed, UpdateView, ViewSets.PutAt;
      RememberStep(e);
      PutSoundly(e, Place(e.mMapId, x, y));
      UpdateSoundly(e);
    }

    method RememberStep(e: Entity)
      requires Registered() && Sound() && crowd.Holds(e)
      modifies e`mPrevX, e`mPrevY
      ensures Registered() && Sound() && Abs() == old(Abs())
      ensures e.mPrevX == e.mPosX && e.mPrevY == e.mPosY
    {
      hide Registered, Abs;
      e.mPrevX, e.mPrevY := e.mPosX, e.mPosY;
    }

    method UpdateSoundly(e: Entity)
      requires Sound() && Registered() && crowd.Holds(e) && WellFormed(Abs())
      modifies crowd.people`mViewSet
      ensures Sound() && Registered() && Abs() == UpdateView(old(Abs()), e.mUID)
    {
      hide Registered, Abs, WellFormed, UpdateView;
      UpdateBroadcastSet(e);
    }

    /** An accepted step is a walk. */
    method AcceptStep(e: Entity, x: nat, y: nat)
      requires Valid() && crowd.Holds(e) && e.mMapId in mGameMaps && e.mUID in Abs().place
      modifies crowd.people
      ensures Valid() && Abs() == ViewSets.Walk(old(Abs()), e.mUID, x, y)
      ensures e.mPrevX == old(e.mPosX) && e.mPrevY == old(e.mPosY)
    {
      WalkHere(e, x, y);
      hide Registered, Abs, Sound, Inv, WellFormed, UpdateView, ViewSets.PutAt, ViewSets.Walk;
      PutAndUpdate(e, x, y);
    }

    /** The checks of Player::move on the same map; without such a map the step is refused. */
    ghost function Judge(e: Entity, x: nat, y: nat): Verdict
      reads e, Datas()
    {
      if e.mMapId in mGameMaps then mGameMaps[e.mMapId].Judge(x, y, e.mPosX, e.mPosY) else Refused
    }

    /** What Player::move on the same map comes to; without such a map it does nothing. */
    ghost function FateOf(e: Entity, x: nat, y: nat): Fate
      reads e, Datas()
    {
      if e.mMapId in mGameMaps then mGameMaps[e.mMapId].FateOf(x, y, e.mPosX, e.mPosY, e.mPrevX, e.mPrevY) else NoMap
    }

    /** The checks of a step, and of the kick back when it is refused. */
    method CheckFate(map_: GameMap, e: Entity, x: nat, y: nat) returns (ok: bool, f: Fate)
      requires Sound() && map_ in Grounds()
      ensures ok == (map_.Judge(x, y, e.mPosX, e.mPosY) == Accepted)
      ensures f == map_.FateOf(x, y, e.mPosX, e.mPosY, e.mPrevX, e.mPrevY) && (ok ==> f == At(x, y))
    {
      ok, f := map_.CheckMove(x, y, e.mPosX, e.mPosY, e.mPrevX, e.mPrevY);
    }

    /**
      * Player::move on the same map. An accepted step moves the player, a refused one back to where it was before, if
      * that step is accepted; where neither is, the source calls itself without end. After a teleport the previous
      * coordinates are those on the map that was left.
      */
    method Walk(e: Entity, x: nat, y: nat) returns (ok: bool, f: Fate)
      requires Valid() && crowd.Holds(e) && e.mUID in Abs().place
      modifies crowd.people
      ensures Valid() && f == old(FateOf(e, x, y))
      ensures ok == (old(Judge(e, x, y)) == Accepted)
      ensures ok ==> f == At(x, y)
      ensures Abs() == if f.At? then ViewSets.Walk(old(Abs()), e.mUID, f.x, f.y) else old(Abs())
      ensures f.At? ==> e.mPrevX == old(e.mPosX) && e.mPrevY == old(e.mPosY)
    {
      hide Registered, Abs, Inv, WellFormed, ViewSets.Walk, IsPlayer, GameMap.Judge, GameMap.FateOf;
      if e.mMapId !in mGameMaps {
        return false, NoMap;
      }
      ok, f := CheckFate(mGameMaps[e.mMapId], e, x, y);
      if f.At? {
        AcceptStep(e, f.x, f.y);
      }
    }

    method CreateHoused(uid: nat, p: Place) returns (e: Entity)
      requires Registered() && uid !in crowd.ents
      modifies crowd
      ensures fresh(e) && e.mUID == uid && e.At() == p && crowd.Holds(e)
      ensures Registered() && Abs() == ViewSets.Create(old(Abs()), uid, p)
    {
      hide Crowd.Known, Crowd.Named, Crowd.Places, Crowd.Views, Houses;
      ghost var ents := crowd.ents;
      e := crowd.Join(uid, p);
      forall m | m in mGameMaps
        ensures Houses(crowd.ents, mGameMaps[m].mEntities)
      {
        HousesJoined(ents, mGameMaps[m].mEntities, uid, e);
      }
    }

    /** A new entity, in no room yet. */
    method Create(uid: nat, p: Place) returns (e: Entity)
      requires Registered() && Sound() && uid !in crowd.ents
      modifies crowd
      ensures fresh(e) && e.mUID == uid && e.At() == p && crowd.Holds(e)
      ensures Registered() && Sound() && Abs() == ViewSets.Create(old(Abs()), uid, p)
    {
      hide Registered, Abs, Crowd.Holds;
      e := CreateHoused(uid, p);
    }

    lemma EntsHere()
      requires Registered()
      ensures Abs().place.Keys == crowd.ents.Keys
    {
    }

    /** A player logs in. */
    method Login(uid: nat, p: Place) returns (e: Entity)
      requires Valid() && uid !in crowd.ents
      modifies crowd
      ensures fresh(e) && e.mUID == uid && crowd.Holds(e)
      ensures Valid() && Abs() == ViewSets.Create(old(Abs()), uid, p)
    {
      EntsHere();
      CreateKeepsInv(Abs(), uid, p);
      hide Registered, Abs, Inv, Sound;
      e := Create(uid, p);
    }

    lemma SpawnHere(w: ViewSets.World, e: Entity, p: Place)
      requires Registered() && crowd.Holds(e) && e.At() == p && Abs() == ViewSets.Create(w, e.mUID, p)
      ensures e.mMapId in mGameMaps ==>
                ViewSets.Spawn(w, e.mUID, p)
                == ViewSets.World(Rooms()[e.mMapId := mGameMaps[e.mMapId].mEntities.Keys + {e.mUID}], crowd.Places(), crowd.Views())
      ensures e.mMapId !in mGameMaps ==> ViewSets.Spawn(w, e.mUID, p) == Abs()
    {
      InRoomHere(e);
      if e.mMapId in mGameMaps {
        EnterRoomHere(e);
      }
    }

    lemma SpawnFacts(uid: nat, p: Place)
      requires Registered() && Sound() && Inv(Abs()) && uid !in crowd.ents && !IsPlayer(uid)
      ensures uid !in Abs().place && Inv(ViewSets.Spawn(Abs(), uid, p))
      ensures p.mapId in mGameMaps ==> mGameMaps[p.mapId].mUID == p.mapId
    {
      EntsHere();
      SpawnKeepsInv(Abs(), uid, p);
    }

    /** A monster or an NPC appears on its map: no view set is updated. */
    method Spawn(uid: nat, p: Place) returns (e: Entity)
      requires Valid() && uid !in crowd.ents && !IsPlayer(uid)
      modifies crowd, Grounds()`mEntities, Grounds()`mPlayerCount, Datas()
      ensures fresh(e) && e.mUID == uid && crowd.Holds(e)
      ensures Valid() && Abs() == ViewSets.Spawn(old(Abs()), uid, p)
    {
      hide Registered, Inv, Sound, Abs, IsPlayer, Crowd.Holds, ViewSets.Create, ViewSets.Spawn;
      ghost var w := Abs();
      SpawnFacts(uid, p);
      e := Create(uid, p);
      SpawnHere(w, e, p);
      if e.mMapId in mGameMaps {
        Arrive(mGameMaps[e.mMapId], e);
      }
    }
  }
}
