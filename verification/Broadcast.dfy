/** Entities and the view sets they keep of one another, as the objects the server updates in place. */
module Broadcast {
  import opened ViewSets

  /** The view set with an entity added, unless it was there. */
  function Added<E>(m: map<nat, E>, uid: nat, e: E): map<nat, E> {
    if uid in m then m else m[uid := e]
  }

  lemma AddedKeys<E>(m: map<nat, E>, uid: nat, e: E)
    ensures Added(m, uid, e).Keys == m.Keys + {uid}
  {
  }

  lemma KeysWithout<E>(m: map<nat, E>, uid: nat)
    ensures (m - {uid}).Keys == m.Keys - {uid}
  {
  }

  /** Two view sets after one comparison. */
  function Met(view: map<nat, set<nat>>, u: nat, v: nat, near: bool): map<nat, set<nat>>
    requires u in view && v in view
  {
    if near then view[u := view[u] + {v}][v := view[v] + {u}] else view[u := view[u] - {v}][v := view[v] - {u}]
  }

  /** The view sets once an entity was compared with some members of its room. */
  function AllMet(view: map<nat, set<nat>>, place: map<nat, Place>, u: nat, met: set<nat>): (r: map<nat, set<nat>>)
    requires u in view && view.Keys == place.Keys
    ensures r.Keys == view.Keys
  {
    map v | v in view ::
      if v == u then (view[u] - (met - {u})) + (set x | x in met && x != u && x in place && Near(place[u], place[x]))
      else if v !in met then view[v]
      else if Near(place[u], place[v]) then view[v] + {u}
      else view[v] - {u}
  }

  lemma AllMetNobody(view: map<nat, set<nat>>, place: map<nat, Place>, u: nat)
    requires u in view && view.Keys == place.Keys
    ensures AllMet(view, place, u, {}) == view
  {
    hide Near;
    assert AllMet(view, place, u, {})[u] == view[u];
  }

  lemma AllMetStep(view: map<nat, set<nat>>, place: map<nat, Place>, u: nat, met: set<nat>, k: nat)
    requires u in view && view.Keys == place.Keys && k in view && k !in met
    ensures AllMet(view, place, u, met + {k})
            == if k == u then AllMet(view, place, u, met) else Met(AllMet(view, place, u, met), u, k, Near(place[u], place[k]))
  {
    hide Near;
    var a, b := AllMet(view, place, u, met), AllMet(view, place, u, met + {k});
    if k == u {
      assert b[u] == a[u];
    } else if Near(place[u], place[k]) {
      assert b[u] == a[u] + {k};
    } else {
      assert b[u] == a[u] - {k};
    }
  }

  class Entity {
    const mUID: nat
    var mMapId: nat
    var mPosX: nat
    var mPosY: nat
    var mPrevMap: nat
    var mPrevX: nat
    var mPrevY: nat
    var mViewSet: map<nat, Entity>

    constructor (uid: nat, p: Place)
      ensures mUID == uid && At() == p && mViewSet == map[]
    {
      mUID, mMapId, mPosX, mPosY, mViewSet := uid, p.mapId, p.x, p.y, map[];
      mPrevMap, mPrevX, mPrevY := 0, 0, 0;
    }

    function At(): Place
      reads `mMapId, `mPosX, `mPosY
    {
      Place(mMapId, mPosX, mPosY)
    }

    method AddEntityToBCSet(aEntity: Entity)
      requires aEntity != this
      modifies `mViewSet
      ensures mViewSet == Added(old(mViewSet), aEntity.mUID, aEntity)
    {
      if aEntity.mUID !in mViewSet {
        mViewSet := mViewSet[aEntity.mUID := aEntity];
      }
    }

    method RemoveEntityFromBCSet(aEntity: Entity)
      requires aEntity != this
      modifies `mViewSet
      ensures mViewSet == old(mViewSet) - {aEntity.mUID}
    {
      if aEntity.mUID in mViewSet {
        mViewSet := mViewSet - {aEntity.mUID};
      }
    }
  }

  /** All members are entities that exist, each under its own UID. */
  ghost predicate Houses(ents: map<nat, Entity>, members: map<nat, Entity>) {
    forall u :: u in members ==> u in ents && members[u] == ents[u]
  }

  lemma HousesAdded(ents: map<nat, Entity>, members: map<nat, Entity>, u: nat, e: Entity)
    requires Houses(ents, members) && u in ents && ents[u] == e
    ensures Houses(ents, Added(members, u, e))
  {
  }

  lemma HousesJoined(ents: map<nat, Entity>, members: map<nat, Entity>, u: nat, e: Entity)
    requires Houses(ents, members) && u !in ents
    ensures Houses(ents[u := e], members)
  {
  }

  lemma HousesWithout(ents: map<nat, Entity>, members: map<nat, Entity>, u: nat)
    requires Houses(ents, members)
    ensures Houses(ents, members - {u})
  {
  }

  /** The entities that exist. */
  class Crowd {
    /** By UID, and as a set of objects. */
    ghost var ents: map<nat, Entity>
    ghost var people: set<Entity>

    constructor ()
      ensures ents == map[] && Known()
    {
      ents, people := map[], {};
    }

    ghost predicate Named()
      reads this
    {
      forall u :: u in ents ==> ents[u].mUID == u && ents[u] in people
    }

    ghost predicate Holds(e: Entity)
      reads this
    {
      e.mUID in ents && ents[e.mUID] == e && e in people
    }

    /** Every entity has its own UID, and the view sets hold existing entities, each under its own UID. */
    ghost predicate Known()
      reads this, people`mViewSet
    {
      && Named()
      && forall u, v :: u in ents && v in ents[u].mViewSet ==> v in ents && ents[u].mViewSet[v] == ents[v]
    }

    ghost function Places(): (r: map<nat, Place>)
      requires Named()
      reads this, people`mMapId, people`mPosX, people`mPosY
      ensures r.Keys == ents.Keys
    {
      map u | u in ents :: ents[u].At()
    }

    ghost function Views(): (r: map<nat, set<nat>>)
      requires Named()
      reads this, people`mViewSet
      ensures r.Keys == ents.Keys
    {
      map u | u in ents :: ents[u].mViewSet.Keys
    }

    /** A new entity, under a free UID. */
    method Join(uid: nat, p: Place) returns (e: Entity)
      requires Known() && uid !in ents
      modifies this
      ensures fresh(e) && e.mUID == uid && e.At() == p
      ensures Known() && Holds(e) && ents == old(ents)[uid := e] && people == old(people) + {e}
      ensures Places() == old(Places())[uid := p] && Views() == old(Views())[uid := {}]
    {
      ghost var places, views := Places()[uid := p], Views()[uid := {}];
      e := new Entity(uid, p);
      ents, people := ents[uid := e], people + {e};
      assert forall u :: u in ents ==> ents[u].At() == places[u] && ents[u].mViewSet.Keys == views[u];
    }

    /** An entity is put elsewhere. */
    method PutAt(e: Entity, p: Place)
      requires Known() && Holds(e)
      modifies e`mMapId, e`mPosX, e`mPosY
      ensures Known() && e.At() == p && Places() == old(Places())[e.mUID := p]
    {
      ghost var places := Places();
      e.mMapId, e.mPosX, e.mPosY := p.mapId, p.x, p.y;
      assert forall u :: u in ents ==> ents[u].At() == places[e.mUID := p][u];
    }

    /** One entity seen less: it loses the entity that looks away, which loses it. */
    static method LookAway(e: Entity, entity: Entity)
      requires entity != e
      modifies e`mViewSet, entity`mViewSet
      ensures e.mViewSet == old(e.mViewSet) - {entity.mUID}
      ensures entity.mViewSet == old(entity.mViewSet) - {e.mUID}
    {
      entity.RemoveEntityFromBCSet(e);
      e.mViewSet := e.mViewSet - {entity.mUID};
    }

    /** The loop of Entity::clearBroadcastSet. */
    method EmptyViewSet(e: Entity)
      requires Known() && Holds(e) && e.mUID !in e.mViewSet
      modifies people`mViewSet
      ensures e.mViewSet == map[]
      ensures forall v :: v in ents && v != e.mUID ==>
                ents[v].mViewSet
                == if v in old(e.mViewSet) then old(ents[v].mViewSet) - {e.mUID} else old(ents[v].mViewSet)
    {
      ghost var seen := e.mViewSet;
      while e.mViewSet != map[]
        invariant forall v :: v in e.mViewSet ==> v in seen && e.mViewSet[v] == seen[v]
        invariant forall v :: v in ents && v != e.mUID ==>
                    ents[v].mViewSet
                    == if v in seen && v !in e.mViewSet then old(ents[v].mViewSet) - {e.mUID} else old(ents[v].mViewSet)
        decreases e.mViewSet.Keys
      {
        var k :| k in e.mViewSet;
        LookAway(e, e.mViewSet[k]);
      }
    }

    /** Entity::clearBroadcastSet: it ends, and nobody sees the entity any more. */
    method ClearBroadcastSet(e: Entity)
      requires Known() && Holds(e) && e.mUID !in e.mViewSet
      modifies people`mViewSet
      ensures Known() && Views() == Cleared(old(Views()), e.mUID)
    {
      EmptyViewSet(e);
      forall a, b | a in ents && b in ents[a].mViewSet
        ensures b in ents && ents[a].mViewSet[b] == ents[b]
      {
        assert b in old(ents[a].mViewSet) && ents[a].mViewSet[b] == old(ents[a].mViewSet)[b];
      }
      ghost var cleared := Cleared(old(Views()), e.mUID);
      forall v | v in ents
        ensures ents[v].mViewSet.Keys == cleared[v]
      {
      }
      assert Views() == cleared;
    }

    /** One turn of the loop of GameMap::updateBroadcastSet. */
    static method Compare(aEntity: Entity, entity: Entity)
      requires aEntity != entity
      modifies aEntity`mViewSet, entity`mViewSet
      ensures Near(aEntity.At(), entity.At()) ==>
                && aEntity.mViewSet == Added(old(aEntity.mViewSet), entity.mUID, entity)
                && entity.mViewSet == Added(old(entity.mViewSet), aEntity.mUID, aEntity)
      ensures !Near(aEntity.At(), entity.At()) ==>
                && aEntity.mViewSet == old(aEntity.mViewSet) - {entity.mUID}
                && entity.mViewSet == old(entity.mViewSet) - {aEntity.mUID}
    {
      if Distance(aEntity.At(), entity.At()) <= CELLS_PER_VIEW {
        aEntity.AddEntityToBCSet(entity);
        entity.AddEntityToBCSet(aEntity);
      } else {
        aEntity.RemoveEntityFromBCSet(entity);
        entity.RemoveEntityFromBCSet(aEntity);
      }
    }

    /** The same turn keeps the view sets well kept. */
    method CompareSafely(e: Entity, entity: Entity)
      requires e != entity && Known() && Holds(e) && Holds(entity)
      modifies e`mViewSet, entity`mViewSet
      ensures Known()
      ensures e.mViewSet.Keys
              == if Near(e.At(), entity.At()) then old(e.mViewSet.Keys) + {entity.mUID} else old(e.mViewSet.Keys) - {entity.mUID}
      ensures entity.mViewSet.Keys
              == if Near(e.At(), entity.At()) then old(entity.mViewSet.Keys) + {e.mUID} else old(entity.mViewSet.Keys) - {e.mUID}
    {
      hide Near;
      Compare(e, entity);
    }

    /** The same turn on the view sets as UIDs. */
    method CompareKnown(e: Entity, entity: Entity)
      requires e != entity && Known() && Holds(e) && Holds(entity)
      modifies e`mViewSet, entity`mViewSet
      ensures Known() && Views() == Met(old(Views()), e.mUID, entity.mUID, Near(e.At(), entity.At()))
    {
      assert Named();
      hide Near, Known;
      CompareSafely(e, entity);
      ghost var met := Met(old(Views()), e.mUID, entity.mUID, Near(e.At(), entity.At()));
      assert forall v :: v in ents ==> ents[v].mViewSet.Keys == met[v];
    }

    lemma PlaceOf(u: nat)
      requires Named() && u in ents
      ensures Places().Keys == ents.Keys && Places()[u] == ents[u].At()
    {
    }

    lemma PlacesOf(e: Entity, entity: Entity)
      requires Known() && Holds(e) && Holds(entity)
      ensures Named() && e.mUID in Places() && entity.mUID in Places()
      ensures Places()[e.mUID] == e.At() && Places()[entity.mUID] == entity.At()
    {
      PlaceOf(e.mUID);
      PlaceOf(entity.mUID);
    }

    /** One member of the room. */
    method CompareNext(e: Entity, entity: Entity, ghost views: map<nat, set<nat>>, ghost places: map<nat, Place>,
                       ghost done: set<nat>)
      requires e != entity && Known() && Holds(e) && Holds(entity) && entity.mUID !in done
      requires views.Keys == ents.Keys == places.Keys && places[e.mUID] == e.At() && places[entity.mUID] == entity.At()
      requires Views() == AllMet(views, places, e.mUID, done)
      modifies people`mViewSet
      ensures Known() && Views() == AllMet(views, places, e.mUID, done + {entity.mUID})
    {
      hide Near, AllMet, Met, Views, Places, Entity.At, Known, Named;
      AllMetStep(views, places, e.mUID, done, entity.mUID);
      CompareKnown(e, entity);
    }

    /** The entity was compared with some members of its room; nothing else changed. */
    ghost predicate Compared(e: Entity, views: map<nat, set<nat>>, places: map<nat, Place>, done: set<nat>)
      reads this, people
    {
      && Known() && Holds(e) && views.Keys == places.Keys == ents.Keys
      && Places() == places && Views() == AllMet(views, places, e.mUID, done)
    }

    /** Any member of the room; the entity itself is passed over. */
    method CompareMember(e: Entity, entity: Entity, ghost views: map<nat, set<nat>>, ghost places: map<nat, Place>,
                         ghost done: set<nat>)
      requires Compared(e, views, places, done) && Holds(entity) && entity.mUID !in done
      modifies people`mViewSet
      ensures Compared(e, views, places, done + {entity.mUID})
    {
      hide Near, AllMet, Views, Places, Entity.At, Known, Named;
      PlacesOf(e, entity);
      if e == entity {
        AllMetStep(views, places, e.mUID, done, entity.mUID);
      } else {
        CompareNext(e, entity, views, places, done);
      }
    }

    /** The loop of GameMap::updateBroadcastSet, the members taken in any order. */
    method CompareAll(e: Entity, members: map<nat, Entity>)
      requires Known() && Holds(e) && Houses(ents, members)
      modifies people`mViewSet
      ensures Known() && Places() == old(Places())
      ensures Views() == AllMet(old(Views()), old(Places()), e.mUID, members.Keys)
    {
      AllMetNobody(Views(), Places(), e.mUID);
      ghost var views, places := Views(), Places();
      assert forall k :: k in members ==> Holds(members[k]) && members[k].mUID == k;
      assert Compared(e, views, places, {});
      CompareRest(e, members, views, places);
    }

    method CompareRest(e: Entity, members: map<nat, Entity>, ghost views: map<nat, set<nat>>, ghost places: map<nat, Place>)
      requires Compared(e, views, places, {})
      requires forall k :: k in members ==> Holds(members[k]) && members[k].mUID == k
      modifies people`mViewSet
      ensures Compared(e, views, places, members.Keys)
    {
      hide Compared, Holds;
      var rest := members.Keys;
      ghost var done: set<nat> := {};
      while rest != {}
        invariant done + rest == members.Keys && done !! rest
        invariant Compared(e, views, places, done)
        decreases rest
      {
        var k :| k in rest;
        CompareMember(e, members[k], views, places, done);
        done, rest := done + {k}, rest - {k};
      }
      assert done == members.Keys;
    }
  }
}
