/** A game map: who is on it, and its use of the map data it shares with other maps. */
module GameMaps {
  import opened Activation
  import opened Basics
  import opened Broadcast
  import opened ViewSets
  import MapData

  const MAX_CLIMB := 210

  /** A step is accepted, refused, or the source reads outside the cells in memory. */
  datatype Verdict = Accepted | Refused | Undefined

  /** Where a call of move on the same map leaves the player, if it ends. */
  datatype Fate = NoMap | At(x: nat, y: nat) | OutsideCells | Endless

  class GameMap {
    const mUID: nat
    const mData: MapData.Data
    var mEntities: map<nat, Entity>
    var mPlayerCount: nat

    /** The counter counts the players on the map, and the map uses its data exactly while there are some. */
    ghost predicate Valid()
      reads this, mData, mData.mCells, mData.mPckData
    {
      && mData.Valid()
      && mPlayerCount == |Players(mEntities.Keys)|
      && (this in mData.mRefs <==> mPlayerCount > 0)
    }

    /** The map's members and counter, with the data. */
    ghost function Abs(): Use<object>
      requires mData.Valid()
      reads this, mData, mData.mCells, mData.mPckData
    {
      Use(mData.Abs(), Room(mEntities.Keys, mPlayerCount))
    }

    predicate IsActive()
      reads this
    {
      mPlayerCount > 0
    }

    constructor (uid: nat, data: MapData.Data)
      requires data.Valid()
      ensures Valid() && mUID == uid && mData == data && mEntities == map[]
      ensures this !in data.mRefs
    {
      mUID, mData, mEntities, mPlayerCount := uid, data, map[], 0;
      new;
      assert Players({}) == {};
    }

    /** The first player's arrival brings the cells back. */
    method Activate()
      requires mData.Valid()
      modifies mData
      ensures mData.Valid() && mData.mRefs == old(mData.mRefs) + {this}
      ensures mData.Abs() == MapData.Unpacking(mData.codec, mData.mWidth * mData.mHeight, old(mData.Abs()), Some(this as object))
      ensures mData.mIsPacking == old(mData.mIsPacking) && mData.mCells != null
    {
      mData.Unpack(this);
    }

    method EnterRoom(aEntity: Entity)
      requires Valid()
      modifies this`mEntities, this`mPlayerCount, mData
      ensures Valid()
      ensures mEntities == Added(old(mEntities), aEntity.mUID, aEntity)
      ensures Abs() == EnterOn(mData.codec, mData.mWidth * mData.mHeight, old(Abs()), this as object, aEntity.mUID)
      ensures mData.mRefs == old(mData.mRefs) || mData.mRefs == old(mData.mRefs) + {this}
      ensures mData.mIsPacking == old(mData.mIsPacking)
    {
      if aEntity.mUID !in mEntities {
        ghost var before := mEntities.Keys;
        PlayersAfterEnter(before, aEntity.mUID);
        hide Players, IsPlayer, MapData.Packing, MapData.Unpacking;
        if IsPlayer(aEntity.mUID) {
          if mPlayerCount == 0 {
            Activate();
          }
          mPlayerCount := mPlayerCount + 1;
        }
        mEntities := mEntities[aEntity.mUID := aEntity];
        assert mEntities.Keys == before + {aEntity.mUID};
      }
    }

    method LeaveRoom(aEntity: Entity)
      requires Valid()
      modifies this`mEntities, this`mPlayerCount, mData
      ensures Valid()
      ensures mEntities == old(mEntities) - {aEntity.mUID}
      ensures Abs() == LeaveOn(mData.codec, old(Abs()), this as object, aEntity.mUID)
      ensures mData.mRefs == old(mData.mRefs) || mData.mRefs == old(mData.mRefs) - {this}
      ensures mData.mIsPacking == old(mData.mIsPacking)
    {
      if aEntity.mUID in mEntities {
        ghost var before := mEntities.Keys;
        mEntities := mEntities - {aEntity.mUID};
        assert mEntities.Keys == before - {aEntity.mUID};
        PlayersAfterEnter(mEntities.Keys, aEntity.mUID);
        assert mEntities.Keys + {aEntity.mUID} == before;
        if IsPlayer(aEntity.mUID) {
          mPlayerCount := mPlayerCount - 1;
          if mPlayerCount == 0 {
            mData.Pack(this);
          }
        }
      } else {
        assert mEntities - {aEntity.mUID} == mEntities;
      }
    }

    /** The loaded cell. */
    ghost function Floor(x: nat, y: nat): MapData.Cell
      requires |mData.grid| == mData.mWidth * mData.mHeight && x < mData.mWidth && y < mData.mHeight
    {
      MapData.Pos2IdxInjective(x, y, x, y, mData.mWidth, mData.mHeight);
      mData.grid[MapData.Pos2Idx(x, y, mData.mWidth)]
    }

    /** Somebody uses the data, this map or a generator in its turn, or packing is suspended. */
    ghost predicate InUse()
      reads mData
    {
      !mData.mIsPacking || mData.mRefs != {}
    }

    /** While the data is in use, the floor of every valid point is the loaded cell; a map with a player on it is in use. */
    method GetFloor(aPosX: nat, aPosY: nat) returns (c: Option<MapData.Cell>)
      requires Valid()
      ensures c == mData.Look(aPosX, aPosY)
      ensures IsActive() ==> InUse()
      ensures |mData.grid| == mData.mWidth * mData.mHeight
      ensures InUse() && aPosX < mData.mWidth && aPosY < mData.mHeight ==> c == Some(Floor(aPosX, aPosY))
    {
      assert IsActive() ==> this in mData.mRefs;
      c := mData.GetCell(aPosX, aPosY);
    }

    /** A player may be stood up on the point: inside the map, accessible, and not more than 210 above the start. */
    ghost predicate Accepts(x: nat, y: nat, fromX: nat, fromY: nat)
      requires |mData.grid| == mData.mWidth * mData.mHeight && fromX < mData.mWidth && fromY < mData.mHeight
    {
      && x < mData.mWidth && y < mData.mHeight
      && Floor(x, y).accessible && Floor(x, y).altitude - Floor(fromX, fromY).altitude <= MAX_CLIMB
    }

    /** What the checks of Player::move come to, from wherever the player stands. */
    ghost function Judge(x: nat, y: nat, fromX: nat, fromY: nat): Verdict
      reads mData
    {
      if x >= mData.mWidth || y >= mData.mHeight then Refused
      else
        match mData.Look(x, y)
        case None => Undefined
        case Some(cell) =>
          if !cell.accessible then Refused
          else
            match mData.Look(fromX, fromY)
            case None => Undefined
            case Some(here) => if cell.altitude - here.altitude > MAX_CLIMB then Refused else Accepted
    }

    /** While the data is in use, a step from a point of the map is accepted exactly when it may be. */
    lemma JudgeIsAccepts(x: nat, y: nat, fromX: nat, fromY: nat)
      requires Valid() && InUse() && fromX < mData.mWidth && fromY < mData.mHeight
      ensures |mData.grid| == mData.mWidth * mData.mHeight
      ensures Judge(x, y, fromX, fromY) == if Accepts(x, y, fromX, fromY) then Accepted else Refused
      ensures x < mData.mWidth && y < mData.mHeight ==>
                && x + y * mData.mWidth < |mData.grid| && fromX + fromY * mData.mWidth < |mData.grid|
                && var there, here := mData.grid[x + y * mData.mWidth], mData.grid[fromX + fromY * mData.mWidth];
                   Judge(x, y, fromX, fromY) == if there.accessible && there.altitude - here.altitude <= 210 then Accepted else Refused
      ensures x >= mData.mWidth || y >= mData.mHeight ==> Judge(x, y, fromX, fromY) == Refused
    {
      MapData.Pos2IdxInjective(fromX, fromY, fromX, fromY, mData.mWidth, mData.mHeight);
      if x < mData.mWidth && y < mData.mHeight {
        MapData.Pos2IdxInjective(x, y, x, y, mData.mWidth, mData.mHeight);
      }
    }

    method CheckStep(x: nat, y: nat, fromX: nat, fromY: nat) returns (v: Verdict)
      requires Valid()
      ensures v == Judge(x, y, fromX, fromY)
    {
      if x >= mData.mWidth || y >= mData.mHeight {
        return Refused;
      }
      var cell := GetFloor(x, y);
      if cell.None? {
        return Undefined;
      }
      if !cell.value.accessible {
        return Refused;
      }
      var here := GetFloor(fromX, fromY);
      if here.None? {
        return Undefined;
      }
      return if cell.value.altitude - here.value.altitude > MAX_CLIMB then Refused else Accepted;
    }

    /** A refused step kicks the player back to where it was before, with the same checks. */
    ghost function FateOf(x: nat, y: nat, fromX: nat, fromY: nat, prevX: nat, prevY: nat): Fate
      reads mData
    {
      match Judge(x, y, fromX, fromY)
      case Accepted => At(x, y)
      case Undefined => OutsideCells
      case Refused =>
        match Judge(prevX, prevY, fromX, fromY)
        case Accepted => At(prevX, prevY)
        case Undefined => OutsideCells
        case Refused => Endless
    }

    /** What move and kickBack come to, calling each other, within so many calls of move. */
    ghost function Calls(calls: nat, x: nat, y: nat, fromX: nat, fromY: nat, prevX: nat, prevY: nat): Option<Fate>
      reads mData
    {
      if calls == 0 then None
      else
        match Judge(x, y, fromX, fromY)
        case Accepted => Some(At(x, y))
        case Undefined => Some(OutsideCells)
        case Refused => Calls(calls - 1, prevX, prevY, fromX, fromY, prevX, prevY)
    }

    lemma {:induction false} RefusedForever(calls: nat, fromX: nat, fromY: nat, prevX: nat, prevY: nat)
      requires Judge(prevX, prevY, fromX, fromY) == Refused
      ensures Calls(calls, prevX, prevY, fromX, fromY, prevX, prevY) == None
    {
      if calls > 0 {
        RefusedForever(calls - 1, fromX, fromY, prevX, prevY);
      }
    }

    /** The calls end, and then within two of them, exactly when the fate is not endless. */
    lemma CallsEndIff(x: nat, y: nat, fromX: nat, fromY: nat, prevX: nat, prevY: nat)
      ensures var f := FateOf(x, y, fromX, fromY, prevX, prevY);
              && ((exists calls: nat :: Calls(calls, x, y, fromX, fromY, prevX, prevY).Some?) <==> f != Endless)
              && (f != Endless ==> forall calls: nat :: calls >= 2 ==> Calls(calls, x, y, fromX, fromY, prevX, prevY) == Some(f))
    {
      hide Judge;
      forall calls: nat
        ensures FateOf(x, y, fromX, fromY, prevX, prevY) == Endless ==> Calls(calls, x, y, fromX, fromY, prevX, prevY) == None
      {
        if calls > 0 && Judge(prevX, prevY, fromX, fromY) == Refused {
          RefusedForever(calls - 1, fromX, fromY, prevX, prevY);
        }
      }
      forall calls: nat | calls >= 2
        ensures FateOf(x, y, fromX, fromY, prevX, prevY) != Endless ==>
                  Calls(calls, x, y, fromX, fromY, prevX, prevY) == Some(FateOf(x, y, fromX, fromY, prevX, prevY))
      {
        assert Calls(calls - 1, prevX, prevY, fromX, fromY, prevX, prevY).Some? || Judge(prevX, prevY, fromX, fromY) == Refused;
      }
      assert Calls(2, x, y, fromX, fromY, prevX, prevY).Some? || FateOf(x, y, fromX, fromY, prevX, prevY) == Endless;
    }

    /**
      * On data in use, between points of the map: a step that is not accepted ends, back at the previous point, exactly
      * when that point is accessible and not more than 210 above the player.
      */
    lemma KickBackEndsIff(x: nat, y: nat, fromX: nat, fromY: nat, prevX: nat, prevY: nat)
      requires Valid() && InUse() && fromX < mData.mWidth && fromY < mData.mHeight
      requires prevX < mData.mWidth && prevY < mData.mHeight
      ensures |mData.grid| == mData.mWidth * mData.mHeight
      ensures FateOf(x, y, fromX, fromY, prevX, prevY)
              == if Accepts(x, y, fromX, fromY) then At(x, y)
                 else if Floor(prevX, prevY).accessible
                         && Floor(prevX, prevY).altitude - Floor(fromX, fromY).altitude <= 210 then At(prevX, prevY)
                 else Endless
    {
      JudgeIsAccepts(x, y, fromX, fromY);
      JudgeIsAccepts(prevX, prevY, fromX, fromY);
    }

    /** Such a player: it stepped down by more than 210, and its next step is not accepted. */
    lemma DropThenRefused(x: nat, y: nat, lowX: nat, lowY: nat, highX: nat, highY: nat)
      requires Valid() && InUse() && lowX < mData.mWidth && lowY < mData.mHeight && highX < mData.mWidth && highY < mData.mHeight
      requires Accepts(lowX, lowY, highX, highY) && Floor(highX, highY).altitude - Floor(lowX, lowY).altitude > 210
      requires !Accepts(x, y, lowX, lowY)
      ensures FateOf(lowX, lowY, highX, highY, highX, highY) == At(lowX, lowY)
      ensures FateOf(x, y, lowX, lowY, highX, highY) == Endless
      ensures forall calls: nat :: Calls(calls, x, y, lowX, lowY, highX, highY).None?
    {
      hide Calls, Accepts;
      KickBackEndsIff(lowX, lowY, highX, highY, highX, highY);
      KickBackEndsIff(x, y, lowX, lowY, highX, highY);
      CallsEndIff(x, y, lowX, lowY, highX, highY);
    }

    /** The checks of a step, and of the step back when it is refused. */
    method CheckMove(x: nat, y: nat, fromX: nat, fromY: nat, prevX: nat, prevY: nat) returns (ok: bool, f: Fate)
      requires Valid()
      ensures ok == (Judge(x, y, fromX, fromY) == Accepted)
      ensures f == FateOf(x, y, fromX, fromY, prevX, prevY)
    {
      hide Judge;
      var v := CheckStep(x, y, fromX, fromY);
      ok := v == Accepted;
      f := if ok then At(x, y) else OutsideCells;
      if v == Refused {
        v := CheckStep(prevX, prevY, fromX, fromY);
        f := if v == Accepted then At(prevX, prevY) else if v == Refused then Endless else OutsideCells;
      }
    }

    lemma PlayersActivate(u: nat)
      requires Valid() && u in mEntities && IsPlayer(u)
      ensures IsActive()
    {
      assert u in Players(mEntities.Keys);
    }
  }
}
