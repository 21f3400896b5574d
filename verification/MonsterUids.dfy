/** The unique identifiers of monsters: handed out in order, then recycled in the order they came back. */
module MonsterUids {
  import opened Basics

  const MONSTERID_FIRST := 400001
  const MONSTERID_LAST := 499999

  predicate IsMonster(uid: nat) {
    MONSTERID_FIRST <= uid <= MONSTERID_LAST
  }

  /** The identifiers handed out so far. */
  function Issued(last: nat): set<nat> {
    set u | MONSTERID_FIRST <= u <= last && IsMonster(u)
  }

  predicate NoDuplicates(s: seq<nat>) {
    forall i, j :: 0 <= i < j < |s| ==> s[i] != s[j]
  }

  function Members(s: seq<nat>): set<nat> {
    set u | u in s
  }

  /** The allocator, and the identifiers of the monsters that exist. */
  datatype State = State(last: nat, recycled: seq<nat>, live: set<nat>)

  /** Live and recycled identifiers share nothing, repeat nothing, and are together exactly the issued ones. */
  predicate Partition(s: State) {
    && MONSTERID_FIRST - 1 <= s.last <= MONSTERID_LAST
    && NoDuplicates(s.recycled)
    && s.live !! Members(s.recycled)
    && s.live + Members(s.recycled) == Issued(s.last)
  }

  /** The identifier of the next monster, if any is left. */
  function NextUid(s: State): Option<nat> {
    if s.last < MONSTERID_LAST then Some(s.last + 1)
    else if s.recycled != [] then Some(s.recycled[0])
    else None
  }

  function Generated(s: State): State {
    if s.last < MONSTERID_LAST then State(s.last + 1, s.recycled, s.live + {s.last + 1})
    else if s.recycled != [] then State(s.last, s.recycled[1..], s.live + {s.recycled[0]})
    else s
  }

  function Recycled(s: State, uid: nat): State {
    State(s.last, s.recycled + [uid], s.live - {uid})
  }

  datatype Step = Generate | Recycle(uid: nat)

  /** A monster dies once. */
  predicate Possible(s: State, step: Step) {
    step.Recycle? ==> step.uid in s.live
  }

  function After(s: State, step: Step): State {
    match step
    case Generate => Generated(s)
    case Recycle(uid) => Recycled(s, uid)
  }

  predicate IsRun(states: seq<State>, steps: seq<Step>) {
    && |states| == |steps| + 1
    && states[0] == State(MONSTERID_FIRST - 1, [], {})
    && forall i :: 0 <= i < |steps| ==> Possible(states[i], steps[i]) && states[i + 1] == After(states[i], steps[i])
  }

  lemma GenerateKeepsPartition(s: State)
    requires Partition(s)
    ensures Partition(Generated(s))
    ensures NextUid(s).Some? ==>
              var uid := NextUid(s).value;
              && 400001 <= uid <= 499999 && uid !in s.live && Generated(s).live == s.live + {uid}
  {
    if s.last < MONSTERID_LAST {
      assert Issued(s.last + 1) == Issued(s.last) + {s.last + 1};
    } else if s.recycled != [] {
      assert s.recycled[0] in Issued(s.last);
      assert Members(s.recycled) == Members(s.recycled[1..]) + {s.recycled[0]};
    }
  }

  lemma RecycleKeepsPartition(s: State, uid: nat)
    requires Partition(s) && uid in s.live
    ensures Partition(Recycled(s, uid))
  {
    assert Members(s.recycled + [uid]) == Members(s.recycled) + {uid};
  }

  /** There is no identifier left exactly when all 99,999 of them belong to live monsters. */
  lemma ExhaustedIffAllLive(s: State)
    requires Partition(s)
    ensures NextUid(s).None? <==> s.live == Issued(MONSTERID_LAST)
    ensures |Issued(MONSTERID_LAST)| == 99999
    ensures NextUid(s).None? <==> |s.live| == 99999
  {
    CountIssued(MONSTERID_LAST);
    assert s.recycled == [] || s.recycled[0] in Members(s.recycled);
    assert Members(s.recycled) <= Issued(MONSTERID_LAST);
    if s.live == Issued(MONSTERID_LAST) {
      assert MONSTERID_LAST in s.live;
    }
    assert Issued(s.last) <= Issued(MONSTERID_LAST);
    if |s.live| == 99999 {
      SubsetOfSameSize(s.live, Issued(MONSTERID_LAST));
    }
  }

  lemma {:induction false} CountIssued(last: nat)
    requires MONSTERID_FIRST - 1 <= last <= MONSTERID_LAST
    ensures |Issued(last)| == last - (MONSTERID_FIRST - 1)
  {
    if last == MONSTERID_FIRST - 1 {
    } else {
      CountIssued(last - 1);
      assert Issued(last) == Issued(last - 1) + {last};
    }
  }

  lemma SubsetOfSameSize(a: set<nat>, b: set<nat>)
    requires a <= b && |a| == |b|
    ensures a == b
  {
    assert b == a + (b - a);
  }

  /** In every state of every run: live and recycled partition what was issued, and repeat nothing. */
  lemma {:induction false} EveryRun(states: seq<State>, steps: seq<Step>, i: nat)
    requires IsRun(states, steps) && i < |states|
    ensures Partition(states[i])
  {
    if i == 0 {
    } else {
      EveryRun(states, steps, i - 1);
      match steps[i - 1]
      case Generate => GenerateKeepsPartition(states[i - 1]);
      case Recycle(uid) => RecycleKeepsPartition(states[i - 1], uid);
    }
  }

  /** Two monsters with one identifier never live at once: between the two births lies a death. */
  lemma {:induction false} BornOnceWhileLive(states: seq<State>, steps: seq<Step>, i: nat, j: nat)
    requires IsRun(states, steps) && i < j < |steps|
    requires steps[i].Generate? && steps[j].Generate? && NextUid(states[i]).Some? && NextUid(states[j]) == NextUid(states[i])
    ensures Recycle(NextUid(states[i]).value) in steps[i + 1..j]
  {
    EveryRun(states, steps, i);
    EveryRun(states, steps, j);
    GenerateKeepsPartition(states[i]);
    GenerateKeepsPartition(states[j]);
    LiveUntilRecycled(states, steps, i + 1, j, NextUid(states[i]).value);
  }

  lemma {:induction false} LiveUntilRecycled(states: seq<State>, steps: seq<Step>, i: nat, j: nat, uid: nat)
    requires IsRun(states, steps) && i <= j < |states| && uid in states[i].live
    ensures uid in states[j].live || Recycle(uid) in steps[i..j]
  {
    if i == j {
    } else {
      LiveUntilRecycled(states, steps, i, j - 1, uid);
      assert steps[i..j] == steps[i..j - 1] + [steps[j - 1]];
    }
  }

  /** What a step returns to the queue, and what it hands out again. */
  function Back(step: Step): seq<nat> {
    if step.Recycle? then [step.uid] else []
  }

  function Again(s: State, step: Step): seq<nat> {
    if step.Generate? && s.last == MONSTERID_LAST && NextUid(s).Some? then [NextUid(s).value] else []
  }

  lemma QueueMoves(s: State, step: Step)
    requires s.last <= MONSTERID_LAST
    ensures s.recycled + Back(step) == Again(s, step) + After(s, step).recycled
  {
  }

  lemma Regroup(a: seq<nat>, b: seq<nat>, c: seq<nat>)
    ensures (a + b) + c == a + (b + c)
  {
  }

  /** The identifiers recycled in the first steps, in order. */
  function CameBack(steps: seq<Step>, i: nat): seq<nat>
    requires i <= |steps|
  {
    if i == 0 then [] else CameBack(steps, i - 1) + Back(steps[i - 1])
  }

  /** The identifiers handed out again in the first steps, in order. */
  function Reissued(states: seq<State>, steps: seq<Step>, i: nat): seq<nat>
    requires i <= |steps| <= |states|
  {
    if i == 0 then [] else Reissued(states, steps, i - 1) + Again(states[i - 1], steps[i - 1])
  }

  /** Identifiers are handed out again in the order they came back, none twice for one return. */
  lemma {:induction false} ReissuedInOrder(states: seq<State>, steps: seq<Step>, i: nat)
    requires IsRun(states, steps) && i <= |steps|
    ensures CameBack(steps, i) == Reissued(states, steps, i) + states[i].recycled
  {
    hide After, Back, Again;
    if i == 0 {
    } else {
      ReissuedInOrder(states, steps, i - 1);
      EveryRun(states, steps, i - 1);
      var s, step := states[i - 1], steps[i - 1];
      QueueMoves(s, step);
      Regroup(Reissued(states, steps, i - 1), s.recycled, Back(step));
      Regroup(Reissued(states, steps, i - 1), Again(s, step), After(s, step).recycled);
    }
  }

  class Allocator {
    var mLastMonsterUID: nat
    var mRecycledMonsterUIDs: seq<nat>
    /** The identifiers of the monsters that exist. */
    ghost var live: set<nat>

    ghost function Abs(): State
      reads this
    {
      State(mLastMonsterUID, mRecycledMonsterUIDs, live)
    }

    constructor ()
      ensures Abs() == State(MONSTERID_FIRST - 1, [], {}) && Partition(Abs())
    {
      mLastMonsterUID, mRecycledMonsterUIDs, live := MONSTERID_FIRST - 1, [], {};
    }

    /** World::generateMonster; where there is no identifier left the source aborts. */
    method GenerateMonster() returns (uid: Option<nat>)
      requires Partition(Abs())
      modifies this
      ensures Partition(Abs()) && uid == NextUid(old(Abs())) && Abs() == Generated(old(Abs()))
      ensures uid.Some? ==>
                && uid.value !in old(live) && live == old(live) + {uid.value}
                && 400001 <= uid.value <= 499999
      ensures uid.None? ==> |live| == 99999
    {
      ghost var s := Abs();
      hide Partition, Issued, IsMonster;
      GenerateKeepsPartition(s);
      ExhaustedIffAllLive(s);
      if mLastMonsterUID < MONSTERID_LAST {
        mLastMonsterUID := mLastMonsterUID + 1;
        uid := Some(mLastMonsterUID);
      } else if mRecycledMonsterUIDs != [] {
        uid := Some(mRecycledMonsterUIDs[0]);
        mRecycledMonsterUIDs := mRecycledMonsterUIDs[1..];
      } else {
        return None;
      }
      live := live + {uid.value};
      assert Abs() == Generated(s);
    }

    /** World::recycleMonsterUID, when a live monster is gone. */
    method RecycleMonsterUID(aUID: nat)
      requires Partition(Abs()) && aUID in live
      modifies this
      ensures Partition(Abs()) && Abs() == Recycled(old(Abs()), aUID)
    {
      RecycleKeepsPartition(Abs(), aUID);
      mRecycledMonsterUIDs := mRecycledMonsterUIDs + [aUID];
      live := live - {aUID};
    }
  }
}
