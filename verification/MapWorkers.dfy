/** The workers that load the map files: they take files off one list and fill two tables. */
module MapWorkers {
  import opened Basics
  import opened MapLoading

  /** A file to load and the map ids that use it. */
  datatype Item = Item(path: string, ids: seq<uint16>)

  /** What loading a file comes to: missing files and failed packing are ignored, any other error ends the worker. */
  datatype Outcome<D> = Good(content: D) | Ignored | Fatal

  /** The data loaded from one file. */
  datatype MapFile<D> = MapFile(path: string, content: D)

  datatype Tables<D> = Tables(mData: map<string, MapFile<D>>, mMaps: map<uint16, MapFile<D>>)

  /** The whole job: the files in the order of the work map's keys, each listed once, and what loading each comes to. */
  datatype Job<D> = Job(items: seq<Item>, load: string -> Outcome<D>) {
    ghost predicate Valid() {
      forall i, j :: 0 <= i < j < |items| ==> items[i].path != items[j].path
    }

    predicate IsGood(i: nat) {
      i < |items| && load(items[i].path).Good?
    }

    ghost predicate NoFatal() {
      forall i :: 0 <= i < |items| ==> !load(items[i].path).Fatal?
    }

    function File(i: nat): MapFile<D>
      requires IsGood(i)
    {
      MapFile(items[i].path, load(items[i].path).content)
    }

    /** No two files that can be loaded are listed for one map id. */
    ghost predicate NoSharing() {
      forall i: nat, j: nat, id :: IsGood(i) && IsGood(j) && i != j && id in items[i].ids ==> id !in items[j].ids
    }
  }

  // ---- publishing ----

  /** The two tables with one file more. */
  function Publish<D>(job: Job<D>, t: Tables<D>, i: nat): Tables<D>
    requires job.IsGood(i)
  {
    Tables(t.mData[job.items[i].path := job.File(i)], t.mMaps + map id | id in job.items[i].ids :: job.File(i))
  }

  ghost predicate AllGood<D>(job: Job<D>, published: seq<nat>) {
    forall k :: 0 <= k < |published| ==> job.IsGood(published[k])
  }

  /** The tables after files were published in some order. */
  function PublishAll<D>(job: Job<D>, published: seq<nat>): Tables<D>
    requires AllGood(job, published)
  {
    if published == [] then Tables(map[], map[])
    else Publish(job, PublishAll(job, published[..|published| - 1]), published[|published| - 1])
  }

  /** The files that can be loaded among the first ones, in order. */
  function GoodBelow<D>(job: Job<D>, n: nat): (r: seq<nat>)
    requires n <= |job.items|
    ensures AllGood(job, r)
  {
    if n == 0 then [] else GoodBelow(job, n - 1) + if job.IsGood(n - 1) then [n - 1] else []
  }

  /** What loading the files one after the other gives. */
  function Sequential<D>(job: Job<D>): Tables<D> {
    PublishAll(job, GoodBelow(job, |job.items|))
  }

  /** The last publication for a map id. */
  ghost predicate IsLast<D>(job: Job<D>, published: seq<nat>, id: uint16, k: nat)
    requires AllGood(job, published)
  {
    && k < |published| && id in job.items[published[k]].ids
    && forall l :: k < l < |published| ==> id !in job.items[published[l]].ids
  }

  /** A map id has the data of the last file published for it. */
  lemma {:induction false} LastWins<D>(job: Job<D>, published: seq<nat>, id: uint16, k: nat)
    requires AllGood(job, published) && IsLast(job, published, id, k)
    ensures id in PublishAll(job, published).mMaps && PublishAll(job, published).mMaps[id] == job.File(published[k])
  {
    var n := |published| - 1;
    if k < n {
      LastWins(job, published[..n], id, k);
    }
  }

  /** A map id with any data at all was published. */
  lemma {:induction false} SomeLast<D>(job: Job<D>, published: seq<nat>, id: uint16) returns (k: nat)
    requires AllGood(job, published) && id in PublishAll(job, published).mMaps
    ensures IsLast(job, published, id, k)
  {
    var n := |published| - 1;
    assert PublishAll(job, published) == Publish(job, PublishAll(job, published[..n]), published[n]);
    hide PublishAll;
    if id in job.items[published[n]].ids {
      k := n;
    } else {
      k := SomeLast(job, published[..n], id);
      assert IsLast(job, published[..n], id, k);
    }
  }

  lemma {:induction false} DataPublished<D>(job: Job<D>, published: seq<nat>, k: nat)
    requires job.Valid() && AllGood(job, published) && k < |published|
    ensures var path := job.items[published[k]].path;
            path in PublishAll(job, published).mData && PublishAll(job, published).mData[path] == job.File(published[k])
  {
    var n := |published| - 1;
    if k < n {
      DataPublished(job, published[..n], k);
      if job.items[published[n]].path == job.items[published[k]].path {
        assert published[n] == published[k];
      }
    }
  }

  lemma {:induction false} DataWasPublished<D>(job: Job<D>, published: seq<nat>, path: string) returns (k: nat)
    requires AllGood(job, published) && path in PublishAll(job, published).mData
    ensures k < |published| && job.items[published[k]].path == path
  {
    var n := |published| - 1;
    if path == job.items[published[n]].path {
      k := n;
    } else {
      k := DataWasPublished(job, published[..n], path);
    }
  }

  /** Without sharing, the order of publication does not matter. */
  lemma MapsAgree<D>(job: Job<D>, a: seq<nat>, b: seq<nat>, id: uint16)
    requires job.NoSharing() && AllGood(job, a) && AllGood(job, b) && forall i :: i in a ==> i in b
    requires id in PublishAll(job, a).mMaps
    ensures id in PublishAll(job, b).mMaps && PublishAll(job, b).mMaps[id] == PublishAll(job, a).mMaps[id]
  {
    var k := SomeLast(job, a, id);
    LastWins(job, a, id, k);
    var i := a[k];
    var l := LastOf(b, i);
    assert IsLast(job, b, id, l);
    LastWins(job, b, id, l);
  }

  lemma {:induction false} LastOf(b: seq<nat>, i: nat) returns (l: nat)
    requires i in b
    ensures l < |b| && b[l] == i && forall m :: l < m < |b| ==> b[m] != i
  {
    if b[|b| - 1] == i {
      l := |b| - 1;
    } else {
      l := LastOf(b[..|b| - 1], i);
    }
  }

  lemma DataAgree<D>(job: Job<D>, a: seq<nat>, b: seq<nat>, path: string)
    requires job.Valid() && AllGood(job, a) && AllGood(job, b) && forall i :: i in a ==> i in b
    requires path in PublishAll(job, a).mData
    ensures path in PublishAll(job, b).mData && PublishAll(job, b).mData[path] == PublishAll(job, a).mData[path]
  {
    var k := DataWasPublished(job, a, path);
    DataPublished(job, a, k);
    var l := LastOf(b, a[k]);
    DataPublished(job, b, l);
  }

  lemma OrderDoesNotMatter<D>(job: Job<D>, a: seq<nat>, b: seq<nat>)
    requires job.Valid() && job.NoSharing() && AllGood(job, a) && AllGood(job, b)
    requires forall i :: i in a <==> i in b
    ensures PublishAll(job, a) == PublishAll(job, b)
  {
    hide PublishAll, Job.NoSharing;
    var s, t := PublishAll(job, a), PublishAll(job, b);
    forall id | id in s.mMaps ensures id in t.mMaps && t.mMaps[id] == s.mMaps[id] { MapsAgree(job, a, b, id); }
    forall id | id in t.mMaps ensures id in s.mMaps { MapsAgree(job, b, a, id); }
    forall path | path in s.mData ensures path in t.mData && t.mData[path] == s.mData[path] { DataAgree(job, a, b, path); }
    forall path | path in t.mData ensures path in s.mData { DataAgree(job, b, a, path); }
    assert s.mMaps == t.mMaps && s.mData == t.mData;
  }

  /** The loop under the data mutex, over the ids of one file. */
  method PublishIds<D>(mMaps: map<uint16, MapFile<D>>, mapIds: seq<uint16>, data: MapFile<D>) returns (r: map<uint16, MapFile<D>>)
    ensures r == mMaps + map id | id in mapIds :: data
  {
    r := mMaps;
    for i := 0 to |mapIds|
      invariant r == mMaps + map id | id in mapIds[..i] :: data
    {
      r := r[mapIds[i] := data];
      assert mapIds[..i + 1] == mapIds[..i] + [mapIds[i]];
    }
    assert mapIds[..|mapIds|] == mapIds;
  }

  // ---- the workers ----

  /** A worker between two files, with a file it took, with one it loaded, or at its end. */
  datatype Worker = Idle | Loading(i: nat) | Loaded(i: nat) | Ended(fatal: bool)

  /**
    * The files not yet taken are those from next on; taker says who took each other file; finished files are
    * published, ignored, or ended their worker.
    */
  datatype State<D> = State(
    next: nat,
    workers: seq<Worker>,
    taker: seq<nat>,
    finished: set<nat>,
    published: seq<nat>,
    tables: Tables<D>)

  datatype Step = Take(w: nat) | Load(w: nat) | Finish(w: nat)

  function Start<D>(workers: nat): State<D> {
    State(0, seq(workers, _ => Idle), [], {}, [], Tables(map[], map[]))
  }

  /** Under the work mutex: the first file, or the end when there is none. */
  function TakeStep<D>(job: Job<D>, s: State<D>, w: nat): State<D>
    requires w < |s.workers|
  {
    if s.workers[w] != Idle then s
    else if s.next >= |job.items| then s.(workers := s.workers[w := Ended(false)])
    else s.(workers := s.workers[w := Loading(s.next)], taker := s.taker + [w], next := s.next + 1)
  }

  /** Without any mutex. */
  function LoadStep<D>(job: Job<D>, s: State<D>, w: nat): State<D>
    requires w < |s.workers|
  {
    if !s.workers[w].Loading? then s
    else
      var i := s.workers[w].i;
      if i >= |job.items| then s
      else
        match job.load(job.items[i].path)
        case Good(_) => s.(workers := s.workers[w := Loaded(i)])
        case Ignored => s.(workers := s.workers[w := Idle], finished := s.finished + {i})
        case Fatal => s.(workers := s.workers[w := Ended(true)], finished := s.finished + {i})
  }

  /** Under the data mutex: both tables at once. */
  function FinishStep<D>(job: Job<D>, s: State<D>, w: nat): State<D>
    requires w < |s.workers|
  {
    if !s.workers[w].Loaded? || !job.IsGood(s.workers[w].i) then s
    else
      var i := s.workers[w].i;
      s.(workers := s.workers[w := Idle], finished := s.finished + {i},
         published := s.published + [i], tables := Publish(job, s.tables, i))
  }

  /** A step of a worker that is elsewhere, or does not exist, is no step. */
  function Next<D>(job: Job<D>, s: State<D>, step: Step): State<D> {
    if step.w >= |s.workers| then s
    else
      match step
      case Take(w) => TakeStep(job, s, w)
      case Load(w) => LoadStep(job, s, w)
      case Finish(w) => FinishStep(job, s, w)
  }

  function Run<D>(job: Job<D>, s: State<D>, steps: seq<Step>): State<D> {
    if steps == [] then s else Next(job, Run(job, s, steps[..|steps| - 1]), steps[|steps| - 1])
  }

  predicate Holds(w: Worker, i: nat) {
    (w.Loading? || w.Loaded?) && w.i == i
  }

  /** Each file is either not taken, or finished, or with one worker, the one that took it. */
  ghost predicate Partition<D>(s: State<D>) {
    && |s.taker| == s.next
    && (forall i :: i in s.finished ==> i < s.next)
    && (forall w :: 0 <= w < |s.workers| && (s.workers[w].Loading? || s.workers[w].Loaded?) ==>
                      var i := s.workers[w].i; i < s.next && i !in s.finished && s.taker[i] == w)
    && (forall i :: 0 <= i < s.next && i !in s.finished ==> s.taker[i] < |s.workers| && Holds(s.workers[s.taker[i]], i))
  }

  /** What was published are the finished files that could be loaded, each once, and the tables show just that. */
  ghost predicate Published<D>(job: Job<D>, s: State<D>) {
    && s.next <= |job.items|
    && AllGood(job, s.published)
    && s.tables == PublishAll(job, s.published)
    && (forall i :: i in s.published ==> i in s.finished)
    && (forall i :: i in s.finished && job.IsGood(i) ==> i in s.published)
    && (forall k, l :: 0 <= k < l < |s.published| ==> s.published[k] != s.published[l])
    && (forall w :: 0 <= w < |s.workers| ==>
                      && (s.workers[w].Loaded? ==> job.IsGood(s.workers[w].i))
                      && (s.workers[w] == Ended(false) ==> s.next == |job.items|))
  }

  lemma TakeKeepsPartition<D>(job: Job<D>, s: State<D>, w: nat)
    requires Partition(s) && w < |s.workers|
    ensures Partition(TakeStep(job, s, w))
  {
  }

  lemma LoadKeepsPartition<D>(job: Job<D>, s: State<D>, w: nat)
    requires Partition(s) && w < |s.workers|
    ensures Partition(LoadStep(job, s, w))
  {
  }

  lemma FinishKeepsPartition<D>(job: Job<D>, s: State<D>, w: nat)
    requires Partition(s) && w < |s.workers|
    ensures Partition(FinishStep(job, s, w))
  {
    hide Publish;
  }

  lemma StepKeepsPartition<D>(job: Job<D>, s: State<D>, step: Step)
    requires Partition(s)
    ensures Partition(Next(job, s, step))
  {
    hide Partition, TakeStep, LoadStep, FinishStep;
    if step.w < |s.workers| {
      match step
      case Take(w) => TakeKeepsPartition(job, s, w);
      case Load(w) => LoadKeepsPartition(job, s, w);
      case Finish(w) => FinishKeepsPartition(job, s, w);
    }
  }

  lemma TakeKeepsPublished<D>(job: Job<D>, s: State<D>, w: nat)
    requires Partition(s) && Published(job, s) && w < |s.workers|
    ensures Published(job, TakeStep(job, s, w))
  {
    hide PublishAll;
  }

  lemma LoadKeepsPublished<D>(job: Job<D>, s: State<D>, w: nat)
    requires Partition(s) && Published(job, s) && w < |s.workers|
    ensures Published(job, LoadStep(job, s, w))
  {
    hide PublishAll;
  }

  lemma PublishedOneMore<D>(job: Job<D>, published: seq<nat>, i: nat)
    requires AllGood(job, published) && job.IsGood(i)
    ensures AllGood(job, published + [i])
    ensures PublishAll(job, published + [i]) == Publish(job, PublishAll(job, published), i)
  {
    assert (published + [i])[..|published|] == published;
  }

  lemma FinishKeepsPublished<D>(job: Job<D>, s: State<D>, w: nat)
    requires Partition(s) && Published(job, s) && w < |s.workers|
    ensures Published(job, FinishStep(job, s, w))
  {
    hide PublishAll, Publish;
    if s.workers[w].Loaded? && job.IsGood(s.workers[w].i) {
      PublishedOneMore(job, s.published, s.workers[w].i);
    }
  }

  lemma StepKeepsPublished<D>(job: Job<D>, s: State<D>, step: Step)
    requires Partition(s) && Published(job, s)
    ensures Published(job, Next(job, s, step))
  {
    hide Partition, Published, TakeStep, LoadStep, FinishStep;
    if step.w < |s.workers| {
      match step
      case Take(w) => TakeKeepsPublished(job, s, w);
      case Load(w) => LoadKeepsPublished(job, s, w);
      case Finish(w) => FinishKeepsPublished(job, s, w);
    }
  }

  lemma StartIsPartition<D>(job: Job<D>, n: nat)
    ensures var s: State<D> := Start(n); Partition(s) && Published(job, s) && |s.workers| == n
  {
  }

  lemma StepKeepsWorkers<D>(job: Job<D>, s: State<D>, step: Step)
    ensures |Next(job, s, step).workers| == |s.workers|
  {
  }

  /** In every state of every run, with any number of workers. */
  lemma {:induction false} EveryRun<D>(job: Job<D>, n: nat, steps: seq<Step>)
    ensures var s := Run(job, Start(n), steps);
            Partition(s) && Published(job, s) && |s.workers| == n
  {
    hide Next, Start, Partition, Published;
    if steps == [] {
      StartIsPartition(job, n);
    } else {
      EveryRun(job, n, steps[..|steps| - 1]);
      StepKeepsWorkers(job, Run(job, Start(n), steps[..|steps| - 1]), steps[|steps| - 1]);
      StepKeepsPartition(job, Run(job, Start(n), steps[..|steps| - 1]), steps[|steps| - 1]);
      StepKeepsPublished(job, Run(job, Start(n), steps[..|steps| - 1]), steps[|steps| - 1]);
    }
  }

  /** All workers ended, none of them with an error. */
  predicate Complete<D>(s: State<D>) {
    |s.workers| > 0 && forall w :: 0 <= w < |s.workers| ==> s.workers[w] == Ended(false)
  }

  lemma {:induction false} InGoodBelow<D>(job: Job<D>, n: nat, i: nat)
    requires n <= |job.items|
    ensures i in GoodBelow(job, n) <==> i < n && job.IsGood(i)
  {
    if n > 0 {
      InGoodBelow(job, n - 1, i);
    }
  }

  /** A complete run has finished every file and published every one that could be loaded. */
  lemma CompletePublishesAll<D>(job: Job<D>, n: nat, steps: seq<Step>, i: nat)
    requires Complete(Run(job, Start(n), steps))
    ensures var s := Run(job, Start(n), steps);
            && (i in s.finished <==> i < |job.items|)
            && (i in s.published <==> job.IsGood(i))
            && AllGood(job, s.published) && s.tables == PublishAll(job, s.published)
  {
    EveryRun(job, n, steps);
    var s := Run(job, Start(n), steps);
    assert s.workers[0] == Ended(false);
    assert forall w :: 0 <= w < |s.workers| ==> !Holds(s.workers[w], i);
  }

  /** A file that failed fatally has ended the worker that took it. */
  ghost predicate FatalEnds<D>(job: Job<D>, s: State<D>) {
    forall i: nat :: i in s.finished && i < |job.items| && i < |s.taker| && job.load(job.items[i].path).Fatal? ==>
                       s.taker[i] < |s.workers| && s.workers[s.taker[i]] == Ended(true)
  }

  lemma StepKeepsFatalEnds<D>(job: Job<D>, s: State<D>, step: Step)
    requires Partition(s) && FatalEnds(job, s)
    ensures FatalEnds(job, Next(job, s, step))
  {
    hide Publish;
  }

  lemma {:induction false} EveryRunFatalEnds<D>(job: Job<D>, n: nat, steps: seq<Step>)
    ensures FatalEnds(job, Run(job, Start(n), steps))
  {
    hide Next, Partition, Published;
    if steps == [] {
    } else {
      hide FatalEnds;
      EveryRunFatalEnds(job, n, steps[..|steps| - 1]);
      EveryRun(job, n, steps[..|steps| - 1]);
      StepKeepsFatalEnds(job, Run(job, Start(n), steps[..|steps| - 1]), steps[|steps| - 1]);
    }
  }

  /** With a file whose loading fails fatally no run is complete: the worker that takes it ends with the error. */
  lemma CompleteHasNoFatal<D>(job: Job<D>, n: nat, steps: seq<Step>)
    requires Complete(Run(job, Start(n), steps))
    ensures job.NoFatal()
  {
    EveryRunFatalEnds(job, n, steps);
    EveryRun(job, n, steps);
    forall i | 0 <= i < |job.items|
      ensures !job.load(job.items[i].path).Fatal?
    {
      CompletePublishesAll(job, n, steps, i);
    }
  }

  /** Parallel loading refines sequential loading: any number of workers, in any interleaving, fill the same tables. */
  lemma ParallelIsSequential<D>(job: Job<D>, n: nat, steps: seq<Step>)
    requires job.Valid() && job.NoSharing() && Complete(Run(job, Start(n), steps))
    ensures Run(job, Start(n), steps).tables == Sequential(job)
  {
    var s := Run(job, Start(n), steps);
    EveryRun(job, n, steps);
    forall i: nat
      ensures i in s.published <==> i in GoodBelow(job, |job.items|)
    {
      CompletePublishesAll(job, n, steps, i);
      InGoodBelow(job, |job.items|, i);
    }
    OrderDoesNotMatter(job, s.published, GoodBelow(job, |job.items|));
  }

  /** So each map id has the data of a file it was listed for. */
  lemma IdsHaveTheirFile<D>(job: Job<D>, n: nat, steps: seq<Step>, id: uint16)
    requires Complete(Run(job, Start(n), steps))
    ensures var maps := Run(job, Start(n), steps).tables.mMaps;
            && (id in maps <==> exists i: nat :: job.IsGood(i) && id in job.items[i].ids)
            && (id in maps ==> exists i: nat :: job.IsGood(i) && id in job.items[i].ids && maps[id] == job.File(i))
  {
    var s := Run(job, Start(n), steps);
    EveryRun(job, n, steps);
    if id in s.tables.mMaps {
      var k := SomeLast(job, s.published, id);
      LastWins(job, s.published, id, k);
      assert job.IsGood(s.published[k]);
    }
    if i: nat :| job.IsGood(i) && id in job.items[i].ids {
      CompletePublishesAll(job, n, steps, i);
      var k := LastForId(job, s.published, i, id);
      LastWins(job, s.published, id, k);
    }
  }

  lemma {:induction false} LastForId<D>(job: Job<D>, published: seq<nat>, i: nat, id: uint16) returns (k: nat)
    requires AllGood(job, published) && i in published && job.IsGood(i) && id in job.items[i].ids
    ensures IsLast(job, published, id, k)
  {
    var n := |published| - 1;
    if id in job.items[published[n]].ids {
      k := n;
    } else {
      k := LastForId(job, published[..n], i, id);
    }
  }

  // ---- one worker, and two ----

  lemma {:induction false} RunAppend<D>(job: Job<D>, s: State<D>, a: seq<Step>, b: seq<Step>)
    ensures Run(job, s, a + b) == Run(job, Run(job, s, a), b)
  {
    if b == [] {
      assert a + b == a;
    } else {
      RunAppend(job, s, a, b[..|b| - 1]);
      assert (a + b)[..|a + b| - 1] == a + b[..|b| - 1];
    }
  }

  /** What one worker has published: the good files before the one it holds. */
  ghost predicate InOrder<D>(job: Job<D>, s: State<D>) {
    && s.next <= |job.items|
    && |s.workers| == 1
    && match s.workers[0]
       case Loading(i) => i + 1 == s.next && s.published == GoodBelow(job, i)
       case Loaded(i) => i + 1 == s.next && job.IsGood(i) && s.published == GoodBelow(job, i)
       case Idle => s.published == GoodBelow(job, s.next)
       case Ended(fatal) => !fatal ==> s.next == |job.items| && s.published == GoodBelow(job, s.next)
  }

  lemma {:induction false} OneWorkerInOrder<D>(job: Job<D>, steps: seq<Step>)
    ensures InOrder(job, Run(job, Start(1), steps))
  {
    if steps == [] {
    } else {
      OneWorkerInOrder(job, steps[..|steps| - 1]);
    }
  }

  /** A single worker is sequential, whatever the files share. */
  lemma OneWorkerIsSequential<D>(job: Job<D>, steps: seq<Step>)
    requires Complete(Run(job, Start(1), steps))
    ensures Run(job, Start(1), steps).tables == Sequential(job)
  {
    OneWorkerInOrder(job, steps);
    EveryRun(job, 1, steps);
  }

  /** One worker takes, loads and publishes the next files, some number of them. */
  function Work(w: nat, files: nat): seq<Step> {
    if files == 0 then [] else Work(w, files - 1) + [Take(w), Load(w), Finish(w)]
  }

  lemma OneFile<D>(job: Job<D>, s: State<D>, w: nat)
    requires job.NoFatal() && w < |s.workers| && s.workers[w] == Idle && s.next < |job.items|
    ensures var s' := Run(job, s, [Take(w), Load(w), Finish(w)]);
            && s'.next == s.next + 1 && s'.workers == s.workers
            && s'.published == s.published + if job.IsGood(s.next) then [s.next] else []
  {
    var a, b, c := Take(w), Load(w), Finish(w);
    assert [a, b, c][..2] == [a, b] && [a, b][..1] == [a] && [a][..0] == [];
    var s1 := Next(job, s, a);
    var s2 := Next(job, s1, b);
    var s3 := Next(job, s2, c);
    assert Run(job, s, [a]) == s1 by { assert Run(job, s, []) == s; }
    assert Run(job, s, [a, b]) == s2;
    assert Run(job, s, [a, b, c]) == s3;
    assert s3.workers == s.workers;
  }

  /** The good files of a stretch, in order. */
  function GoodFrom<D>(job: Job<D>, m: nat, files: nat): seq<nat> {
    if files == 0 then [] else GoodFrom(job, m, files - 1) + if job.IsGood(m + files - 1) then [m + files - 1] else []
  }

  lemma {:induction false} Works<D>(job: Job<D>, s: State<D>, w: nat, files: nat)
    requires job.NoFatal() && w < |s.workers| && s.workers[w] == Idle && s.next + files <= |job.items|
    ensures var s' := Run(job, s, Work(w, files));
            && s'.next == s.next + files && s'.workers == s.workers
            && s'.published == s.published + GoodFrom(job, s.next, files)
  {
    hide Next;
    if files == 0 {
    } else {
      Works(job, s, w, files - 1);
      RunAppend(job, s, Work(w, files - 1), [Take(w), Load(w), Finish(w)]);
      OneFile(job, Run(job, s, Work(w, files - 1)), w);
    }
  }

  /** All workers find no work left. */
  function EndAll(n: nat): seq<Step> {
    if n == 0 then [] else EndAll(n - 1) + [Take(n - 1)]
  }

  lemma {:induction false} Ends<D>(job: Job<D>, s: State<D>, n: nat)
    requires n <= |s.workers| && s.next == |job.items| && forall w :: 0 <= w < |s.workers| ==> s.workers[w] == Idle
    ensures var s' := Run(job, s, EndAll(n));
            && s'.published == s.published && s'.next == s.next && |s'.workers| == |s.workers|
            && forall w :: 0 <= w < |s.workers| ==> s'.workers[w] == if w < n then Ended(false) else Idle
  {
    if n > 0 {
      Ends(job, s, n - 1);
      assert EndAll(n)[..|EndAll(n)| - 1] == EndAll(n - 1);
    }
  }

  lemma SequentialStep<D>(job: Job<D>, n: nat)
    requires n < |job.items|
    ensures PublishAll(job, GoodBelow(job, n + 1))
            == if job.IsGood(n) then Publish(job, PublishAll(job, GoodBelow(job, n)), n) else PublishAll(job, GoodBelow(job, n))
  {
    if job.IsGood(n) {
      assert GoodBelow(job, n + 1)[..|GoodBelow(job, n + 1)| - 1] == GoodBelow(job, n);
    } else {
      assert GoodBelow(job, n + 1) == GoodBelow(job, n);
    }
  }

  /** Sequentially, a shared map id does not end up with the earlier file. */
  lemma {:induction false} LaterFileWins<D>(job: Job<D>, n: nat, a: nat, b: nat, id: uint16)
    requires job.Valid() && n <= |job.items| && a < b < n && job.IsGood(a) && job.IsGood(b) && id in job.items[b].ids
    ensures var t := PublishAll(job, GoodBelow(job, n)); id in t.mMaps && t.mMaps[id] != job.File(a)
  {
    hide PublishAll, GoodBelow;
    var last := n - 1;
    SequentialStep(job, last);
    assert job.items[a].path != job.items[last].path;
    hide Job.Valid;
    if b < last {
      LaterFileWins(job, last, a, b, id);
    }
  }

  /** The second worker does everything but one file, which the first takes in its turn and publishes last. */
  function Overtaking<D>(job: Job<D>, n: nat, a: nat): seq<Step>
    requires a < |job.items|
  {
    Work(1, a) + [Take(0)] + Work(1, |job.items| - a - 1) + [Load(0)] + [Finish(0)] + EndAll(n)
  }

  /** The turn of the one file, around a stretch in which others work. */
  lemma OneFileAround<D>(job: Job<D>, s: State<D>, files: nat)
    requires job.NoFatal() && |s.workers| >= 2 && s.workers[0] == Idle && s.workers[1] == Idle
    requires job.IsGood(s.next) && s.next + 1 + files == |job.items|
    ensures var s' := Next(job, Next(job, Run(job, Next(job, s, Take(0)), Work(1, files)), Load(0)), Finish(0));
            && s'.next == |job.items| && s'.workers == s.workers
            && s'.published == s.published + GoodFrom(job, s.next + 1, files) + [s.next]
  {
    hide Run, Work, GoodFrom, Publish;
    Works(job, Next(job, s, Take(0)), 1, files);
  }

  lemma Overtaken<D>(job: Job<D>, n: nat, a: nat)
    requires job.NoFatal() && n >= 2 && job.IsGood(a)
    ensures var s := Run(job, Start(n), Overtaking(job, n, a));
            Complete(s) && s.published == GoodFrom(job, 0, a) + GoodFrom(job, a + 1, |job.items| - a - 1) + [a]
  {
    hide Run, Work, GoodFrom, EndAll, Next;
    var s0: State<D> := Start(n);
    var rest := |job.items| - a - 1;
    Works(job, s0, 1, a);
    var s1 := Run(job, s0, Work(1, a));
    RunOne(job, s0, Work(1, a), Take(0));
    RunAppend(job, s0, Work(1, a) + [Take(0)], Work(1, rest));
    RunOne(job, s0, Work(1, a) + [Take(0)] + Work(1, rest), Load(0));
    RunOne(job, s0, Work(1, a) + [Take(0)] + Work(1, rest) + [Load(0)], Finish(0));
    OneFileAround(job, s1, rest);
    var s5 := Run(job, s0, Work(1, a) + [Take(0)] + Work(1, rest) + [Load(0)] + [Finish(0)]);
    Ends(job, s5, n);
    RunAppend(job, s0, Work(1, a) + [Take(0)] + Work(1, rest) + [Load(0)] + [Finish(0)], EndAll(n));
  }

  lemma RunOne<D>(job: Job<D>, s: State<D>, steps: seq<Step>, step: Step)
    ensures Run(job, s, steps + [step]) == Next(job, Run(job, s, steps), step)
  {
    assert (steps + [step])[..|steps|] == steps;
  }

  /** With two workers and a shared map id, there is a run that ends well and fills the tables differently. */
  lemma SharingDiverges<D>(job: Job<D>, n: nat, a: nat, b: nat, id: uint16)
    requires job.Valid() && job.NoFatal() && n >= 2 && a < b && job.IsGood(a) && job.IsGood(b)
    requires id in job.items[a].ids && id in job.items[b].ids
    ensures var s := Run(job, Start(n), Overtaking(job, n, a)); Complete(s) && s.tables != Sequential(job)
  {
    Overtaken(job, n, a);
    var s := Run(job, Start(n), Overtaking(job, n, a));
    EveryRun(job, n, Overtaking(job, n, a));
    assert IsLast(job, s.published, id, |s.published| - 1);
    LastWins(job, s.published, id, |s.published| - 1);
    LaterFileWins(job, |job.items|, a, b, id);
  }

  /** Where no file fails fatally some run is complete, with any number of workers. */
  lemma SomeRunCompletes<D>(job: Job<D>, n: nat) returns (steps: seq<Step>)
    requires job.NoFatal() && n >= 1
    ensures Complete(Run(job, Start(n), steps))
  {
    hide Next;
    var files := |job.items|;
    steps := Work(0, files) + EndAll(n);
    Works(job, Start(n), 0, files);
    RunAppend(job, Start(n), Work(0, files), EndAll(n));
    Ends(job, Run(job, Start(n), Work(0, files)), n);
  }

  /** With a shared map id some complete run is not sequential. */
  lemma SomeRunDiverges<D>(job: Job<D>, n: nat) returns (steps: seq<Step>)
    requires job.Valid() && job.NoFatal() && !job.NoSharing() && n >= 2
    ensures Complete(Run(job, Start(n), steps)) && Run(job, Start(n), steps).tables != Sequential(job)
  {
    var i: nat, j: nat, id :| job.IsGood(i) && job.IsGood(j) && i != j && id in job.items[i].ids && id in job.items[j].ids;
    var a, b := if i < j then i else j, if i < j then j else i;
    SharingDiverges(job, n, a, b, id);
    steps := Overtaking(job, n, a);
  }

  /**
    * Every complete run is sequential exactly for one worker, when no map id is shared, or when a file fails fatally,
    * so that no run is complete.
    */
  lemma ParallelIsSequentialIff<D>(job: Job<D>, n: nat)
    requires job.Valid() && n >= 1
    ensures (forall steps :: Complete(Run(job, Start(n), steps)) ==> Run(job, Start(n), steps).tables == Sequential(job))
            <==> n == 1 || job.NoSharing() || !job.NoFatal()
  {
    hide Run, Complete, Sequential, Job.Valid, Job.NoSharing, Job.NoFatal;
    if n == 1 || job.NoSharing() || !job.NoFatal() {
      forall steps | Complete(Run(job, Start(n), steps))
        ensures Run(job, Start(n), steps).tables == Sequential(job)
      {
        CompleteHasNoFatal(job, n, steps);
        if n == 1 {
          OneWorkerIsSequential(job, steps);
        } else {
          ParallelIsSequential(job, n, steps);
        }
      }
    } else {
      var steps := SomeRunDiverges(job, n);
    }
  }

  // ---- back to the map list ----

  /** The items are the entries of the work map. */
  ghost predicate Lists(items: seq<Item>, maps: map<string, seq<uint16>>) {
    && (forall i :: 0 <= i < |items| ==> items[i].path in maps && items[i].ids == maps[items[i].path])
    && (forall path :: path in maps ==> exists i :: 0 <= i < |items| && items[i].path == path)
  }

  /** A section gives a file to a map id. */
  predicate Gives(s: Section, path: string, id: uint16) {
    s.id.Some? && s.file == path && path != "N/A" && Wrap16(s.id.value) == id
  }

  /** No two sections give files that can both be loaded to one map id, unless it is the same file. */
  ghost predicate NoClash<D>(sections: seq<Section>, load: string -> Outcome<D>) {
    forall s, t, p, q, id :: s in sections && t in sections && Gives(s, p, id) && Gives(t, q, id) ==>
                               load(p).Good? && load(q).Good? ==> p == q
  }

  lemma {:induction false} IdsGiven(sections: seq<Section>, path: string, id: uint16)
    ensures id in IdsOf(sections, path) <==> exists s :: s in sections && Gives(s, path, id)
  {
    var n := |sections| - 1;
    if sections != [] {
      IdsGiven(sections[..n], path, id);
      assert sections == sections[..n] + [sections[n]];
      assert Gives(sections[n], path, id) || !Gives(sections[n], path, id);
    }
  }

  lemma ItemGiven<D>(job: Job<D>, sections: seq<Section>, maps: map<string, seq<uint16>>, i: nat, id: uint16)
    requires IsGrouping(maps, sections) && Lists(job.items, maps) && i < |job.items|
    ensures id in job.items[i].ids <==> exists s :: s in sections && Gives(s, job.items[i].path, id)
  {
    IdsGiven(sections, job.items[i].path, id);
  }

  lemma SectionListed<D>(job: Job<D>, sections: seq<Section>, maps: map<string, seq<uint16>>, s: Section, path: string, id: uint16)
    returns (i: nat)
    requires IsGrouping(maps, sections) && Lists(job.items, maps) && s in sections && Gives(s, path, id)
    ensures i < |job.items| && job.items[i].path == path && id in job.items[i].ids
  {
    IdsGiven(sections, path, id);
    i :| 0 <= i < |job.items| && job.items[i].path == path;
  }

  lemma SharingGivesClash<D>(job: Job<D>, sections: seq<Section>, maps: map<string, seq<uint16>>)
    requires job.Valid() && IsGrouping(maps, sections) && Lists(job.items, maps) && NoClash(sections, job.load)
    ensures job.NoSharing()
  {
    hide IsGrouping, Lists, Gives;
    forall i: nat, j: nat, id | job.IsGood(i) && job.IsGood(j) && i != j && id in job.items[i].ids
      ensures id !in job.items[j].ids
    {
      ItemGiven(job, sections, maps, i, id);
      ItemGiven(job, sections, maps, j, id);
      assert job.items[i].path != job.items[j].path;
    }
  }

  lemma ClashGivesSharing<D>(job: Job<D>, sections: seq<Section>, maps: map<string, seq<uint16>>)
    requires IsGrouping(maps, sections) && Lists(job.items, maps) && job.NoSharing()
    ensures NoClash(sections, job.load)
  {
    hide IsGrouping, Lists, Gives;
    forall s, t, p, q, id | s in sections && t in sections && Gives(s, p, id) && Gives(t, q, id)
      ensures job.load(p).Good? && job.load(q).Good? ==> p == q
    {
      var i := SectionListed(job, sections, maps, s, p, id);
      var j := SectionListed(job, sections, maps, t, q, id);
      assert job.load(p).Good? && job.load(q).Good? ==> job.IsGood(i) && job.IsGood(j);
    }
  }

  /** What the loading needs can be read off the map list: there is no other check for it. */
  lemma SharingIsInTheList<D>(job: Job<D>, sections: seq<Section>, maps: map<string, seq<uint16>>)
    requires job.Valid() && IsGrouping(maps, sections) && Lists(job.items, maps)
    ensures job.NoSharing() <==> NoClash(sections, job.load)
  {
    hide IsGrouping, Lists, Job.NoSharing, NoClash;
    if job.NoSharing() {
      ClashGivesSharing(job, sections, maps);
    }
    if NoClash(sections, job.load) {
      SharingGivesClash(job, sections, maps);
    }
  }
}
