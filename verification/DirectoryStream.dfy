/**
 The directory look-ahead stream.

 Workers read directories ahead of the archiver's traversal goroutine, which is the only
 caller of `Names`.  Results wait in the `pending` map until they are consumed, evicted or
 drained by `Close`; with a memory policy every retained listing holds a lease on the budget.
 The stream is a transition system: workers, consumer, the policy's evictor, a cancelling
 parent and `Close` interleave at the granularity of the mutex's critical sections and the
 channel operations.
 */
module DirectoryStream {
  import opened Wrappers

  type Path = string

  /** A look-ahead result; `released` is the `sync.Once` of its release function. */
  datatype Result = Result(done: bool, lease: Option<nat>, released: bool)

  datatype Worker =
    | Idle
    | Received(path: Path)
    | Working(path: Path, r: nat, lease: Option<nat>)
    | Stored(path: Path, r: nat)
    | Dropped(r: nat)
    | Stopped

  /** What `Names` still has to release when it returns. */
  datatype Source = FromResult(r: nat) | Direct(lease: Option<nat>) | Nothing

  datatype Consumer =
    | Away
    | Called(path: Path)
    | Waiting(path: Path, r: nat)
    | Reading(path: Path, lease: Option<nat>)
    | Owning(source: Source)
    | Enqueuing(source: Source, copy: Option<nat>, dirs: seq<Path>)
    | Exiting(source: Source, copy: Option<nat>)

  datatype Closer = Open | Cancelled | Waited | MetadataDone | Drained | Closed

  /** The shared look-ahead: queued jobs, pending results by directory, and the workers. */
  datatype Lookahead = Lookahead(
    capacity: nat,
    queue: seq<Path>,
    pending: map<Path, nat>,
    results: seq<Result>,
    workers: seq<Worker>)

  /** Who is responsible for releasing a lease. */
  datatype Owner = QueueOwner | MetadataOwner | ResultOwner(r: nat) | WorkerOwner(w: nat) | SourceOwner | CopyOwner

  /** The budget: leases handed out so far, and those not yet released with their owners. */
  datatype Budget = Budget(issued: nat, live: map<nat, Owner>, releasedTwice: bool)

  datatype Stream = Stream(
    policy: bool,
    cancelled: bool,
    a: Lookahead,
    consumer: Consumer,
    closer: Closer,
    queueLease: Option<nat>,
    metadataLease: Option<nat>,
    budget: Budget)

  /** A new stream: the queue and the metadata cache are charged first. */
  function New(policy: bool, capacity: nat, workers: nat): Stream {
    var a := Lookahead(capacity, [], map[], [], seq(workers, _ => Idle));
    if policy
    then Stream(true, false, a, Away, Open, Some(0), Some(1), Budget(2, map[0 := QueueOwner, 1 := MetadataOwner], false))
    else Stream(false, false, a, Away, Open, None, None, Budget(0, map[], false))
  }

  // ---------------------------------------------------------------------------------------
  // Leases
  // ---------------------------------------------------------------------------------------

  function Acquire(b: Budget, o: Owner): Budget {
    b.(issued := b.issued + 1, live := b.live[b.issued := o])
  }

  function Release(b: Budget, lease: Option<nat>): Budget {
    if lease.None? then b
    else if lease.value in b.live then b.(live := b.live - {lease.value})
    else b.(releasedTwice := true)
  }

  function Transfer(b: Budget, lease: Option<nat>, o: Owner): Budget {
    if lease.Some? && lease.value in b.live then b.(live := b.live[lease.value := o]) else b
  }

  /** A second release of a lease is always noticed, and never forgotten. */
  lemma SecondReleaseSeen(b: Budget, lease: nat, other: Option<nat>, o: Owner)
    ensures Release(Release(b, Some(lease)), Some(lease)).releasedTwice
    ensures b.releasedTwice ==> Release(b, other).releasedTwice && Acquire(b, o).releasedTwice && Transfer(b, other, o).releasedTwice
  {
    var b' := Release(b, Some(lease));
    assert lease !in b'.live;
  }

  /** What `releaseWorking` releases: the result's lease on the first call, nothing later. */
  function Due(result: Result): Option<nat> {
    if result.released then None else result.lease
  }

  // ---------------------------------------------------------------------------------------
  // Changes of the look-ahead
  // ---------------------------------------------------------------------------------------

  predicate IsDone(a: Lookahead, path: Path) {
    path in a.pending && a.pending[path] < |a.results| && a.results[a.pending[path]].done
  }

  function SetWorker(a: Lookahead, w: nat, worker: Worker): Lookahead
    requires w < |a.workers|
  {
    a.(workers := a.workers[w := worker])
  }

  function SetResult(a: Lookahead, r: nat, result: Result): Lookahead
    requires r < |a.results|
  {
    a.(results := a.results[r := result])
  }

  function Forget(a: Lookahead, path: Path): Lookahead {
    a.(pending := a.pending - {path})
  }

  function Receive(a: Lookahead, w: nat): Lookahead
    requires w < |a.workers| && a.queue != []
  {
    SetWorker(a, w, Received(a.queue[0])).(queue := a.queue[1..])
  }

  function Push(a: Lookahead, path: Path): Lookahead {
    a.(queue := a.queue + [path], pending := a.pending[path := |a.results|], results := a.results + [Result(false, None, false)])
  }

  function MarkReleased(a: Lookahead, r: nat): Lookahead
    requires r < |a.results|
  {
    SetResult(a, r, a.results[r].(released := true))
  }

  // ---------------------------------------------------------------------------------------
  // Steps
  // ---------------------------------------------------------------------------------------

  datatype Step =
    | WorkerReceive(w: nat)
    | WorkerStop(w: nat)
    | WorkerLookup(w: nat)
    | WorkerReserve(w: nat)
    | WorkerStore(w: nat, ok: bool)
    | WorkerDrop(w: nat)
    | WorkerPublish(w: nat)
    | NamesEnter(path: Path)
    | NamesLookup
    | NamesTakeResult
    | NamesGiveUpWaiting
    | NamesReserve
    | NamesRead(ok: bool)
    | NamesCopy(ok: bool, dirs: seq<Path>)
    | NamesFail
    | NamesSkip
    | NamesEvict(path: Path)
    | NamesPush
    | NamesStopPushing
    | NamesReleaseCopy
    | NamesReturn
    | EvictMetadata
    | CancelParent
    | CloseCancel
    | CloseWait
    | CloseMetadata
    | CloseDrainOne(path: Path)
    | CloseDrainEnd
    | CloseQueue

  /** `Names` keeps the mutex while it queues the directories it has found. */
  predicate MutexFree(s: Stream) { !s.consumer.Enqueuing? }

  predicate Quiet(s: Stream) {
    s.consumer.Away? && forall w :: 0 <= w < |s.a.workers| ==> s.a.workers[w].Stopped?
  }

  predicate Enabled(s: Stream, step: Step) {
    var a := s.a;
    match step
    case WorkerReceive(w) => w < |a.workers| && a.workers[w].Idle? && a.queue != []
    case WorkerStop(w) => w < |a.workers| && a.workers[w].Idle? && s.cancelled
    case WorkerLookup(w) => w < |a.workers| && a.workers[w].Received? && MutexFree(s)
    case WorkerReserve(w) => w < |a.workers| && a.workers[w].Working? && a.workers[w].lease.None? && s.policy
    case WorkerStore(w, ok) => w < |a.workers| && a.workers[w].Working? && a.workers[w].r < |a.results|
    case WorkerDrop(w) => w < |a.workers| && a.workers[w].Stored? && !s.policy && MutexFree(s)
    case WorkerPublish(w) => w < |a.workers| && (a.workers[w].Stored? || a.workers[w].Dropped?) && a.workers[w].r < |a.results|
    case NamesEnter(path) => s.consumer.Away?
    case NamesLookup => s.consumer.Called?
    case NamesTakeResult => s.consumer.Waiting? && s.consumer.r < |a.results| && a.results[s.consumer.r].done
    case NamesGiveUpWaiting => s.consumer.Waiting? && s.cancelled
    case NamesReserve => s.consumer.Reading? && s.consumer.lease.None? && s.policy
    case NamesRead(ok) => s.consumer.Reading?
    case NamesCopy(ok, dirs) => s.consumer.Owning?
    case NamesFail => s.consumer.Owning?
    case NamesSkip => s.consumer.Enqueuing? && s.consumer.dirs != [] && s.consumer.dirs[0] in a.pending
    case NamesEvict(path) => s.consumer.Enqueuing? && |a.pending| >= a.capacity && IsDone(a, path)
    case NamesPush =>
      && s.consumer.Enqueuing? && s.consumer.dirs != [] && s.consumer.dirs[0] !in a.pending
      && |a.pending| < a.capacity && |a.queue| < a.capacity
    case NamesStopPushing => s.consumer.Enqueuing?
    case NamesReleaseCopy => s.consumer.Exiting? && s.consumer.copy.Some?
    case NamesReturn =>
      && s.consumer.Exiting? && s.consumer.copy.None?
      && (s.consumer.source.FromResult? ==> s.consumer.source.r < |a.results|)
    case EvictMetadata => MutexFree(s)
    case CancelParent => true
    case CloseCancel => s.closer.Open? && MutexFree(s)
    case CloseWait => s.closer.Cancelled? && Quiet(s)
    case CloseMetadata => s.closer.Waited? && MutexFree(s)
    case CloseDrainOne(path) => s.closer.MetadataDone? && path in a.pending && a.pending[path] < |a.results|
    case CloseDrainEnd => s.closer.MetadataDone? && a.pending == map[]
    case CloseQueue => s.closer.Drained?
  }

  function Apply(s: Stream, step: Step): Stream
    requires Enabled(s, step)
  {
    var a, b := s.a, s.budget;
    match step
    case WorkerReceive(w) => s.(a := Receive(a, w))
    case WorkerStop(w) => s.(a := SetWorker(a, w, Stopped))
    case WorkerLookup(w) =>
      var path := a.workers[w].path;
      s.(a := SetWorker(a, w, if path in a.pending then Working(path, a.pending[path], None) else Idle))
    case WorkerReserve(w) =>
      s.(a := SetWorker(a, w, a.workers[w].(lease := Some(b.issued))), budget := Acquire(b, WorkerOwner(w)))
    case WorkerStore(w, ok) =>
      var Working(path, r, lease) := a.workers[w];
      var a1 := SetWorker(a, w, Stored(path, r));
      if ok
      then s.(a := SetResult(a1, r, a.results[r].(lease := lease)), budget := Transfer(b, lease, ResultOwner(r)))
      else s.(a := a1, budget := Release(b, lease))
    case WorkerDrop(w) => s.(a := Drop(a, w))
    case WorkerPublish(w) =>
      var r := a.workers[w].r;
      s.(a := SetResult(SetWorker(a, w, Idle), r, a.results[r].(done := true)))
    case NamesEnter(path) => if s.cancelled then s else s.(consumer := Called(path))
    case NamesLookup =>
      var path := s.consumer.path;
      s.(consumer := if path in a.pending then Waiting(path, a.pending[path]) else Reading(path, None))
    case NamesTakeResult => s.(a := Forget(a, s.consumer.path), consumer := Owning(FromResult(s.consumer.r)))
    case NamesGiveUpWaiting => s.(consumer := Away)
    case NamesReserve => s.(consumer := s.consumer.(lease := Some(b.issued)), budget := Acquire(b, SourceOwner))
    case NamesRead(ok) =>
      if ok then s.(consumer := Owning(Direct(s.consumer.lease)))
      else s.(consumer := Exiting(Nothing, None), budget := Release(b, s.consumer.lease))
    case NamesCopy(ok, dirs) =>
      if !ok then s.(consumer := Exiting(s.consumer.source, None))
      else if s.policy
      then s.(consumer := Enqueuing(s.consumer.source, Some(b.issued), dirs), budget := Acquire(b, CopyOwner))
      else s.(consumer := Enqueuing(s.consumer.source, None, dirs))
    case NamesFail => s.(consumer := Exiting(s.consumer.source, None))
    case NamesSkip => s.(consumer := s.consumer.(dirs := s.consumer.dirs[1..]))
    case NamesEvict(path) =>
      var r := a.pending[path];
      s.(a := MarkReleased(Forget(a, path), r), budget := Release(b, Due(a.results[r])))
    case NamesPush =>
      s.(a := Push(a, s.consumer.dirs[0]), consumer := s.consumer.(dirs := s.consumer.dirs[1..]))
    case NamesStopPushing => s.(consumer := Exiting(s.consumer.source, s.consumer.copy))
    case NamesReleaseCopy => s.(consumer := s.consumer.(copy := None), budget := Release(b, s.consumer.copy))
    case NamesReturn =>
      (match s.consumer.source
       case FromResult(r) => s.(a := MarkReleased(a, r), consumer := Away, budget := Release(b, Due(a.results[r])))
       case Direct(lease) => s.(consumer := Away, budget := Release(b, lease))
       case Nothing => s.(consumer := Away))
    case EvictMetadata => s.(metadataLease := None, budget := Release(b, s.metadataLease))
    case CancelParent => s.(cancelled := true)
    case CloseCancel => s.(cancelled := true, closer := Cancelled)
    case CloseWait => s.(closer := Waited)
    case CloseMetadata => s.(metadataLease := None, closer := MetadataDone, budget := Release(b, s.metadataLease))
    case CloseDrainOne(path) =>
      var r := a.pending[path];
      s.(a := MarkReleased(Forget(a, path), r), budget := Release(b, Due(a.results[r])))
    case CloseDrainEnd => s.(closer := Drained)
    case CloseQueue => s.(queueLease := None, closer := Closed, budget := Release(b, s.queueLease))
  }

  /** The state after an interleaving, if every step of it could happen. */
  function After(start: Stream, steps: seq<Step>): Option<Stream> {
    if steps == [] then Some(start)
    else
      var s := After(start, steps[..|steps| - 1]);
      if s.Some? && Enabled(s.value, steps[|steps| - 1]) then Some(Apply(s.value, steps[|steps| - 1])) else None
  }

  // ---------------------------------------------------------------------------------------
  // Invariant of the look-ahead: one job for every unfinished result
  // ---------------------------------------------------------------------------------------

  function Carried(w: Worker): Option<Path> {
    match w
    case Received(path) => Some(path)
    case Working(path, _, _) => Some(path)
    case Stored(path, _) => Some(path)
    case _ => None
  }

  ghost predicate CarriedBySome(a: Lookahead, path: Path) {
    exists w :: 0 <= w < |a.workers| && Carried(a.workers[w]) == Some(path)
  }

  /** The directory is pending and its result has not been filled in. */
  ghost predicate Unread(a: Lookahead, path: Path) {
    path in a.pending && a.pending[path] < |a.results| && a.results[a.pending[path]] == Result(false, None, false)
  }

  ghost predicate WorkerFits(a: Lookahead, worker: Worker) {
    match worker
    case Received(path) => Unread(a, path)
    case Working(path, r, _) => Unread(a, path) && a.pending[path] == r
    case Stored(path, r) =>
      path in a.pending && a.pending[path] == r && r < |a.results| && !a.results[r].done && !a.results[r].released
    case Dropped(r) => r < |a.results| && forall p :: p in a.pending ==> a.pending[p] != r
    case _ => true
  }

  ghost predicate PendingFits(a: Lookahead) {
    && |a.pending| <= a.capacity
    && (forall p :: p in a.pending ==> a.pending[p] < |a.results|)
    && (forall p, q :: p in a.pending && q in a.pending && a.pending[p] == a.pending[q] ==> p == q)
  }

  /** No directory is queued twice, carried by two workers, or queued and carried. */
  ghost predicate JobsDistinct(a: Lookahead) {
    && (forall i, j :: 0 <= i < j < |a.queue| ==> a.queue[i] != a.queue[j])
    && (forall w :: 0 <= w < |a.workers| && Carried(a.workers[w]).Some? ==> Carried(a.workers[w]).value !in a.queue)
    && (forall v, w :: 0 <= v < w < |a.workers| && Carried(a.workers[v]).Some? ==> Carried(a.workers[v]) != Carried(a.workers[w]))
  }

  ghost predicate AllInFlight(a: Lookahead) {
    forall p :: p in a.pending && !IsDone(a, p) ==> p in a.queue || CarriedBySome(a, p)
  }

  ghost predicate LookaheadInv(a: Lookahead, draining: bool) {
    && PendingFits(a)
    && |a.queue| <= a.capacity
    && JobsDistinct(a)
    && AllInFlight(a)
    && (forall w :: 0 <= w < |a.workers| ==> WorkerFits(a, a.workers[w]))
    && (!draining ==> forall i :: 0 <= i < |a.queue| ==> Unread(a, a.queue[i]))
  }

  lemma CarriedKept(a: Lookahead, a': Lookahead, w: nat, path: Path)
    requires w < |a.workers| && |a'.workers| == |a.workers|
    requires forall v :: 0 <= v < |a.workers| && v != w ==> a'.workers[v] == a.workers[v]
    requires CarriedBySome(a, path)
    requires Carried(a.workers[w]) == Some(path) ==> Carried(a'.workers[w]) == Some(path)
    ensures CarriedBySome(a', path)
  {
    var v :| 0 <= v < |a.workers| && Carried(a.workers[v]) == Some(path);
    assert Carried(a'.workers[v]) == Some(path);
  }

  lemma ReceiveInFlight(a: Lookahead, w: nat)
    requires AllInFlight(a) && w < |a.workers| && a.workers[w].Idle? && a.queue != []
    ensures AllInFlight(Receive(a, w))
  {
    var a', path := Receive(a, w), a.queue[0];
    assert Carried(a'.workers[w]) == Some(path);
    forall p | p in a'.pending && !IsDone(a', p) ensures p in a'.queue || CarriedBySome(a', p) {
      if p in a.queue {
        var i :| 0 <= i < |a.queue| && a.queue[i] == p;
        if i > 0 { assert a'.queue[i - 1] == p; }
      } else {
        CarriedKept(a, a', w, p);
      }
    }
  }

  lemma ReceiveDistinct(a: Lookahead, w: nat)
    requires JobsDistinct(a) && w < |a.workers| && a.workers[w].Idle? && a.queue != []
    ensures JobsDistinct(Receive(a, w))
  {
    var a' := Receive(a, w);
    assert forall i :: 0 <= i < |a'.queue| ==> a'.queue[i] == a.queue[i + 1];
  }

  lemma ReceiveKeeps(a: Lookahead, w: nat)
    requires LookaheadInv(a, false) && w < |a.workers| && a.workers[w].Idle? && a.queue != []
    ensures LookaheadInv(Receive(a, w), false)
  {
    var a' := Receive(a, w);
    assert Unread(a, a.queue[0]);
    ReceiveInFlight(a, w);
    ReceiveDistinct(a, w);
    forall v | 0 <= v < |a'.workers| ensures WorkerFits(a', a'.workers[v]) {
      assert WorkerFits(a, a.workers[v]);
    }
    forall i | 0 <= i < |a'.queue| ensures Unread(a', a'.queue[i]) {
      assert Unread(a, a.queue[i + 1]);
    }
  }

  /** A worker that moves on with the same directory, or goes from idle to stopped. */
  lemma SetWorkerKeeps(a: Lookahead, w: nat, worker: Worker, draining: bool)
    requires LookaheadInv(a, draining) && w < |a.workers|
    requires Carried(worker) == Carried(a.workers[w]) && WorkerFits(a, worker)
    ensures LookaheadInv(SetWorker(a, w, worker), draining)
  {
    var a' := SetWorker(a, w, worker);
    forall p | p in a'.pending && !IsDone(a', p) ensures p in a'.queue || CarriedBySome(a', p) {
      if p !in a.queue { CarriedKept(a, a', w, p); }
    }
    forall v | 0 <= v < |a'.workers| ensures WorkerFits(a', a'.workers[v]) {
      assert WorkerFits(a, a.workers[v]);
    }
    forall i | !draining && 0 <= i < |a'.queue| ensures Unread(a', a'.queue[i]) {
      assert Unread(a, a.queue[i]);
    }
  }

  /** Filling in or publishing a result that no queued job or other worker is responsible for. */
  lemma SetResultKeeps(a: Lookahead, r: nat, result: Result, draining: bool)
    requires LookaheadInv(a, draining) && r < |a.results|
    requires a.results[r].done ==> result.done
    requires forall w :: 0 <= w < |a.workers| ==> WorkerFits(SetResult(a, r, result), a.workers[w])
    requires !draining ==> forall i :: 0 <= i < |a.queue| ==> a.pending[a.queue[i]] != r
    ensures LookaheadInv(SetResult(a, r, result), draining)
  {
    var a' := SetResult(a, r, result);
    forall p | p in a'.pending && !IsDone(a', p) ensures p in a'.queue || CarriedBySome(a', p) {
      assert !IsDone(a, p);
      if p !in a.queue {
        var v :| 0 <= v < |a.workers| && Carried(a.workers[v]) == Some(p);
        assert Carried(a'.workers[v]) == Some(p);
      }
    }
    forall i | !draining && 0 <= i < |a'.queue| ensures Unread(a', a'.queue[i]) {
      assert Unread(a, a.queue[i]);
    }
  }

  /** A queued directory's result belongs to no worker. */
  lemma QueuedElsewhere(a: Lookahead, path: Path, r: nat)
    requires LookaheadInv(a, false) && path !in a.queue && path in a.pending && a.pending[path] == r
    ensures forall i :: 0 <= i < |a.queue| ==> a.queue[i] in a.pending && a.pending[a.queue[i]] != r
  {
    forall i | 0 <= i < |a.queue| ensures a.queue[i] in a.pending && a.pending[a.queue[i]] != r {
      assert Unread(a, a.queue[i]);
    }
  }

  lemma StoreKeeps(a: Lookahead, w: nat, lease: Option<nat>)
    requires LookaheadInv(a, false) && w < |a.workers| && a.workers[w].Working?
    ensures var Working(path, r, _) := a.workers[w];
      && r < |a.results|
      && LookaheadInv(SetWorker(a, w, Stored(path, r)), false)
      && LookaheadInv(SetResult(SetWorker(a, w, Stored(path, r)), r, a.results[r].(lease := lease)), false)
  {
    var Working(path, r, _) := a.workers[w];
    assert WorkerFits(a, a.workers[w]);
    SetWorkerKeeps(a, w, Stored(path, r), false);
    var a1 := SetWorker(a, w, Stored(path, r));
    assert Carried(a1.workers[w]) == Some(path);
    QueuedElsewhere(a1, path, r);
    var a2 := SetResult(a1, r, a.results[r].(lease := lease));
    forall v | 0 <= v < |a1.workers| ensures WorkerFits(a2, a1.workers[v]) {
      assert WorkerFits(a1, a1.workers[v]);
      if v != w { OtherResult(a1, v, w, r); }
    }
    SetResultKeeps(a1, r, a.results[r].(lease := lease), false);
  }

  /** Two workers never work for the same result. */
  lemma OtherResult(a: Lookahead, v: nat, w: nat, r: nat)
    requires LookaheadInv(a, false) && v < |a.workers| && w < |a.workers| && v != w
    requires a.workers[w].Stored? && a.workers[w].r == r
    ensures Carried(a.workers[v]).Some? ==> Carried(a.workers[v]).value in a.pending && a.pending[Carried(a.workers[v]).value] != r
    ensures a.workers[v].Dropped? ==> a.workers[v].r != r
  {
    assert WorkerFits(a, a.workers[v]) && WorkerFits(a, a.workers[w]);
    assert Carried(a.workers[w]).Some?;
    if v < w {
      assert Carried(a.workers[v]).Some? ==> Carried(a.workers[v]) != Carried(a.workers[w]);
    } else {
      assert Carried(a.workers[w]) != Carried(a.workers[v]);
    }
  }

  /** Publishing a result: its directory is done and its worker free. */
  lemma PublishKeeps(a: Lookahead, w: nat)
    requires LookaheadInv(a, false) && w < |a.workers| && (a.workers[w].Stored? || a.workers[w].Dropped?)
    ensures var r := a.workers[w].r;
      r < |a.results| && LookaheadInv(SetResult(SetWorker(a, w, Idle), r, a.results[r].(done := true)), false)
  {
    var r := a.workers[w].r;
    assert WorkerFits(a, a.workers[w]);
    var a' := SetResult(SetWorker(a, w, Idle), r, a.results[r].(done := true));
    if a.workers[w].Stored? {
      assert Carried(a.workers[w]).Some?;
      QueuedElsewhere(a, a.workers[w].path, r);
    }
    forall v | 0 <= v < |a'.workers| ensures WorkerFits(a', a'.workers[v]) {
      assert WorkerFits(a, a.workers[v]);
      if v != w && a.workers[w].Stored? { OtherResult(a, v, w, r); }
    }
    forall i | 0 <= i < |a'.queue| ensures Unread(a', a'.queue[i]) {
      assert Unread(a, a.queue[i]);
    }
    forall p | p in a'.pending && !IsDone(a', p) ensures p in a'.queue || CarriedBySome(a', p) {
      assert !IsDone(a, p) && a.pending[p] != r;
      if p !in a.queue { CarriedKept(a, a', w, p); }
    }
  }

  lemma ForgetShrinks(a: Lookahead, path: Path)
    ensures |Forget(a, path).pending| <= |a.pending|
  {
    assert Forget(a, path).pending.Keys <= a.pending.Keys;
    SubsetSize(Forget(a, path).pending.Keys, a.pending.Keys);
    assert |Forget(a, path).pending| == |Forget(a, path).pending.Keys| && |a.pending| == |a.pending.Keys|;
  }

  lemma SubsetSize<T>(x: set<T>, y: set<T>)
    requires x <= y
    ensures |x| <= |y|
  {
    assert y == x + (y - x);
  }

  /** Forgetting a directory whose result is done (or that is not pending at all). */
  lemma ForgetDoneKeeps(a: Lookahead, path: Path, draining: bool)
    requires LookaheadInv(a, draining) && (path in a.pending ==> IsDone(a, path))
    ensures LookaheadInv(Forget(a, path), draining)
  {
    var a' := Forget(a, path);
    ForgetShrinks(a, path);
    forall v | 0 <= v < |a'.workers| ensures WorkerFits(a', a'.workers[v]) {
      assert WorkerFits(a, a.workers[v]);
    }
    forall i | !draining && 0 <= i < |a'.queue| ensures Unread(a', a'.queue[i]) {
      assert Unread(a, a.queue[i]);
    }
    forall p | p in a'.pending && !IsDone(a', p) ensures p in a'.queue || CarriedBySome(a', p) {
      assert !IsDone(a, p);
      if p !in a.queue {
        var v :| 0 <= v < |a.workers| && Carried(a.workers[v]) == Some(p);
        assert Carried(a'.workers[v]) == Some(p);
      }
    }
  }

  lemma MarkReleasedKeeps(a: Lookahead, r: nat, draining: bool)
    requires LookaheadInv(a, draining) && r < |a.results| && a.results[r].done
    ensures LookaheadInv(MarkReleased(a, r), draining)
  {
    var result := a.results[r].(released := true);
    var a' := MarkReleased(a, r);
    forall v | 0 <= v < |a.workers| ensures WorkerFits(a', a.workers[v]) {
      assert WorkerFits(a, a.workers[v]);
    }
    forall i | !draining && 0 <= i < |a.queue| ensures a.pending[a.queue[i]] != r {
      assert Unread(a, a.queue[i]);
    }
    SetResultKeeps(a, r, result, draining);
  }

  function Drop(a: Lookahead, w: nat): Lookahead
    requires w < |a.workers| && a.workers[w].Stored?
  {
    Forget(SetWorker(a, w, Dropped(a.workers[w].r)), a.workers[w].path)
  }

  lemma DropWorkers(a: Lookahead, w: nat)
    requires LookaheadInv(a, false) && w < |a.workers| && a.workers[w].Stored?
    ensures forall v :: 0 <= v < |a.workers| ==> WorkerFits(Drop(a, w), Drop(a, w).workers[v])
  {
    var r := a.workers[w].r;
    assert WorkerFits(a, a.workers[w]);
    forall v | 0 <= v < |a.workers| ensures WorkerFits(Drop(a, w), Drop(a, w).workers[v]) {
      assert WorkerFits(a, a.workers[v]);
      if v != w { OtherResult(a, v, w, r); }
    }
  }

  lemma DropInFlight(a: Lookahead, w: nat)
    requires AllInFlight(a) && w < |a.workers| && a.workers[w].Stored?
    ensures AllInFlight(Drop(a, w))
  {
    var a' := Drop(a, w);
    forall p | p in a'.pending && !IsDone(a', p) ensures p in a'.queue || CarriedBySome(a', p) {
      assert !IsDone(a, p);
      if p !in a.queue { CarriedKept(a, a', w, p); }
    }
  }

  lemma DropDistinct(a: Lookahead, w: nat)
    requires JobsDistinct(a) && w < |a.workers| && a.workers[w].Stored?
    ensures JobsDistinct(Drop(a, w))
  {
    var a' := Drop(a, w);
    assert Carried(a'.workers[w]).None?;
  }

  lemma DropPending(a: Lookahead, w: nat)
    requires PendingFits(a) && w < |a.workers| && a.workers[w].Stored?
    ensures PendingFits(Drop(a, w))
  {
    ForgetShrinks(a, a.workers[w].path);
  }

  lemma DropQueue(a: Lookahead, w: nat)
    requires LookaheadInv(a, false) && w < |a.workers| && a.workers[w].Stored?
    ensures forall i :: 0 <= i < |a.queue| ==> Unread(Drop(a, w), a.queue[i])
  {
    assert Carried(a.workers[w]) == Some(a.workers[w].path);
    forall i | 0 <= i < |a.queue| ensures Unread(Drop(a, w), a.queue[i]) {
      assert Unread(a, a.queue[i]);
    }
  }

  /** A worker throws away a large listing that nobody may retain. */
  lemma DropKeeps(a: Lookahead, w: nat)
    requires LookaheadInv(a, false) && w < |a.workers| && a.workers[w].Stored?
    ensures LookaheadInv(Drop(a, w), false)
  {
    DropWorkers(a, w);
    DropInFlight(a, w);
    DropDistinct(a, w);
    DropPending(a, w);
    DropQueue(a, w);
  }

  /** Queuing a directory: the job and its unread result appear together. */
  lemma PushKeeps(a: Lookahead, path: Path)
    requires LookaheadInv(a, false) && path !in a.pending && |a.pending| < a.capacity && |a.queue| < a.capacity
    ensures LookaheadInv(Push(a, path), false)
  {
    var a' := Push(a, path);
    assert |a'.pending| == |a.pending| + 1;
    forall v | 0 <= v < |a'.workers|
      ensures WorkerFits(a', a'.workers[v])
      ensures Carried(a'.workers[v]).Some? ==> Carried(a'.workers[v]).value !in a'.queue
    {
      assert WorkerFits(a, a.workers[v]);
    }
    forall i | 0 <= i < |a'.queue| ensures Unread(a', a'.queue[i]) {
      if i < |a.queue| { assert Unread(a, a.queue[i]); }
    }
    forall i, j | 0 <= i < j < |a'.queue| ensures a'.queue[i] != a'.queue[j] {
      if j == |a.queue| { assert Unread(a, a.queue[i]); }
    }
    forall p | p in a'.pending && !IsDone(a', p) ensures p in a'.queue || CarriedBySome(a', p) {
      if p == path {
        assert a'.queue[|a.queue|] == path;
      } else {
        assert !IsDone(a, p);
        if p in a.queue {
          var i :| 0 <= i < |a.queue| && a.queue[i] == p;
          assert a'.queue[i] == p;
        } else {
          var v :| 0 <= v < |a.workers| && Carried(a.workers[v]) == Some(p);
          assert Carried(a'.workers[v]) == Some(p);
        }
      }
    }
  }

  /** `Close` drains one pending result after all workers have stopped. */
  lemma DrainKeeps(a: Lookahead, path: Path)
    requires LookaheadInv(a, true) && path in a.pending && a.pending[path] < |a.results|
    requires forall w :: 0 <= w < |a.workers| ==> a.workers[w].Stopped?
    ensures LookaheadInv(MarkReleased(Forget(a, path), a.pending[path]), true)
  {
    var r := a.pending[path];
    var a' := MarkReleased(Forget(a, path), r);
    ForgetShrinks(a, path);
    assert |a'.pending| <= |a.pending|;
    forall p | p in a'.pending && !IsDone(a', p) ensures p in a'.queue {
      assert !IsDone(a, p);
      assert !CarriedBySome(a, p);
    }
  }
}
