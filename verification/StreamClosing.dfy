/**
 How long it takes to close the directory stream.

 Once the stream is cancelled nobody starts anything new, so what the workers, the consumer and
 `Close` can still do is bounded by what they have in hand.
 */
module StreamClosing {
  import opened DirectoryStream
  import opened StreamSafety
  import opened Wrappers

  /** The steps a worker can still take with what it has, until it stops. */
  function WorkerWork(w: Worker): nat {
    match w
    case Stopped => 0
    case Idle => 1
    case Dropped(_) => 2
    case Stored(_, _) => 4
    case Working(_, _, lease) => if lease.None? then 6 else 5
    case Received(_) => 7
  }

  function WorkersWork(workers: seq<Worker>): nat {
    if workers == [] then 0 else WorkersWork(workers[..|workers| - 1]) + WorkerWork(workers[|workers| - 1])
  }

  /** Likewise for `Names`, where a directory still to be queued may cost nine steps of anybody. */
  function ConsumerWork(c: Consumer): nat {
    match c
    case Away => 0
    case Called(_) => 7
    case Waiting(_, _) => 5
    case Reading(_, lease) => if lease.None? then 6 else 5
    case Owning(_) => 4
    case Enqueuing(_, _, dirs) => 3 + 9 * |dirs|
    case Exiting(_, copy) => if copy.Some? then 2 else 1
  }

  function CloserWork(c: Closer): nat {
    match c
    case Open => 5
    case Cancelled => 4
    case Waited => 3
    case MetadataDone => 2
    case Drained => 1
    case Closed => 0
  }

  function Work(s: Stream): nat {
    ConsumerWork(s.consumer) + WorkersWork(s.a.workers) + 7 * |s.a.queue| + |s.a.pending| + CloserWork(s.closer)
  }

  /** Steps that cancelling, evicting or a late caller may add at any time change nothing. */
  predicate Idles(step: Step) {
    step.CancelParent? || step.EvictMetadata? || step.NamesEnter?
  }

  /** The directories that `Names` finds in this step. */
  function FoundBy(step: Step): nat {
    if step.NamesCopy? && step.ok then |step.dirs| else 0
  }

  lemma {:induction false} WorkersUpdate(workers: seq<Worker>, w: nat, worker: Worker)
    requires w < |workers|
    ensures WorkersWork(workers[w := worker]) == WorkersWork(workers) - WorkerWork(workers[w]) + WorkerWork(worker)
  {
    var last := |workers| - 1;
    if w == last {
      assert workers[w := worker][..last] == workers[..last];
    } else {
      assert workers[w := worker][..last] == workers[..last][w := worker];
      WorkersUpdate(workers[..last], w, worker);
    }
  }

  lemma ForgottenSize(pending: map<Path, nat>, path: Path)
    ensures |pending - {path}| == |pending| - (if path in pending then 1 else 0)
  {
    assert (pending - {path}).Keys == pending.Keys - {path};
    SameSize(pending);
    SameSize(pending - {path});
  }

  lemma AddedSize(pending: map<Path, nat>, path: Path, r: nat)
    ensures |pending[path := r]| <= |pending| + 1
  {
    assert pending[path := r].Keys == pending.Keys + {path};
    SameSize(pending);
    SameSize(pending[path := r]);
  }

  lemma SameSize(pending: map<Path, nat>)
    ensures |pending| == |pending.Keys|
  {
  }

  /** What a worker's step does to its own work, the queue and the pending directories. */
  lemma WorkerMoves(s: Stream, step: Step)
    requires Enabled(s, step) && IsWorker(step)
    ensures var a, a' := s.a, Apply(s, step).a;
      && step.w < |a.workers| && a'.workers == a.workers[step.w := a'.workers[step.w]]
      && WorkerWork(a'.workers[step.w]) + 7 * |a'.queue| + |a'.pending| < WorkerWork(a.workers[step.w]) + 7 * |a.queue| + |a.pending|
  {
    if step.WorkerDrop? {
      ForgottenSize(s.a.pending, s.a.workers[step.w].path);
      assert Apply(s, step).a == Drop(s.a, step.w);
    } else if step.WorkerReceive? {
      assert Apply(s, step).a == Receive(s.a, step.w);
    } else {
      WorkerStays(s, step);
    }
  }

  lemma WorkerStays(s: Stream, step: Step)
    requires Enabled(s, step) && IsWorker(step) && !step.WorkerDrop? && !step.WorkerReceive?
    ensures var a, a' := s.a, Apply(s, step).a;
      && step.w < |a.workers| && a'.workers == a.workers[step.w := a'.workers[step.w]]
      && a'.queue == a.queue && a'.pending == a.pending
      && WorkerWork(a'.workers[step.w]) < WorkerWork(a.workers[step.w])
  {
    match step {
      case WorkerStop(_) => case WorkerLookup(_) => case WorkerReserve(_) => case WorkerStore(_, _) => case WorkerPublish(_) =>
    }
  }

  lemma WorkerDoesWork(s: Stream, step: Step)
    requires Enabled(s, step) && IsWorker(step)
    ensures Work(Apply(s, step)) < Work(s)
  {
    WorkerMoves(s, step);
    WorkersUpdate(s.a.workers, step.w, Apply(s, step).a.workers[step.w]);
  }

  predicate IsWorker(step: Step) {
    step.WorkerReceive? || step.WorkerStop? || step.WorkerLookup? || step.WorkerReserve? || step.WorkerStore? || step.WorkerDrop? || step.WorkerPublish?
  }

  predicate ChangesPending(step: Step) {
    step.NamesTakeResult? || step.NamesEvict? || step.NamesPush? || step.CloseDrainOne? || step.NamesReturn?
  }

  lemma DrainingDoesWork(s: Stream, step: Step)
    requires Enabled(s, step) && (step.NamesEvict? || step.CloseDrainOne?)
    ensures Work(Apply(s, step)) < Work(s)
  {
    ForgottenSize(s.a.pending, step.path);
  }

  lemma TakingDoesWork(s: Stream)
    requires Enabled(s, NamesTakeResult)
    ensures Work(Apply(s, NamesTakeResult)) < Work(s)
  {
    ForgottenSize(s.a.pending, s.consumer.path);
  }

  lemma PushingDoesWork(s: Stream)
    requires Enabled(s, NamesPush)
    ensures Work(Apply(s, NamesPush)) < Work(s)
  {
    AddedSize(s.a.pending, s.consumer.dirs[0], |s.a.results|);
  }

  lemma PendingDoesWork(s: Stream, step: Step)
    requires Enabled(s, step) && ChangesPending(step)
    ensures Work(Apply(s, step)) < Work(s)
  {
    match step {
      case NamesTakeResult => TakingDoesWork(s);
      case NamesEvict(path) => DrainingDoesWork(s, step);
      case CloseDrainOne(path) => DrainingDoesWork(s, step);
      case NamesPush => PushingDoesWork(s);
      case NamesReturn =>
    }
  }

  lemma RestDoesWork(s: Stream, step: Step)
    requires Enabled(s, step) && s.cancelled && !Idles(step) && !IsWorker(step) && !ChangesPending(step)
    ensures ConsumerWork(Apply(s, step).consumer) + CloserWork(Apply(s, step).closer) < ConsumerWork(s.consumer) + CloserWork(s.closer) + 9 * FoundBy(step)
  {
    match step {
      case NamesLookup => case NamesGiveUpWaiting => case NamesReserve => case NamesRead(_) => case NamesCopy(_, _) =>
      case NamesFail => case NamesSkip => case NamesStopPushing => case NamesReleaseCopy =>
      case CloseCancel => case CloseWait => case CloseMetadata => case CloseDrainEnd => case CloseQueue =>
    }
  }

  lemma OthersDoWork(s: Stream, step: Step)
    requires Enabled(s, step) && s.cancelled && !Idles(step) && !IsWorker(step)
    ensures Work(Apply(s, step)) < Work(s) + 9 * FoundBy(step)
  {
    if ChangesPending(step) {
      PendingDoesWork(s, step);
    } else {
      RestDoesWork(s, step);
      LookaheadLeft(s, step);
    }
  }

  lemma IdlesChangeNothing(s: Stream, step: Step)
    requires Enabled(s, step) && s.cancelled && Idles(step)
    ensures Work(Apply(s, step)) == Work(s) && Apply(s, step).consumer == s.consumer
  {
  }

  lemma StepDoesWork(s: Stream, step: Step)
    requires Enabled(s, step) && s.cancelled
    ensures Apply(s, step).cancelled
    ensures Work(Apply(s, step)) + (if Idles(step) then 0 else 1) <= Work(s) + 9 * FoundBy(step)
  {
    if Idles(step) {
      IdlesChangeNothing(s, step);
    } else if IsWorker(step) {
      WorkerDoesWork(s, step);
    } else {
      OthersDoWork(s, step);
    }
  }

  function Busy(steps: seq<Step>): nat {
    if steps == [] then 0 else Busy(steps[..|steps| - 1]) + if Idles(steps[|steps| - 1]) then 0 else 1
  }

  function Found(steps: seq<Step>): nat {
    if steps == [] then 0 else Found(steps[..|steps| - 1]) + FoundBy(steps[|steps| - 1])
  }

  function Copies(steps: seq<Step>): nat {
    if steps == [] then 0 else Copies(steps[..|steps| - 1]) + if steps[|steps| - 1].NamesCopy? then 1 else 0
  }

  /** Once the stream is cancelled, every run is bounded by the work that is left and what is found. */
  lemma {:induction false} CancelledRun(s: Stream, steps: seq<Step>)
    requires s.cancelled && After(s, steps).Some?
    ensures After(s, steps).value.cancelled
    ensures Busy(steps) + Work(After(s, steps).value) <= Work(s) + 9 * Found(steps)
  {
    if steps != [] {
      CancelledRun(s, steps[..|steps| - 1]);
      StepDoesWork(After(s, steps[..|steps| - 1]).value, steps[|steps| - 1]);
    }
  }

  /** `Names` is on its way to look at a directory. */
  predicate Looking(c: Consumer) {
    c.Called? || c.Waiting? || c.Reading? || c.Owning?
  }

  /** Nobody starts another look, so at most one directory is still taken in. */
  lemma {:induction false} OneMoreLook(s: Stream, steps: seq<Step>)
    requires s.cancelled && After(s, steps).Some?
    ensures Copies(steps) + (if Looking(After(s, steps).value.consumer) then 1 else 0) <= if Looking(s.consumer) then 1 else 0
  {
    if steps != [] {
      var last := |steps| - 1;
      OneMoreLook(s, steps[..last]);
      CancelledRun(s, steps[..last]);
      LookEnds(After(s, steps[..last]).value, steps[last]);
    }
  }

  lemma LookEnds(s: Stream, step: Step)
    requires s.cancelled && Enabled(s, step)
    ensures Looking(Apply(s, step).consumer) ==> Looking(s.consumer) && !step.NamesCopy?
    ensures step.NamesCopy? ==> Looking(s.consumer)
  {
  }

  lemma StepKeepsWorkers(s: Stream, step: Step)
    requires Enabled(s, step)
    ensures |Apply(s, step).a.workers| == |s.a.workers|
  {
    if IsWorker(step) {
      WorkerMoves(s, step);
    } else if !ChangesPending(step) {
      LookaheadLeft(s, step);
    }
  }

  lemma {:induction false} WorkersFixed(start: Stream, steps: seq<Step>)
    requires After(start, steps).Some?
    ensures |After(start, steps).value.a.workers| == |start.a.workers|
  {
    if steps != [] {
      WorkersFixed(start, steps[..|steps| - 1]);
      StepKeepsWorkers(After(start, steps[..|steps| - 1]).value, steps[|steps| - 1]);
    }
  }

  lemma {:induction false} WorkersBound(workers: seq<Worker>)
    ensures WorkersWork(workers) <= 7 * |workers|
  {
    if workers != [] {
      WorkersBound(workers[..|workers| - 1]);
    }
  }

  /** From the moment `Close` cancels the stream, the workers, `Names` and `Close` together take a bounded
      number of steps: seven for each worker, eight for each place of the look-ahead, eleven, and nine
      for each entry of the one directory that `Names` may still be looking at.  By `CloseNotStuck` they
      can go on until `Close` has returned. */
  lemma CloseReturns(policy: bool, capacity: nat, workers: nat, before: seq<Step>, open: Stream, steps: seq<Step>)
    requires After(New(policy, capacity, workers), before) == Some(open) && Enabled(open, CloseCancel)
    requires After(Apply(open, CloseCancel), steps).Some?
    ensures Busy(steps) <= 7 * workers + 8 * capacity + 11 + 9 * Found(steps)
    ensures Copies(steps) <= 1
  {
    ReachableInv(policy, capacity, workers, before);
    CapacityFixed(New(policy, capacity, workers), before);
    WorkersFixed(New(policy, capacity, workers), before);
    var s := Apply(open, CloseCancel);
    WorkersBound(s.a.workers);
    CancelledRun(s, steps);
    OneMoreLook(s, steps);
  }
}
