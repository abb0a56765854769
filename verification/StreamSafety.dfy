/**
 What every run of the directory stream keeps.

 Every reservation has one owner who will release it, and together with the look-ahead this
 gives the guarantees that hold in all interleavings.
 */
module StreamSafety {
  import opened DirectoryStream
  import opened Wrappers

  // ---------------------------------------------------------------------------------------
  // Invariant of the budget: every live lease has one owner who will release it
  // ---------------------------------------------------------------------------------------

  function SourceOf(c: Consumer): Source {
    match c
    case Reading(_, lease) => Direct(lease)
    case Owning(source) => source
    case Enqueuing(source, _, _) => source
    case Exiting(source, _) => source
    case _ => Nothing
  }

  function CopyOf(c: Consumer): Option<nat> {
    match c
    case Enqueuing(_, copy, _) => copy
    case Exiting(_, copy) => copy
    case _ => None
  }

  function HeldBy(s: Stream, o: Owner): Option<nat> {
    match o
    case QueueOwner => s.queueLease
    case MetadataOwner => s.metadataLease
    case ResultOwner(r) => if r < |s.a.results| then Due(s.a.results[r]) else None
    case WorkerOwner(w) => if w < |s.a.workers| && s.a.workers[w].Working? then s.a.workers[w].lease else None
    case SourceOwner => if SourceOf(s.consumer).Direct? then SourceOf(s.consumer).lease else None
    case CopyOwner => CopyOf(s.consumer)
  }

  ghost predicate LeaseInv(s: Stream) {
    && !s.budget.releasedTwice
    && (forall o :: HeldBy(s, o).Some? ==> HeldBy(s, o).value in s.budget.live && s.budget.live[HeldBy(s, o).value] == o)
    && (forall l :: l in s.budget.live ==> l < s.budget.issued && HeldBy(s, s.budget.live[l]) == Some(l))
    && (!s.policy ==> forall o :: HeldBy(s, o).None?)
  }

  ghost predicate SameExcept(s: Stream, s': Stream, owners: set<Owner>) {
    s'.policy == s.policy && forall o :: o !in owners ==> HeldBy(s', o) == HeldBy(s, o)
  }

  lemma UnchangedLeases(s: Stream, s': Stream)
    requires LeaseInv(s) && SameExcept(s, s', {}) && s'.budget == s.budget
    ensures LeaseInv(s')
  {
  }

  lemma AcquiredLease(s: Stream, s': Stream, o: Owner)
    requires LeaseInv(s) && s.policy && SameExcept(s, s', {o})
    requires s'.budget == Acquire(s.budget, o) && HeldBy(s, o).None? && HeldBy(s', o) == Some(s.budget.issued)
    ensures LeaseInv(s')
  {
    forall l | l in s'.budget.live ensures l < s'.budget.issued && HeldBy(s', s'.budget.live[l]) == Some(l) {
      if l != s.budget.issued { assert l in s.budget.live; }
    }
  }

  lemma ReleasedLease(s: Stream, s': Stream, o: Owner)
    requires LeaseInv(s) && SameExcept(s, s', {o})
    requires s'.budget == Release(s.budget, HeldBy(s, o)) && HeldBy(s', o).None?
    ensures LeaseInv(s')
  {
    forall l | l in s'.budget.live ensures l < s'.budget.issued && HeldBy(s', s'.budget.live[l]) == Some(l) {
      assert l in s.budget.live;
    }
  }

  lemma TransferredLease(s: Stream, s': Stream, o: Owner, o': Owner)
    requires LeaseInv(s) && o != o' && SameExcept(s, s', {o, o'})
    requires s'.budget == Transfer(s.budget, HeldBy(s, o), o') && HeldBy(s, o').None?
    requires HeldBy(s', o).None? && HeldBy(s', o') == HeldBy(s, o)
    ensures LeaseInv(s')
  {
    forall l | l in s'.budget.live ensures l < s'.budget.issued && HeldBy(s', s'.budget.live[l]) == Some(l) {
      assert l in s.budget.live;
    }
  }

  // ---------------------------------------------------------------------------------------
  // The whole invariant
  // ---------------------------------------------------------------------------------------

  predicate Draining(s: Stream) {
    s.closer.MetadataDone? || s.closer.Drained? || s.closer.Closed?
  }

  ghost predicate CloserFits(s: Stream) {
    && (!s.closer.Open? ==> s.cancelled)
    && (s.closer.Waited? || Draining(s) ==> Quiet(s))
    && (s.closer.Drained? || s.closer.Closed? ==> s.a.pending == map[])
    && (Draining(s) ==> s.metadataLease.None?)
    && (s.closer.Closed? ==> s.queueLease.None?)
  }

  ghost predicate ConsumerFits(s: Stream) {
    && (s.consumer.Waiting? ==>
          && s.consumer.r < |s.a.results|
          && (s.consumer.path in s.a.pending ==> s.a.pending[s.consumer.path] == s.consumer.r))
    && (SourceOf(s.consumer).FromResult? ==>
          SourceOf(s.consumer).r < |s.a.results| && s.a.results[SourceOf(s.consumer).r].done)
  }

  ghost predicate InPending(a: Lookahead, r: nat) {
    exists p :: p in a.pending && a.pending[p] == r
  }

  /** A result that still holds a lease is pending or in the hands of `Names`. */
  ghost predicate NoLeak(s: Stream) {
    forall r :: 0 <= r < |s.a.results| && Due(s.a.results[r]).Some? ==>
      InPending(s.a, r) || SourceOf(s.consumer) == FromResult(r)
  }

  ghost predicate Inv(s: Stream) {
    LookaheadInv(s.a, Draining(s)) && CloserFits(s) && ConsumerFits(s) && LeaseInv(s) && NoLeak(s)
  }

  lemma NewInv(policy: bool, capacity: nat, workers: nat)
    ensures Inv(New(policy, capacity, workers))
  {
    var s := New(policy, capacity, workers);
    assert !policy ==> forall o :: HeldBy(s, o).None?;
  }

  // ---- look-ahead ----

  /** While somebody is working, `Close` is not draining. */
  lemma NotDraining(s: Stream, step: Step)
    requires CloserFits(s) && Enabled(s, step)
    requires step.WorkerReceive? || step.WorkerStop? || step.WorkerLookup? || step.WorkerReserve? || step.WorkerStore? || step.WorkerDrop? || step.WorkerPublish?
      || step.NamesTakeResult? || step.NamesEvict? || step.NamesPush? || step.NamesReturn?
    ensures !Draining(s) && !Draining(Apply(s, step))
  {
  }

  lemma WorkerKeepsLookahead(s: Stream, step: Step)
    requires LookaheadInv(s.a, Draining(s)) && CloserFits(s) && Enabled(s, step)
    requires step.WorkerReceive? || step.WorkerStop? || step.WorkerLookup? || step.WorkerReserve?
    ensures LookaheadInv(Apply(s, step).a, Draining(Apply(s, step)))
  {
    NotDraining(s, step);
    var w := step.w;
    assert WorkerFits(s.a, s.a.workers[w]);
    if step.WorkerReceive? {
      ReceiveKeeps(s.a, w);
    } else {
      SetWorkerKeeps(s.a, w, Apply(s, step).a.workers[w], false);
    }
  }

  lemma ResultStepKeepsLookahead(s: Stream, step: Step)
    requires LookaheadInv(s.a, Draining(s)) && CloserFits(s) && Enabled(s, step)
    requires step.WorkerStore? || step.WorkerDrop? || step.WorkerPublish?
    ensures LookaheadInv(Apply(s, step).a, Draining(Apply(s, step)))
  {
    NotDraining(s, step);
    match step {
      case WorkerStore(w, ok) => StoreKeeps(s.a, w, s.a.workers[w].lease);
      case WorkerDrop(w) => DropKeeps(s.a, w);
      case WorkerPublish(w) => PublishKeeps(s.a, w);
    }
  }

  lemma NamesKeepsLookahead(s: Stream, step: Step)
    requires LookaheadInv(s.a, Draining(s)) && CloserFits(s) && ConsumerFits(s) && Enabled(s, step)
    requires step.NamesTakeResult? || step.NamesEvict? || step.NamesPush? || step.NamesReturn?
    ensures LookaheadInv(Apply(s, step).a, Draining(Apply(s, step)))
  {
    NotDraining(s, step);
    match step {
      case NamesTakeResult => ForgetDoneKeeps(s.a, s.consumer.path, false);
      case NamesEvict(path) =>
        ForgetDoneKeeps(s.a, path, false);
        MarkReleasedKeeps(Forget(s.a, path), s.a.pending[path], false);
      case NamesPush => PushKeeps(s.a, s.consumer.dirs[0]);
      case NamesReturn =>
        if s.consumer.source.FromResult? { MarkReleasedKeeps(s.a, s.consumer.source.r, false); }
    }
  }

  /** Steps that leave the look-ahead as it is. */
  predicate LeavesLookahead(step: Step) {
    || step.NamesEnter? || step.NamesLookup? || step.NamesGiveUpWaiting? || step.NamesReserve? || step.NamesRead?
    || step.NamesCopy? || step.NamesFail? || step.NamesSkip? || step.NamesStopPushing? || step.NamesReleaseCopy?
    || step.EvictMetadata? || step.CancelParent? || step.CloseCancel? || step.CloseWait? || step.CloseMetadata?
    || step.CloseDrainEnd? || step.CloseQueue?
  }

  lemma LookaheadLeft(s: Stream, step: Step)
    requires Enabled(s, step) && LeavesLookahead(step)
    ensures Apply(s, step).a == s.a
    ensures Draining(s) ==> Draining(Apply(s, step))
  {
    match step {
      case NamesEnter(_) =>
      case NamesLookup =>
      case NamesGiveUpWaiting =>
      case NamesReserve =>
      case NamesRead(_) =>
      case NamesCopy(_, _) =>
      case NamesFail =>
      case NamesSkip =>
      case NamesStopPushing =>
      case NamesReleaseCopy =>
      case EvictMetadata =>
      case CancelParent =>
      case CloseCancel =>
      case CloseWait =>
      case CloseMetadata =>
      case CloseDrainEnd =>
      case CloseQueue =>
      case _ =>
    }
  }

  lemma LookaheadWeakens(a: Lookahead, draining: bool, draining': bool)
    requires LookaheadInv(a, draining) && (draining ==> draining')
    ensures LookaheadInv(a, draining')
  {
  }

  lemma StepKeepsLookahead(s: Stream, step: Step)
    requires LookaheadInv(s.a, Draining(s)) && CloserFits(s) && ConsumerFits(s) && Enabled(s, step)
    ensures LookaheadInv(Apply(s, step).a, Draining(Apply(s, step)))
  {
    if LeavesLookahead(step) {
      LookaheadLeft(s, step);
      LookaheadWeakens(s.a, Draining(s), Draining(Apply(s, step)));
    } else if step.CloseDrainOne? {
      DrainKeeps(s.a, step.path);
    } else if step.WorkerStore? || step.WorkerDrop? || step.WorkerPublish? {
      ResultStepKeepsLookahead(s, step);
    } else if step.WorkerReceive? || step.WorkerStop? || step.WorkerLookup? || step.WorkerReserve? {
      WorkerKeepsLookahead(s, step);
    } else {
      NamesKeepsLookahead(s, step);
    }
  }

  // ---- closing and the consumer ----

  lemma StepKeepsCloser(s: Stream, step: Step)
    requires CloserFits(s) && Enabled(s, step)
    ensures CloserFits(Apply(s, step))
  {
  }

  /** Results are only added, filled in or published, and directories are only forgotten or added. */
  ghost predicate Advances(a: Lookahead, a': Lookahead) {
    && a'.capacity == a.capacity
    && |a.results| <= |a'.results|
    && (forall r :: 0 <= r < |a.results| && a.results[r].done ==> a'.results[r].done)
  }

  lemma StepAdvances(s: Stream, step: Step)
    requires Enabled(s, step)
    ensures Advances(s.a, Apply(s, step).a)
  {
    match step {
      case WorkerReceive(_) =>
      case WorkerStop(_) =>
      case WorkerLookup(_) =>
      case WorkerReserve(_) =>
      case WorkerStore(_, _) =>
      case WorkerDrop(_) =>
      case WorkerPublish(_) =>
      case NamesTakeResult =>
      case NamesEvict(_) =>
      case NamesPush =>
      case NamesReturn =>
      case CloseDrainOne(_) =>
      case _ => LookaheadLeft(s, step);
    }
  }

  lemma StepKeepsConsumer(s: Stream, step: Step)
    requires ConsumerFits(s) && PendingFits(s.a) && Enabled(s, step)
    ensures ConsumerFits(Apply(s, step))
  {
    StepAdvances(s, step);
  }

  // ---- leases ----

  lemma WorkerKeepsLeases(s: Stream, step: Step)
    requires LeaseInv(s) && Enabled(s, step)
    requires step.WorkerReceive? || step.WorkerStop? || step.WorkerLookup? || step.WorkerDrop? || step.WorkerPublish?
    ensures LeaseInv(Apply(s, step))
  {
    UnchangedLeases(s, Apply(s, step));
  }

  lemma WorkerReserveKeepsLeases(s: Stream, w: nat)
    requires LeaseInv(s) && Enabled(s, WorkerReserve(w))
    ensures LeaseInv(Apply(s, WorkerReserve(w)))
  {
    AcquiredLease(s, Apply(s, WorkerReserve(w)), WorkerOwner(w));
  }

  lemma WorkerStoreKeepsLeases(s: Stream, w: nat, ok: bool)
    requires LeaseInv(s) && Enabled(s, WorkerStore(w, ok)) && WorkerFits(s.a, s.a.workers[w])
    ensures LeaseInv(Apply(s, WorkerStore(w, ok)))
  {
    var s' := Apply(s, WorkerStore(w, ok));
    if ok {
      TransferredLease(s, s', WorkerOwner(w), ResultOwner(s.a.workers[w].r));
    } else {
      ReleasedLease(s, s', WorkerOwner(w));
    }
  }

  lemma NamesKeepsLeases(s: Stream, step: Step)
    requires LeaseInv(s) && Enabled(s, step)
    requires step.NamesEnter? || step.NamesLookup? || step.NamesTakeResult? || step.NamesGiveUpWaiting? || step.NamesFail?
      || step.NamesSkip? || step.NamesPush? || step.NamesStopPushing?
    ensures LeaseInv(Apply(s, step))
  {
    UnchangedLeases(s, Apply(s, step));
  }

  lemma NamesLeaseKeepsLeases(s: Stream, step: Step)
    requires LeaseInv(s) && Enabled(s, step)
    requires step.NamesReserve? || step.NamesRead? || step.NamesCopy? || step.NamesReleaseCopy?
    ensures LeaseInv(Apply(s, step))
  {
    var s' := Apply(s, step);
    match step {
      case NamesReserve => AcquiredLease(s, s', SourceOwner);
      case NamesRead(ok) => if ok { UnchangedLeases(s, s'); } else { ReleasedLease(s, s', SourceOwner); }
      case NamesCopy(ok, dirs) => if ok && s.policy { AcquiredLease(s, s', CopyOwner); } else { UnchangedLeases(s, s'); }
      case NamesReleaseCopy => ReleasedLease(s, s', CopyOwner);
    }
  }

  lemma ResultReleaseKeepsLeases(s: Stream, step: Step)
    requires LeaseInv(s) && Enabled(s, step)
    requires step.NamesEvict? || step.NamesReturn? || step.CloseDrainOne?
    ensures LeaseInv(Apply(s, step))
  {
    var s' := Apply(s, step);
    match step {
      case NamesEvict(path) => ReleasedLease(s, s', ResultOwner(s.a.pending[path]));
      case CloseDrainOne(path) => ReleasedLease(s, s', ResultOwner(s.a.pending[path]));
      case NamesReturn =>
        match s.consumer.source {
          case FromResult(r) => ReleasedLease(s, s', ResultOwner(r));
          case Direct(_) => ReleasedLease(s, s', SourceOwner);
          case Nothing => UnchangedLeases(s, s');
        }
    }
  }

  lemma ControlKeepsLeases(s: Stream, step: Step)
    requires LeaseInv(s) && Enabled(s, step)
    requires step.EvictMetadata? || step.CancelParent? || step.CloseCancel? || step.CloseWait? || step.CloseMetadata?
      || step.CloseDrainEnd? || step.CloseQueue?
    ensures LeaseInv(Apply(s, step))
  {
    var s' := Apply(s, step);
    if step.EvictMetadata? || step.CloseMetadata? {
      ReleasedLease(s, s', MetadataOwner);
    } else if step.CloseQueue? {
      ReleasedLease(s, s', QueueOwner);
    } else {
      UnchangedLeases(s, s');
    }
  }

  lemma StepKeepsLeases(s: Stream, step: Step)
    requires LeaseInv(s) && Enabled(s, step)
    requires step.WorkerStore? ==> WorkerFits(s.a, s.a.workers[step.w])
    ensures LeaseInv(Apply(s, step))
  {
    match step {
      case WorkerReserve(w) => WorkerReserveKeepsLeases(s, w);
      case WorkerStore(w, ok) => WorkerStoreKeepsLeases(s, w, ok);
      case WorkerReceive(_) => WorkerKeepsLeases(s, step);
      case WorkerStop(_) => WorkerKeepsLeases(s, step);
      case WorkerLookup(_) => WorkerKeepsLeases(s, step);
      case WorkerDrop(_) => WorkerKeepsLeases(s, step);
      case WorkerPublish(_) => WorkerKeepsLeases(s, step);
      case NamesReserve => NamesLeaseKeepsLeases(s, step);
      case NamesRead(_) => NamesLeaseKeepsLeases(s, step);
      case NamesCopy(_, _) => NamesLeaseKeepsLeases(s, step);
      case NamesReleaseCopy => NamesLeaseKeepsLeases(s, step);
      case NamesEvict(_) => ResultReleaseKeepsLeases(s, step);
      case NamesReturn => ResultReleaseKeepsLeases(s, step);
      case CloseDrainOne(_) => ResultReleaseKeepsLeases(s, step);
      case EvictMetadata => ControlKeepsLeases(s, step);
      case CancelParent => ControlKeepsLeases(s, step);
      case CloseCancel => ControlKeepsLeases(s, step);
      case CloseWait => ControlKeepsLeases(s, step);
      case CloseMetadata => ControlKeepsLeases(s, step);
      case CloseDrainEnd => ControlKeepsLeases(s, step);
      case CloseQueue => ControlKeepsLeases(s, step);
      case _ => NamesKeepsLeases(s, step);
    }
  }

  // ---- nothing leaks ----

  /** Steps that keep the pending directories, and fill in only results that are pending. */
  lemma LeakFree(s: Stream, s': Stream)
    requires NoLeak(s) && |s.a.results| <= |s'.a.results|
    requires forall p :: p in s.a.pending ==> p in s'.a.pending && s'.a.pending[p] == s.a.pending[p]
    requires SourceOf(s.consumer).FromResult? ==> SourceOf(s'.consumer) == SourceOf(s.consumer)
    requires forall r :: 0 <= r < |s'.a.results| && Due(s'.a.results[r]).Some? ==>
      r < |s.a.results| && (Due(s.a.results[r]).Some? || InPending(s.a, r))
    ensures NoLeak(s')
  {
    forall r | 0 <= r < |s'.a.results| && Due(s'.a.results[r]).Some?
      ensures InPending(s'.a, r) || SourceOf(s'.consumer) == FromResult(r)
    {
      if InPending(s.a, r) {
        var p :| p in s.a.pending && s.a.pending[p] == r;
        assert p in s'.a.pending && s'.a.pending[p] == r;
      }
    }
  }

  lemma StoreLeakFree(s: Stream, w: nat, ok: bool)
    requires NoLeak(s) && Enabled(s, WorkerStore(w, ok)) && WorkerFits(s.a, s.a.workers[w])
    ensures NoLeak(Apply(s, WorkerStore(w, ok)))
  {
    var Working(path, r, lease) := s.a.workers[w];
    assert path in s.a.pending && s.a.pending[path] == r;
    assert InPending(s.a, r);
    LeakFree(s, Apply(s, WorkerStore(w, ok)));
  }

  lemma DropLeakFree(s: Stream, w: nat)
    requires LeaseInv(s) && Enabled(s, WorkerDrop(w))
    ensures NoLeak(Apply(s, WorkerDrop(w)))
  {
    forall r | 0 <= r < |s.a.results| ensures Due(s.a.results[r]).None? {
      assert HeldBy(s, ResultOwner(r)).None?;
    }
  }

  /** Forgetting a directory whose result is released or handed to `Names`. */
  lemma ForgottenLeakFree(s: Stream, s': Stream, path: Path)
    requires NoLeak(s) && |s'.a.results| == |s.a.results| && s'.a.pending == s.a.pending - {path}
    requires forall r :: 0 <= r < |s.a.results| && Due(s'.a.results[r]).Some? ==> Due(s.a.results[r]).Some?
    requires path in s.a.pending ==>
      || SourceOf(s'.consumer) == FromResult(s.a.pending[path])
      || (s.a.pending[path] < |s'.a.results| && Due(s'.a.results[s.a.pending[path]]).None?)
    requires SourceOf(s.consumer).FromResult? ==> SourceOf(s'.consumer) == SourceOf(s.consumer)
    ensures NoLeak(s')
  {
    forall q | 0 <= q < |s'.a.results| && Due(s'.a.results[q]).Some?
      ensures InPending(s'.a, q) || SourceOf(s'.consumer) == FromResult(q)
    {
      if InPending(s.a, q) {
        var p :| p in s.a.pending && s.a.pending[p] == q;
        if p != path { assert p in s'.a.pending && s'.a.pending[p] == q; }
      }
    }
  }

  lemma ReturnLeakFree(s: Stream)
    requires NoLeak(s) && Enabled(s, NamesReturn)
    ensures NoLeak(Apply(s, NamesReturn))
  {
    var s' := Apply(s, NamesReturn);
    forall q | 0 <= q < |s'.a.results| && Due(s'.a.results[q]).Some? ensures InPending(s'.a, q) {
      assert InPending(s.a, q);
      var p :| p in s.a.pending && s.a.pending[p] == q;
      assert p in s'.a.pending && s'.a.pending[p] == q;
    }
  }

  lemma OtherLeakFree(s: Stream, step: Step)
    requires NoLeak(s) && Enabled(s, step)
    requires LeavesLookahead(step) || step.WorkerReceive? || step.WorkerStop? || step.WorkerLookup? || step.WorkerReserve?
      || step.WorkerPublish? || step.NamesPush?
    ensures NoLeak(Apply(s, step))
  {
    if LeavesLookahead(step) {
      LookaheadLeft(s, step);
      SourceKept(s, step);
    }
    LeakFree(s, Apply(s, step));
  }

  lemma SourceKept(s: Stream, step: Step)
    requires Enabled(s, step) && LeavesLookahead(step)
    ensures SourceOf(s.consumer).FromResult? ==> SourceOf(Apply(s, step).consumer) == SourceOf(s.consumer)
  {
    match step {
      case NamesEnter(_) =>
      case NamesLookup =>
      case NamesGiveUpWaiting =>
      case NamesReserve =>
      case NamesRead(_) =>
      case NamesCopy(_, _) =>
      case NamesFail =>
      case NamesSkip =>
      case NamesStopPushing =>
      case NamesReleaseCopy =>
      case EvictMetadata =>
      case CancelParent =>
      case CloseCancel =>
      case CloseWait =>
      case CloseMetadata =>
      case CloseDrainEnd =>
      case CloseQueue =>
      case _ =>
    }
  }

  lemma StepKeepsNoLeak(s: Stream, step: Step)
    requires NoLeak(s) && LeaseInv(s) && ConsumerFits(s) && Enabled(s, step)
    requires step.WorkerStore? ==> WorkerFits(s.a, s.a.workers[step.w])
    ensures NoLeak(Apply(s, step))
  {
    match step {
      case WorkerStore(w, ok) => StoreLeakFree(s, w, ok);
      case WorkerDrop(w) => DropLeakFree(s, w);
      case NamesTakeResult => ForgottenLeakFree(s, Apply(s, step), s.consumer.path);
      case NamesEvict(path) => ForgottenLeakFree(s, Apply(s, step), path);
      case CloseDrainOne(path) => ForgottenLeakFree(s, Apply(s, step), path);
      case NamesReturn => ReturnLeakFree(s);
      case _ => OtherLeakFree(s, step);
    }
  }

  lemma StepKeepsInv(s: Stream, step: Step)
    requires Inv(s) && Enabled(s, step)
    ensures Inv(Apply(s, step))
  {
    assert step.WorkerStore? ==> WorkerFits(s.a, s.a.workers[step.w]);
    StepKeepsLookahead(s, step);
    StepKeepsCloser(s, step);
    StepKeepsConsumer(s, step);
    StepKeepsLeases(s, step);
    StepKeepsNoLeak(s, step);
  }

  lemma {:induction false} ReachableInv(policy: bool, capacity: nat, workers: nat, steps: seq<Step>)
    requires After(New(policy, capacity, workers), steps).Some?
    ensures Inv(After(New(policy, capacity, workers), steps).value)
  {
    var start := New(policy, capacity, workers);
    if steps == [] {
      NewInv(policy, capacity, workers);
    } else {
      var last := |steps| - 1;
      ReachableInv(policy, capacity, workers, steps[..last]);
      StepKeepsInv(After(start, steps[..last]).value, steps[last]);
    }
  }

  // ---------------------------------------------------------------------------------------
  // Main results
  // ---------------------------------------------------------------------------------------

  function QueuedTimes(queue: seq<Path>, path: Path): nat {
    if queue == [] then 0 else (if queue[0] == path then 1 else 0) + QueuedTimes(queue[1..], path)
  }

  function CarriedTimes(workers: seq<Worker>, path: Path): nat {
    if workers == [] then 0 else (if Carried(workers[0]) == Some(path) then 1 else 0) + CarriedTimes(workers[1..], path)
  }

  lemma {:induction false} QueuedCount(queue: seq<Path>, path: Path)
    requires forall i, j :: 0 <= i < j < |queue| ==> queue[i] != queue[j]
    ensures QueuedTimes(queue, path) == if path in queue then 1 else 0
  {
    if queue != [] {
      QueuedCount(queue[1..], path);
      assert path in queue <==> queue[0] == path || path in queue[1..];
      assert forall i :: 0 <= i < |queue| - 1 ==> queue[1..][i] == queue[i + 1] != queue[0];
    }
  }

  lemma {:induction false} CarriedCount(workers: seq<Worker>, path: Path)
    requires forall v, w :: 0 <= v < w < |workers| && Carried(workers[v]).Some? ==> Carried(workers[v]) != Carried(workers[w])
    ensures CarriedTimes(workers, path) == if exists w :: 0 <= w < |workers| && Carried(workers[w]) == Some(path) then 1 else 0
  {
    if workers != [] {
      var rest := workers[1..];
      CarriedCount(rest, path);
      if w :| 0 <= w < |workers| && Carried(workers[w]) == Some(path) {
        if w > 0 {
          assert Carried(rest[w - 1]) == Some(path);
          assert Carried(workers[0]) != Some(path);
        } else {
          forall v | 0 <= v < |rest| ensures Carried(rest[v]) != Some(path) {
            assert Carried(workers[0]) != Carried(workers[v + 1]);
          }
        }
      }
    }
  }

  lemma {:induction false} CapacityFixed(start: Stream, steps: seq<Step>)
    requires After(start, steps).Some?
    ensures After(start, steps).value.a.capacity == start.a.capacity
  {
    if steps != [] {
      var last := |steps| - 1;
      CapacityFixed(start, steps[..last]);
      StepAdvances(After(start, steps[..last]).value, steps[last]);
    }
  }

  /** In every run: the look-ahead stays within its capacity, and every pending result that is
      not done has exactly one job, queued or in the hands of a worker. */
  lemma {:induction false} OneJobPerUnfinished(policy: bool, capacity: nat, workers: nat, steps: seq<Step>)
    requires After(New(policy, capacity, workers), steps).Some?
    ensures var a := After(New(policy, capacity, workers), steps).value.a;
      && |a.pending| <= capacity
      && |a.queue| <= capacity
      && (forall p :: p in a.pending && !IsDone(a, p) ==> QueuedTimes(a.queue, p) + CarriedTimes(a.workers, p) == 1)
  {
    ReachableInv(policy, capacity, workers, steps);
    CapacityFixed(New(policy, capacity, workers), steps);
    var a := After(New(policy, capacity, workers), steps).value.a;
    forall p | p in a.pending && !IsDone(a, p) ensures QueuedTimes(a.queue, p) + CarriedTimes(a.workers, p) == 1 {
      QueuedCount(a.queue, p);
      CarriedCount(a.workers, p);
      assert p in a.queue || CarriedBySome(a, p);
    }
  }

  /** Once `Close` has been called it cannot hang: until it returns, a worker, `Names` or `Close`
      itself can take a step. */
  lemma {:induction false} CloseNotStuck(policy: bool, capacity: nat, workers: nat, steps: seq<Step>)
    requires After(New(policy, capacity, workers), steps).Some?
    requires var closer := After(New(policy, capacity, workers), steps).value.closer; !closer.Open? && !closer.Closed?
    ensures exists step: Step :: !step.CancelParent? && !step.EvictMetadata? && !step.NamesEnter? && Enabled(After(New(policy, capacity, workers), steps).value, step)
  {
    ReachableInv(policy, capacity, workers, steps);
    var s := After(New(policy, capacity, workers), steps).value;
    var step: Step;
    if !s.consumer.Away? {
      step := match s.consumer
        case Called(_) => NamesLookup
        case Waiting(_, _) => NamesGiveUpWaiting
        case Reading(_, _) => NamesRead(false)
        case Owning(_) => NamesFail
        case Enqueuing(_, _, _) => NamesStopPushing
        case Exiting(_, copy) => if copy.Some? then NamesReleaseCopy else NamesReturn
        case _ => CloseQueue;
    } else if w :| 0 <= w < |s.a.workers| && !s.a.workers[w].Stopped? {
      assert WorkerFits(s.a, s.a.workers[w]);
      step := match s.a.workers[w]
        case Idle => WorkerStop(w)
        case Received(_) => WorkerLookup(w)
        case Working(_, _, _) => WorkerStore(w, false)
        case _ => WorkerPublish(w);
    } else {
      step := match s.closer
        case Cancelled => CloseWait
        case Waited => CloseMetadata
        case MetadataDone => if s.a.pending != map[] then (var p :| p in s.a.pending; CloseDrainOne(p)) else CloseDrainEnd
        case _ => CloseQueue;
    }
    assert Enabled(s, step);
  }

  /** After `Close` nobody is left who holds a lease. */
  lemma ClosedHoldsNothing(s: Stream)
    requires Inv(s) && s.closer.Closed?
    ensures forall o :: HeldBy(s, o).None?
  {
    forall o ensures HeldBy(s, o).None? {
      if o.ResultOwner? {
        assert !InPending(s.a, o.r);
      }
    }
  }

  /** No lease is ever released twice, and none is left once `Close` has returned. */
  lemma {:induction false} LeasesReleasedOnce(policy: bool, capacity: nat, workers: nat, steps: seq<Step>)
    requires After(New(policy, capacity, workers), steps).Some?
    ensures var s := After(New(policy, capacity, workers), steps).value;
      && !s.budget.releasedTwice
      && (s.closer.Closed? ==> s.budget.live == map[])
  {
    ReachableInv(policy, capacity, workers, steps);
    var s := After(New(policy, capacity, workers), steps).value;
    if s.closer.Closed? {
      ClosedHoldsNothing(s);
      assert s.budget.live.Keys == {};
    }
  }
}
