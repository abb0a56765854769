/**
 Completion of one file job.

 One goroutine reads the file and hands each chunk to the asynchronous uploader; every
 upload later runs a callback on some other goroutine.  They meet in a counter that the
 callbacks drive below zero and that the reader tops up once it knows the number of chunks.
 The job is modelled as a transition system whose steps are the critical sections (and the
 one unlocked store) of the reader and of the callbacks, in any interleaving.
 */
module FileSaver {
  import opened Wrappers

  type ID = nat

  /** The all-zero ID that a content slot holds until its upload has been recorded. */
  const NULL_ID: ID := 0

  datatype Stats = Stats(dataBlobs: nat, dataSize: nat, dataSizeInRepo: nat)

  const NO_STATS := Stats(0, 0, 0)

  /** What a callback is told about a stored chunk, with the chunk's length. */
  datatype Blob = Blob(len: nat, id: ID, known: bool, sizeInRepo: nat)

  datatype Outcome = Saved(content: seq<ID>, size: nat, stats: Stats) | Failed

  datatype Event = FinishReading | Finish(outcome: Outcome)

  datatype Fault = NoFault | CompletedTwice | NullContent | NilNode

  /** The shared record guarded by the completion's lock, with the events seen from outside. */
  datatype Completion = Completion(
    remaining: int,
    isCompleted: bool,
    failed: bool,
    hasNode: bool,
    content: seq<ID>,
    size: nat,
    stats: Stats,
    log: seq<Event>,
    fault: Fault)

  const EMPTY := Completion(0, false, false, false, [], 0, NO_STATS, [], NoFault)

  function BlobCompleted(c: Completion): Completion {
    var c := c.(remaining := c.remaining - 1);
    if c.remaining != 0 || c.failed then c
    else if c.isCompleted then c.(fault := CompletedTwice)
    else if !c.hasNode then c.(fault := NilNode)
    else if NULL_ID in c.content then c.(fault := NullContent)
    else c.(isCompleted := true, log := c.log + [Finish(Saved(c.content, c.size, c.stats))])
  }

  function ErrorCompleted(c: Completion): Completion {
    if c.failed then c
    else if c.isCompleted then c.(fault := CompletedTwice)
    else c.(isCompleted := true, failed := true, hasNode := false, stats := NO_STATS,
            log := c.log + [Finish(Failed)])
  }

  function AddBlob(stats: Stats, b: Blob): Stats {
    if b.known then stats
    else Stats(stats.dataBlobs + 1, stats.dataSize + b.len, stats.dataSizeInRepo + b.sizeInRepo)
  }

  function RecordBlob(c: Completion, pos: nat, b: Blob): Completion
    requires pos < |c.content|
  {
    c.(stats := AddBlob(c.stats, b), content := c.content[pos := b.id])
  }

  /** The completion record as the object the callbacks share. */
  class FileSaveCompletion {
    var remaining: int
    var isCompleted: bool
    var failed: bool
    var hasNode: bool
    var content: seq<ID>
    var size: nat
    var stats: Stats
    var log: seq<Event>
    var fault: Fault

    ghost function View(): Completion
      reads this
    {
      Completion(remaining, isCompleted, failed, hasNode, content, size, stats, log, fault)
    }

    constructor ()
      ensures View() == EMPTY
    {
      remaining, isCompleted, failed, hasNode := 0, false, false, false;
      content, size, stats, log, fault := [], 0, NO_STATS, [], NoFault;
    }

    method CompleteBlob()
      modifies this
      ensures View() == BlobCompleted(old(View()))
    {
      remaining := remaining - 1;
      if remaining != 0 || failed {
        return;
      }
      if isCompleted {
        fault := CompletedTwice;
        return;
      }
      if !hasNode {
        fault := NilNode;
        return;
      }
      var i := 0;
      while i < |content|
        invariant 0 <= i <= |content|
        invariant NULL_ID !in content[..i]
        invariant View() == old(View()).(remaining := remaining)
      {
        if content[i] == NULL_ID {
          fault := NullContent;
          return;
        }
        i := i + 1;
      }
      isCompleted := true;
      log := log + [Finish(Saved(content, size, stats))];
    }

    method CompleteError()
      modifies this
      ensures View() == ErrorCompleted(old(View()))
    {
      if failed {
        return;
      }
      if isCompleted {
        fault := CompletedTwice;
        return;
      }
      isCompleted := true;
      failed := true;
      hasNode := false;
      stats := NO_STATS;
      log := log + [Finish(Failed)];
    }

    /** Takes a step of the job on the shared record. */
    method Perform(j: Job, step: Step)
      requires View() == j.c && Enabled(j, step)
      modifies this
      ensures View() == Apply(j, step).c
    {
      match step {
        case PlaceChunk(len) => content, size := content + [NULL_ID], size + len;
        case EndOfFile => hasNode := true;
        case TopUp => remaining := remaining + |j.uploads| + 1;
        case ReportReading => log := log + [FinishReading];
        case FinalComplete => CompleteBlob();
        case UploadStored(i, id, known, sizeInRepo) =>
          stats, content := AddBlob(stats, Blob(j.uploads[i].len, id, known, sizeInRepo)), content[i := id];
        case UploadCounted(_) => CompleteBlob();
        case UploadFailed(_) => CompleteError();
        case Abort => CompleteError();
        case IssueUpload =>
        case NextChunk =>
      }
    }
  }

  /** After an error the record is settled: neither another error nor any number of completions delivers
      anything or changes what was delivered. */
  lemma ErrorSettles(c: Completion)
    requires !c.isCompleted && !c.failed
    ensures var e := ErrorCompleted(c);
      && e.log == c.log + [Finish(Failed)]
      && ErrorCompleted(e) == e
      && BlobCompleted(e) == e.(remaining := e.remaining - 1)
      && ErrorCompleted(BlobCompleted(e)) == BlobCompleted(e)
  {
  }

  // ---------------------------------------------------------------------------------------
  // The job as a transition system
  // ---------------------------------------------------------------------------------------

  datatype Upload = Pending(len: nat) | Recorded(blob: Blob) | Counted(blob: Blob) | Rejected(len: nat)

  /** Where the reading goroutine stands. */
  datatype Phase =
    | Looping
    | Placed(len: nat)
    | Issued
    | NodeSet
    | ToppedUp
    | ReadingDone
    | Returned
    | Aborted

  datatype Job = Job(phase: Phase, uploads: seq<Upload>, c: Completion)

  const START := Job(Looping, [], EMPTY)

  datatype Step =
    | PlaceChunk(len: nat)
    | IssueUpload
    | NextChunk
    | Abort
    | EndOfFile
    | TopUp
    | ReportReading
    | FinalComplete
    | UploadStored(i: nat, id: ID, known: bool, sizeInRepo: nat)
    | UploadFailed(i: nat)
    | UploadCounted(i: nat)

  predicate Enabled(j: Job, step: Step) {
    match step
    case PlaceChunk(len) => j.phase.Looping? && len > 0
    case IssueUpload => j.phase.Placed?
    case NextChunk => j.phase.Issued?
    case Abort => j.phase.Looping? || j.phase.Issued?
    case EndOfFile => j.phase.Looping?
    case TopUp => j.phase.NodeSet?
    case ReportReading => j.phase.ToppedUp?
    case FinalComplete => j.phase.ReadingDone?
    case UploadStored(i, id, _, _) => i < |j.uploads| && i < |j.c.content| && j.uploads[i].Pending? && id != NULL_ID
    case UploadFailed(i) => i < |j.uploads| && j.uploads[i].Pending?
    case UploadCounted(i) => i < |j.uploads| && j.uploads[i].Recorded?
  }

  function Apply(j: Job, step: Step): Job
    requires Enabled(j, step)
  {
    match step
    case PlaceChunk(len) =>
      j.(phase := Placed(len), c := j.c.(content := j.c.content + [NULL_ID], size := j.c.size + len))
    case IssueUpload => j.(phase := Issued, uploads := j.uploads + [Pending(j.phase.len)])
    case NextChunk => j.(phase := Looping)
    case Abort => j.(phase := Aborted, c := ErrorCompleted(j.c))
    case EndOfFile => j.(phase := NodeSet, c := j.c.(hasNode := true))
    case TopUp => j.(phase := ToppedUp, c := j.c.(remaining := j.c.remaining + |j.uploads| + 1))
    case ReportReading => j.(phase := ReadingDone, c := j.c.(log := j.c.log + [FinishReading]))
    case FinalComplete => j.(phase := Returned, c := BlobCompleted(j.c))
    case UploadStored(i, id, known, sizeInRepo) =>
      var b := Blob(j.uploads[i].len, id, known, sizeInRepo);
      j.(uploads := j.uploads[i := Recorded(b)], c := RecordBlob(j.c, i, b))
    case UploadFailed(i) => j.(uploads := j.uploads[i := Rejected(j.uploads[i].len)], c := ErrorCompleted(j.c))
    case UploadCounted(i) => j.(uploads := j.uploads[i := Counted(j.uploads[i].blob)], c := BlobCompleted(j.c))
  }

  /** The state a job is in after the given interleaving; `None` when a step was not enabled. */
  function After(steps: seq<Step>): Option<Job> {
    if steps == [] then Some(START) else Take(After(steps[..|steps| - 1]), steps[|steps| - 1])
  }

  function Take(j: Option<Job>, step: Step): Option<Job> {
    if j.Some? && Enabled(j.value, step) then Some(Apply(j.value, step)) else None
  }

  /** The reader has returned and every upload has run its callback to the end. */
  predicate Settled(j: Job) {
    && (j.phase.Returned? || j.phase.Aborted?)
    && forall i :: 0 <= i < |j.uploads| ==> j.uploads[i].Counted? || j.uploads[i].Rejected?
  }

  // ---------------------------------------------------------------------------------------
  // Sums over the uploads
  // ---------------------------------------------------------------------------------------

  function CountCounted(us: seq<Upload>): nat {
    if us == [] then 0 else CountCounted(us[..|us| - 1]) + (if us[|us| - 1].Counted? then 1 else 0)
  }

  function StatsOf(us: seq<Upload>): Stats {
    if us == [] then NO_STATS
    else
      var u, rest := us[|us| - 1], StatsOf(us[..|us| - 1]);
      if u.Recorded? || u.Counted? then AddBlob(rest, u.blob) else rest
  }

  function LenOf(u: Upload): nat {
    if u.Recorded? || u.Counted? then u.blob.len else u.len
  }

  function SizeOf(us: seq<Upload>): nat {
    if us == [] then 0 else SizeOf(us[..|us| - 1]) + LenOf(us[|us| - 1])
  }

  function StatsPlus(a: Stats, b: Stats): Stats {
    Stats(a.dataBlobs + b.dataBlobs, a.dataSize + b.dataSize, a.dataSizeInRepo + b.dataSizeInRepo)
  }

  function One(u: Upload): nat {
    if u.Counted? then 1 else 0
  }

  function StatsShare(u: Upload): Stats {
    if u.Recorded? || u.Counted? then AddBlob(NO_STATS, u.blob) else NO_STATS
  }

  /** Replacing one upload changes each sum by that upload's own share only. */
  lemma {:induction false} CountAfterUpdate(us: seq<Upload>, i: nat, u: Upload)
    requires i < |us|
    ensures CountCounted(us[i := u]) == CountCounted(us) - One(us[i]) + One(u)
  {
    var last := |us| - 1;
    if i == last {
      assert us[i := u][..last] == us[..last];
    } else {
      CountAfterUpdate(us[..last], i, u);
      assert us[i := u][..last] == us[..last][i := u];
    }
  }

  lemma {:induction false} StatsAfterUpdate(us: seq<Upload>, i: nat, u: Upload)
    requires i < |us|
    ensures StatsPlus(StatsOf(us[i := u]), StatsShare(us[i])) == StatsPlus(StatsOf(us), StatsShare(u))
  {
    var last := |us| - 1;
    if i == last {
      assert us[i := u][..last] == us[..last];
    } else {
      StatsAfterUpdate(us[..last], i, u);
      assert us[i := u][..last] == us[..last][i := u];
    }
  }

  lemma {:induction false} SizeAfterUpdate(us: seq<Upload>, i: nat, u: Upload)
    requires i < |us| && LenOf(u) == LenOf(us[i])
    ensures SizeOf(us[i := u]) == SizeOf(us)
  {
    var last := |us| - 1;
    if i == last {
      assert us[i := u][..last] == us[..last];
    } else {
      SizeAfterUpdate(us[..last], i, u);
      assert us[i := u][..last] == us[..last][i := u];
    }
  }

  lemma SumsAfterAppend(us: seq<Upload>, u: Upload)
    ensures CountCounted(us + [u]) == CountCounted(us) + One(u)
    ensures SizeOf(us + [u]) == SizeOf(us) + LenOf(u)
    ensures u.Pending? ==> StatsOf(us + [u]) == StatsOf(us)
  {
    assert (us + [u])[..|us|] == us;
  }

  lemma {:induction false} AllCounted(us: seq<Upload>)
    ensures CountCounted(us) <= |us|
    ensures CountCounted(us) == |us| <==> forall i :: 0 <= i < |us| ==> us[i].Counted?
  {
    if us != [] {
      var last := |us| - 1;
      AllCounted(us[..last]);
      if CountCounted(us) == |us| {
        forall i | 0 <= i < |us| ensures us[i].Counted? {
          if i < last { assert us[i] == us[..last][i]; }
        }
      }
    }
  }

  // ---------------------------------------------------------------------------------------
  // The invariant
  // ---------------------------------------------------------------------------------------

  ghost predicate SomeRejected(us: seq<Upload>) {
    exists i :: 0 <= i < |us| && us[i].Rejected?
  }

  /** How far the counter is ahead of (minus) the number of counted uploads, by phase. */
  function Ahead(j: Job): int {
    match j.phase
    case ToppedUp => |j.uploads| + 1
    case ReadingDone => |j.uploads| + 1
    case Returned => |j.uploads|
    case _ => 0
  }

  predicate ReadingReported(p: Phase) {
    p.ReadingDone? || p.Returned?
  }

  predicate PastEndOfFile(p: Phase) {
    p.NodeSet? || p.ToppedUp? || p.ReadingDone? || p.Returned?
  }

  /** Each slot holds the ID of its own chunk as soon as that chunk's upload is recorded. */
  ghost predicate ContentMatches(j: Job) {
    && |j.c.content| == |j.uploads| + (if j.phase.Placed? then 1 else 0)
    && forall i :: 0 <= i < |j.uploads| && (j.uploads[i].Recorded? || j.uploads[i].Counted?) ==>
         j.c.content[i] == j.uploads[i].blob.id && j.c.content[i] != NULL_ID
  }

  ghost predicate LogMatches(j: Job) {
    if j.c.failed then
      if ReadingReported(j.phase)
      then j.c.log == [FinishReading, Finish(Failed)] || j.c.log == [Finish(Failed), FinishReading]
      else j.c.log == [Finish(Failed)]
    else if j.c.isCompleted then
      j.c.log == [FinishReading, Finish(Saved(j.c.content, SizeOf(j.uploads), StatsOf(j.uploads)))]
    else
      j.c.log == if ReadingReported(j.phase) then [FinishReading] else []
  }

  ghost predicate Inv(j: Job) {
    && j.c.fault.NoFault?
    && ContentMatches(j)
    && LogMatches(j)
    && j.c.remaining == Ahead(j) - CountCounted(j.uploads)
    && j.c.size == SizeOf(j.uploads) + (if j.phase.Placed? then j.phase.len else 0)
    && (j.c.failed <==> j.phase.Aborted? || SomeRejected(j.uploads))
    && (j.c.failed ==> j.c.isCompleted)
    && (!j.c.failed ==> j.c.stats == StatsOf(j.uploads))
    && (!j.c.failed ==> (j.c.isCompleted <==> j.phase.Returned? && CountCounted(j.uploads) == |j.uploads|))
    && (!j.c.failed && PastEndOfFile(j.phase) ==> j.c.hasNode)
  }

  lemma ReaderKeepsInv(j: Job, step: Step)
    requires Inv(j) && Enabled(j, step)
    requires step.PlaceChunk? || step.IssueUpload? || step.NextChunk? || step.EndOfFile? || step.TopUp? || step.ReportReading?
    ensures Inv(Apply(j, step))
  {
    AllCounted(j.uploads);
    if step.IssueUpload? {
      var u := Pending(j.phase.len);
      SumsAfterAppend(j.uploads, u);
      var k := Apply(j, step);
      assert SomeRejected(j.uploads) ==> SomeRejected(k.uploads) by {
        if SomeRejected(j.uploads) {
          var i :| 0 <= i < |j.uploads| && j.uploads[i].Rejected?;
          assert k.uploads[i].Rejected?;
        }
      }
    }
  }

  lemma AbortKeepsInv(j: Job)
    requires Inv(j) && Enabled(j, Abort)
    ensures Inv(Apply(j, Abort))
  {
  }

  /** The last `CompleteBlob` of a job finds every slot filled. */
  lemma NoNullWhenAllCounted(j: Job)
    requires ContentMatches(j) && !j.phase.Placed? && CountCounted(j.uploads) == |j.uploads|
    ensures NULL_ID !in j.c.content
  {
    AllCounted(j.uploads);
  }

  lemma FinalCompleteKeepsInv(j: Job)
    requires Inv(j) && Enabled(j, FinalComplete)
    ensures Inv(Apply(j, FinalComplete))
  {
    AllCounted(j.uploads);
    if CountCounted(j.uploads) == |j.uploads| {
      NoNullWhenAllCounted(j);
    }
  }

  lemma UploadStoredKeepsInv(j: Job, step: Step)
    requires Inv(j) && Enabled(j, step) && step.UploadStored?
    ensures Inv(Apply(j, step))
  {
    var b := Blob(j.uploads[step.i].len, step.id, step.known, step.sizeInRepo);
    var k := Apply(j, step);
    CountAfterUpdate(j.uploads, step.i, Recorded(b));
    StatsAfterUpdate(j.uploads, step.i, Recorded(b));
    SizeAfterUpdate(j.uploads, step.i, Recorded(b));
    AllCounted(j.uploads);
    AllCounted(k.uploads);
    RejectedUnchanged(j.uploads, step.i, Recorded(b));
  }

  lemma RejectedUnchanged(us: seq<Upload>, i: nat, u: Upload)
    requires i < |us| && !us[i].Rejected? && !u.Rejected?
    ensures SomeRejected(us[i := u]) <==> SomeRejected(us)
  {
    if SomeRejected(us) {
      var k :| 0 <= k < |us| && us[k].Rejected?;
      assert us[i := u][k].Rejected?;
    }
  }

  lemma UploadFailedKeepsInv(j: Job, step: Step)
    requires Inv(j) && Enabled(j, step) && step.UploadFailed?
    ensures Inv(Apply(j, step))
  {
    var u := Rejected(j.uploads[step.i].len);
    var k := Apply(j, step);
    CountAfterUpdate(j.uploads, step.i, u);
    SizeAfterUpdate(j.uploads, step.i, u);
    AllCounted(j.uploads);
    assert k.uploads[step.i].Rejected?;
    assert SomeRejected(k.uploads);
  }

  /** Counting an upload leaves the size, the statistics and the slots alone. */
  lemma CountingKeepsSums(us: seq<Upload>, i: nat)
    requires i < |us| && us[i].Recorded?
    ensures var vs := us[i := Counted(us[i].blob)];
      && CountCounted(vs) == CountCounted(us) + 1
      && StatsOf(vs) == StatsOf(us)
      && SizeOf(vs) == SizeOf(us)
      && (SomeRejected(vs) <==> SomeRejected(us))
      && CountCounted(us) < |us|
  {
    var u := Counted(us[i].blob);
    CountAfterUpdate(us, i, u);
    StatsAfterUpdate(us, i, u);
    SizeAfterUpdate(us, i, u);
    RejectedUnchanged(us, i, u);
    AllCounted(us);
  }

  lemma UploadCountedKeepsInv(j: Job, step: Step)
    requires Inv(j) && Enabled(j, step) && step.UploadCounted?
    ensures Inv(Apply(j, step))
  {
    var us := j.uploads[step.i := Counted(j.uploads[step.i].blob)];
    CountingKeepsSums(j.uploads, step.i);
    var k := j.(uploads := us);
    assert ContentMatches(k);
    if !j.c.failed {
      assert !j.c.isCompleted;
      if j.c.remaining == 1 {
        assert CountCounted(us) == |us| && j.phase.Returned? by { AllCounted(us); }
        NoNullWhenAllCounted(k);
      }
    }
  }

  lemma {:induction false} ReachableInv(steps: seq<Step>)
    requires After(steps).Some?
    ensures Inv(After(steps).value)
  {
    if steps != [] {
      var last := |steps| - 1;
      ReachableInv(steps[..last]);
      var j, step := After(steps[..last]).value, steps[last];
      match step {
        case Abort => AbortKeepsInv(j);
        case FinalComplete => FinalCompleteKeepsInv(j);
        case UploadStored(_, _, _, _) => UploadStoredKeepsInv(j, step);
        case UploadFailed(_) => UploadFailedKeepsInv(j, step);
        case UploadCounted(_) => UploadCountedKeepsInv(j, step);
        case _ => ReaderKeepsInv(j, step);
      }
    }
  }

  // ---------------------------------------------------------------------------------------
  // What every interleaving guarantees
  // ---------------------------------------------------------------------------------------

  function Finishes(log: seq<Event>): nat {
    if log == [] then 0 else (if log[0].Finish? then 1 else 0) + Finishes(log[1..])
  }

  /** In a state of the invariant `finish` has been called once if the job is completed, else never. */
  lemma FinishesByCompletion(j: Job)
    requires Inv(j)
    ensures Finishes(j.c.log) == if j.c.isCompleted then 1 else 0
  {
    var log := j.c.log;
    if log != [] {
      var rest := log[1..];
      assert |log| == 2 ==> rest == [log[1]];
      assert rest != [] ==> rest[1..] == [];
      assert Finishes(rest) == if rest != [] && rest[0].Finish? then 1 else 0;
    }
  }

  /** No interleaving reaches a panic, `finish` is never called a second time, and every issued
      upload has its slot in the content list. */
  lemma {:induction false} NeverPanics(steps: seq<Step>)
    requires After(steps).Some?
    ensures After(steps).value.c.fault.NoFault?
    ensures Finishes(After(steps).value.c.log) <= 1
    ensures |After(steps).value.uploads| <= |After(steps).value.c.content|
  {
    ReachableInv(steps);
    FinishesByCompletion(After(steps).value);
  }

  /** Once the reader has returned and all callbacks have run, `finish` was called exactly once,
      with a node exactly when reading reached the end and no upload failed. */
  lemma {:induction false} SettledFinishedOnce(steps: seq<Step>)
    requires After(steps).Some? && Settled(After(steps).value)
    ensures var j := After(steps).value;
      && Finishes(j.c.log) == 1
      && ((exists e :: e in j.c.log && e.Finish? && e.outcome.Saved?) <==> j.phase.Returned? && !SomeRejected(j.uploads))
  {
    ReachableInv(steps);
    var j := After(steps).value;
    FinishesByCompletion(j);
    AllCounted(j.uploads);
    if !j.c.failed {
      assert j.c.log[1] in j.c.log;
    }
  }

  // ---------------------------------------------------------------------------------------
  // What the steps themselves say about the chunks
  // ---------------------------------------------------------------------------------------

  /** The lengths of the chunks that were read, in file order. */
  function ChunkLengths(steps: seq<Step>): seq<nat> {
    if steps == [] then []
    else
      var before, step := ChunkLengths(steps[..|steps| - 1]), steps[|steps| - 1];
      if step.PlaceChunk? then before + [step.len] else before
  }

  function Total(lengths: seq<nat>): nat {
    if lengths == [] then 0 else Total(lengths[..|lengths| - 1]) + lengths[|lengths| - 1]
  }

  /** The callback of upload `i` was given exactly what `b` says about the chunk. */
  predicate ReportedAs(steps: seq<Step>, i: nat, b: Blob) {
    UploadStored(i, b.id, b.known, b.sizeInRepo) in steps
  }

  /** Every upload has the length of its own chunk. */
  ghost predicate HasLengths(j: Job, lengths: seq<nat>) {
    && |lengths| == |j.uploads| + (if j.phase.Placed? then 1 else 0)
    && (j.phase.Placed? ==> lengths[|j.uploads|] == j.phase.len)
    && (forall i :: 0 <= i < |j.uploads| ==> LenOf(j.uploads[i]) == lengths[i])
  }

  lemma StepHasLengths(j: Job, step: Step, lengths: seq<nat>)
    requires Enabled(j, step) && HasLengths(j, lengths)
    ensures HasLengths(Apply(j, step), if step.PlaceChunk? then lengths + [step.len] else lengths)
  {
  }

  lemma {:induction false} LengthsFromSteps(steps: seq<Step>)
    requires After(steps).Some?
    ensures HasLengths(After(steps).value, ChunkLengths(steps))
  {
    if steps != [] {
      var last := |steps| - 1;
      LengthsFromSteps(steps[..last]);
      StepHasLengths(After(steps[..last]).value, steps[last], ChunkLengths(steps[..last]));
    }
  }

  /** A recorded upload has what its callback was given. */
  lemma {:induction false} ReportFromSteps(steps: seq<Step>, i: nat)
    requires After(steps).Some? && i < |After(steps).value.uploads|
    ensures var u := After(steps).value.uploads[i];
      u.Recorded? || u.Counted? ==> ReportedAs(steps, i, u.blob)
  {
    if steps != [] {
      var last := |steps| - 1;
      var before := steps[..last];
      assert steps[last] in steps;
      var us := After(before).value.uploads;
      if i < |us| {
        ReportFromSteps(before, i);
        assert us[i].Recorded? || us[i].Counted? ==> ReportedAs(steps, i, us[i].blob);
      }
    }
  }

  /** The upload that a callback reported on is recorded with exactly that report. */
  predicate HoldsReport(us: seq<Upload>, step: Step) {
    && step.UploadStored?
    && step.i < |us|
    && (us[step.i].Recorded? || us[step.i].Counted?)
    && var b := us[step.i].blob; step == UploadStored(step.i, b.id, b.known, b.sizeInRepo)
  }

  lemma StepHoldsReport(j: Job, next: Step, step: Step)
    requires Enabled(j, next) && (HoldsReport(j.uploads, step) || (next == step && step.UploadStored?))
    ensures HoldsReport(Apply(j, next).uploads, step)
  {
  }

  /** No report is lost or overwritten, so each upload is reported on at most once. */
  lemma {:induction false} ReportedOnce(steps: seq<Step>, step: Step)
    requires After(steps).Some? && step in steps && step.UploadStored?
    ensures HoldsReport(After(steps).value.uploads, step)
  {
    var last := |steps| - 1;
    var before := steps[..last];
    if step != steps[last] {
      assert step in before;
      ReportedOnce(before, step);
    }
    StepHoldsReport(After(before).value, steps[last], step);
  }

  /** The positions of the chunks that the repository did not have before. */
  ghost function NewPositions(us: seq<Upload>): set<nat> {
    set i: nat | i < |us| && us[i].Counted? && !us[i].blob.known
  }

  function NewLength(us: seq<Upload>): nat {
    if us == [] then 0
    else
      var u := us[|us| - 1];
      NewLength(us[..|us| - 1]) + (if u.Counted? && !u.blob.known then u.blob.len else 0)
  }

  function NewSizeInRepo(us: seq<Upload>): nat {
    if us == [] then 0
    else
      var u := us[|us| - 1];
      NewSizeInRepo(us[..|us| - 1]) + (if u.Counted? && !u.blob.known then u.blob.sizeInRepo else 0)
  }

  lemma NewPositionsSnoc(us: seq<Upload>, last: nat)
    requires |us| == last + 1 && us[last].Counted?
    ensures |NewPositions(us)| == |NewPositions(us[..last])| + if us[last].blob.known then 0 else 1
  {
    assert NewPositions(us) == NewPositions(us[..last]) + if us[last].blob.known then {} else {last};
  }

  lemma {:induction false} StatsAreSums(us: seq<Upload>)
    requires forall i :: 0 <= i < |us| ==> us[i].Counted?
    ensures StatsOf(us) == Stats(|NewPositions(us)|, NewLength(us), NewSizeInRepo(us))
  {
    if us == [] {
      assert NewPositions(us) == {};
    } else {
      var last: nat := |us| - 1;
      StatsAreSums(us[..last]);
      NewPositionsSnoc(us, last);
    }
  }

  lemma {:induction false} SizeIsTotal(us: seq<Upload>, lengths: seq<nat>)
    requires |us| == |lengths| && forall i :: 0 <= i < |us| ==> LenOf(us[i]) == lengths[i]
    ensures SizeOf(us) == Total(lengths)
  {
    if us != [] {
      SizeIsTotal(us[..|us| - 1], lengths[..|us| - 1]);
    }
  }

  /** A successful finish comes after the end of reading and after the last upload.  It carries one ID for
      each chunk read, in file order and as that chunk's own callback was given it, the total length of
      the chunks, and the number, length and stored size of exactly the chunks reported as new. */
  lemma {:induction false} SavedIsComplete(steps: seq<Step>, outcome: Outcome)
    requires After(steps).Some? && Finish(outcome) in After(steps).value.c.log && outcome.Saved?
    ensures var j := After(steps).value;
      && j.c.log == [FinishReading, Finish(outcome)]
      && j.phase.Returned?
      && |outcome.content| == |j.uploads| == |ChunkLengths(steps)|
      && (forall i :: 0 <= i < |j.uploads| ==> j.uploads[i].Counted? && outcome.content[i] == j.uploads[i].blob.id != NULL_ID)
      && (forall i :: 0 <= i < |j.uploads| ==>
            j.uploads[i].blob.len == ChunkLengths(steps)[i] && ReportedAs(steps, i, j.uploads[i].blob))
      && (forall step :: step in steps && step.UploadStored? ==> HoldsReport(j.uploads, step))
      && outcome.size == Total(ChunkLengths(steps))
      && outcome.stats == Stats(|NewPositions(j.uploads)|, NewLength(j.uploads), NewSizeInRepo(j.uploads))
  {
    ReachableInv(steps);
    LengthsFromSteps(steps);
    var us := After(steps).value.uploads;
    forall i | 0 <= i < |us| ensures us[i].Counted? ==> ReportedAs(steps, i, us[i].blob) {
      ReportFromSteps(steps, i);
    }
    forall step | step in steps && step.UploadStored? ensures HoldsReport(us, step) {
      ReportedOnce(steps, step);
    }
    AllCounted(us);
    StatsAreSums(us);
    SizeIsTotal(us, ChunkLengths(steps));
  }

  /** A job that is not settled can always take a step: no callback or reader is ever stuck. */
  lemma {:induction false} UnsettledHasStep(steps: seq<Step>)
    requires After(steps).Some? && !Settled(After(steps).value)
    ensures exists step :: Enabled(After(steps).value, step)
  {
    ReachableInv(steps);
    var j := After(steps).value;
    if j.phase.Returned? || j.phase.Aborted? {
      var i :| 0 <= i < |j.uploads| && !j.uploads[i].Counted? && !j.uploads[i].Rejected?;
      assert Enabled(j, if j.uploads[i].Pending? then UploadFailed(i) else UploadCounted(i));
    } else {
      assert Enabled(j, match j.phase
        case Looping => Abort
        case Placed(_) => IssueUpload
        case Issued => NextChunk
        case NodeSet => TopUp
        case ToppedUp => ReportReading
        case _ => FinalComplete);
    }
  }

  /** The only finish that can precede the end of reading is a failure. */
  lemma {:induction false} ReadingReportedFirst(steps: seq<Step>)
    requires After(steps).Some?
    ensures var log := After(steps).value.c.log;
      forall k :: 0 <= k < |log| && log[k].Finish? && FinishReading in log[k..] ==>
        log[k].outcome.Failed? && SomeRejected(After(steps).value.uploads)
  {
    ReachableInv(steps);
  }

  /** The finish was delivered before the end of reading was reported. */
  predicate FinishedFirst(log: seq<Event>) {
    log == [Finish(Failed), FinishReading]
  }

  /** Whether an upload failed before the end of reading was reported. */
  ghost predicate FailedBeforeReading(steps: seq<Step>) {
    exists p, q :: 0 <= p < q < |steps| && steps[p].UploadFailed? && steps[q].ReportReading?
  }

  ghost predicate SomeFailed(steps: seq<Step>) {
    exists p :: 0 <= p < |steps| && steps[p].UploadFailed?
  }

  lemma StepRejects(j: Job, step: Step)
    requires Enabled(j, step)
    ensures SomeRejected(Apply(j, step).uploads) <==> SomeRejected(j.uploads) || step.UploadFailed?
  {
    var us, vs := j.uploads, Apply(j, step).uploads;
    if i :| 0 <= i < |us| && us[i].Rejected? {
      assert vs[i].Rejected?;
    }
    if step.UploadFailed? {
      assert vs[step.i].Rejected?;
    }
    if i :| 0 <= i < |vs| && vs[i].Rejected? && !step.UploadFailed? {
      assert us[i].Rejected?;
    }
  }

  lemma {:induction false} RejectedWhen(steps: seq<Step>)
    requires After(steps).Some?
    ensures SomeRejected(After(steps).value.uploads) <==> SomeFailed(steps)
  {
    if steps != [] {
      var last := |steps| - 1;
      var before := steps[..last];
      RejectedWhen(before);
      StepRejects(After(before).value, steps[last]);
      if p :| 0 <= p < |before| && before[p].UploadFailed? {
        assert steps[p].UploadFailed?;
      }
      if p :| 0 <= p < |steps| && steps[p].UploadFailed? {
        assert p < last ==> before[p].UploadFailed?;
      }
    }
  }

  /** Only the report of the end of reading can bring the two out of order. */
  lemma StepFinishesFirst(j: Job, step: Step)
    requires Inv(j) && Enabled(j, step)
    ensures FinishedFirst(Apply(j, step).c.log) <==> if step.ReportReading? then SomeRejected(j.uploads) else FinishedFirst(j.c.log)
  {
    var log, log' := j.c.log, Apply(j, step).c.log;
    if |log'| > |log| {
      assert log' == log + [log'[|log|]];
      assert FinishedFirst(log') <==> log == [Finish(Failed)] && log'[|log|] == FinishReading by {
        assert FinishedFirst(log') ==> log == log'[..1];
      }
    } else {
      assert log' == log;
    }
  }

  lemma FailedBeforeSnoc(steps: seq<Step>)
    requires steps != []
    ensures var last := |steps| - 1;
      FailedBeforeReading(steps) <==> FailedBeforeReading(steps[..last]) || (steps[last].ReportReading? && SomeFailed(steps[..last]))
  {
    var last := |steps| - 1;
    var before := steps[..last];
    if p, q :| 0 <= p < q < |before| && before[p].UploadFailed? && before[q].ReportReading? {
      assert steps[p].UploadFailed? && steps[q].ReportReading?;
    }
    if steps[last].ReportReading? && SomeFailed(before) {
      var p :| 0 <= p < |before| && before[p].UploadFailed?;
      assert steps[p].UploadFailed? && steps[last].ReportReading?;
    }
    if p, q :| 0 <= p < q < |steps| && steps[p].UploadFailed? && steps[q].ReportReading? {
      assert before[p].UploadFailed?;
      assert q < last ==> before[q].ReportReading?;
    }
  }

  lemma StepReports(j: Job, step: Step)
    requires Enabled(j, step)
    ensures ReadingReported(Apply(j, step).phase) <==> ReadingReported(j.phase) || step.ReportReading?
  {
  }

  /** The phase tells whether the end of reading was reported. */
  lemma {:induction false} ReportedWhen(steps: seq<Step>)
    requires After(steps).Some?
    ensures ReadingReported(After(steps).value.phase) <==> exists q :: 0 <= q < |steps| && steps[q].ReportReading?
  {
    if steps != [] {
      var last := |steps| - 1;
      var before := steps[..last];
      ReportedWhen(before);
      StepReports(After(before).value, steps[last]);
      if q :| 0 <= q < |before| && before[q].ReportReading? {
        assert steps[q].ReportReading?;
      }
      if q :| 0 <= q < |steps| && steps[q].ReportReading? {
        assert q < last ==> before[q].ReportReading?;
      }
    }
  }

  /** The file is finished before the end of reading is reported exactly when an upload fails before
      that report. */
  lemma {:induction false} ReadingReportedLate(steps: seq<Step>)
    requires After(steps).Some?
    ensures FinishedFirst(After(steps).value.c.log) <==> FailedBeforeReading(steps)
  {
    if steps != [] {
      var last := |steps| - 1;
      var before := steps[..last];
      ReadingReportedLate(before);
      ReachableInv(before);
      RejectedWhen(before);
      FailedBeforeSnoc(steps);
      StepFinishesFirst(After(before).value, steps[last]);
      if steps[last].ReportReading? && FailedBeforeReading(before) {
        ReportedWhen(before);
      }
    }
  }

  /** The documented order of the two callbacks does not hold when an upload fails: the reader
      of a one-chunk file may report the end of reading after the failure was delivered. */
  lemma {:induction false} ReadingReportedAfterFailure()
    ensures exists steps :: After(steps).Some? && After(steps).value.c.log == [Finish(Failed), FinishReading]
  {
    var s2 := [] + [PlaceChunk(1)] + [IssueUpload];
    AfterSnoc([], PlaceChunk(1));
    AfterSnoc([] + [PlaceChunk(1)], IssueUpload);
    assert After(s2).Some? && After(s2).value.uploads == [Pending(1)] && After(s2).value.c.log == [];
    FailureBeforeReading(s2);
  }

  lemma FailureBeforeReading(s: seq<Step>)
    requires After(s).Some?
    requires var j := After(s).value; j.phase.Issued? && !j.c.failed && !j.c.isCompleted && j.c.log == [] && j.uploads == [Pending(1)]
    ensures exists steps :: After(steps).Some? && After(steps).value.c.log == [Finish(Failed), FinishReading]
  {
    AfterSnoc(s, UploadFailed(0));
    AfterSnoc(s + [UploadFailed(0)], NextChunk);
    AfterSnoc(s + [UploadFailed(0)] + [NextChunk], EndOfFile);
    AfterSnoc(s + [UploadFailed(0)] + [NextChunk] + [EndOfFile], TopUp);
    AfterSnoc(s + [UploadFailed(0)] + [NextChunk] + [EndOfFile] + [TopUp], ReportReading);
    assert After(s + [UploadFailed(0)] + [NextChunk] + [EndOfFile] + [TopUp] + [ReportReading]).value.c.log == [Finish(Failed), FinishReading];
  }

  lemma AfterSnoc(steps: seq<Step>, step: Step)
    ensures After(steps + [step]) == Take(After(steps), step)
  {
    assert (steps + [step])[..|steps|] == steps;
  }
}
