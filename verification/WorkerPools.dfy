/**
 The archiver's worker pools.

 The traversal goroutine walks the source in post-order and hands jobs over unbuffered
 channels to a pool of file workers and a pool of tree workers.  A tree worker blocks on the
 futures of the directory's entries, and keeps its worker while it blocks.  The pools must
 not deadlock for any positive number of workers, and must build the tree that a sequential
 traversal would build.
 */
module WorkerPools {
  import opened Wrappers

  /** What a finished job delivers. */
  datatype Value = FileValue(id: nat) | TreeValue(entries: seq<Value>)

  /** The source as the traversal meets it: an entry whose node is reused, a file, a directory. */
  datatype Item = Reused(value: Value) | File(id: nat) | Dir(children: seq<Item>)

  /** The sequential meaning. */
  function Eval(item: Item): Value {
    match item
    case Reused(value) => value
    case File(id) => FileValue(id)
    case Dir(children) => TreeValue(EvalAll(children))
  }

  function EvalAll(items: seq<Item>): seq<Value> {
    if items == [] then [] else [Eval(items[0])] + EvalAll(items[1..])
  }

  /** A future node: a result that is already there, or the channel of a job. */
  datatype Future = Now(value: Value) | Later(job: nat)

  datatype Job = FileJob(id: nat) | TreeJob(nodes: seq<Future>)

  /** The traversal: the jobs handed over so far become the longer list that includes `item`,
      and the caller gets the item's future. */
  function Submit(item: Item, jobs: seq<Job>): (seq<Job>, Future)
    decreases item, 0
  {
    match item
    case Reused(value) => (jobs, Now(value))
    case File(id) => (jobs + [FileJob(id)], Later(|jobs|))
    case Dir(children) =>
      var (jobs', nodes) := SubmitAll(children, jobs);
      (jobs' + [TreeJob(nodes)], Later(|jobs'|))
  }

  function SubmitAll(items: seq<Item>, jobs: seq<Job>): (seq<Job>, seq<Future>)
    decreases items, 1
  {
    if items == [] then (jobs, [])
    else
      var (jobs1, fn) := Submit(items[0], jobs);
      var (jobs2, fns) := SubmitAll(items[1..], jobs1);
      (jobs2, [fn] + fns)
  }

  // ---------------------------------------------------------------------------------------
  // Shape of the submitted jobs
  // ---------------------------------------------------------------------------------------

  /** Entry `i` of job `p` is the future of job `k`. */
  predicate Refers(jobs: seq<Job>, p: nat, i: nat, k: nat) {
    p < |jobs| && jobs[p].TreeJob? && i < |jobs[p].nodes| && jobs[p].nodes[i] == Later(k)
  }

  /** Futures belong to jobs handed over earlier, and no two entries share one. */
  ghost predicate WellFormed(jobs: seq<Job>) {
    && (forall p: nat, i: nat, k: nat :: Refers(jobs, p, i, k) ==> k < p)
    && (forall p: nat, i: nat, q: nat, j: nat, k: nat :: Refers(jobs, p, i, k) && Refers(jobs, q, j, k) ==> p == q && i == j)
  }

  ghost predicate Unclaimed(jobs: seq<Job>, k: nat) {
    forall p: nat, i: nat :: !Refers(jobs, p, i, k)
  }

  /** A list of futures created after the first `from` jobs, each claimed by no job and listed once. */
  ghost predicate FreshFutures(jobs: seq<Job>, from: nat, fns: seq<Future>) {
    && (forall i :: 0 <= i < |fns| && fns[i].Later? ==> from <= fns[i].job < |jobs| && Unclaimed(jobs, fns[i].job))
    && (forall i, j :: 0 <= i < |fns| && 0 <= j < |fns| && fns[i].Later? && fns[i] == fns[j] ==> i == j)
  }

  lemma {:induction false} SubmitShape(item: Item, jobs: seq<Job>)
    requires WellFormed(jobs)
    ensures var (jobs', fn) := Submit(item, jobs);
      && jobs <= jobs'
      && WellFormed(jobs')
      && FreshFutures(jobs', |jobs|, [fn])
      && (forall k: nat :: k < |jobs| && Unclaimed(jobs, k) ==> Unclaimed(jobs', k))
    decreases item, 0
  {
    match item
    case Reused(value) =>
    case File(id) =>
      AppendFile(jobs, id);
    case Dir(children) =>
      SubmitAllShape(children, jobs);
      var (jobs1, nodes) := SubmitAll(children, jobs);
      AppendTree(jobs1, |jobs|, nodes);
  }

  lemma AppendFile(jobs: seq<Job>, id: nat)
    requires WellFormed(jobs)
    ensures var jobs' := jobs + [FileJob(id)];
      && WellFormed(jobs')
      && Unclaimed(jobs', |jobs|)
      && (forall k: nat :: Unclaimed(jobs, k) ==> Unclaimed(jobs', k))
  {
    var jobs' := jobs + [FileJob(id)];
    assert forall p: nat, i: nat, k: nat :: Refers(jobs', p, i, k) ==> Refers(jobs, p, i, k);
  }

  lemma AppendTree(jobs: seq<Job>, from: nat, nodes: seq<Future>)
    requires WellFormed(jobs) && from <= |jobs| && FreshFutures(jobs, from, nodes)
    ensures var jobs' := jobs + [TreeJob(nodes)];
      && WellFormed(jobs')
      && Unclaimed(jobs', |jobs|)
      && (forall k: nat :: k < from && Unclaimed(jobs, k) ==> Unclaimed(jobs', k))
  {
    var jobs' := jobs + [TreeJob(nodes)];
    assert forall p: nat, i: nat, k: nat :: Refers(jobs', p, i, k) ==>
      Refers(jobs, p, i, k) || (p == |jobs| && i < |nodes| && nodes[i] == Later(k));
  }

  lemma {:induction false} SubmitAllShape(items: seq<Item>, jobs: seq<Job>)
    requires WellFormed(jobs)
    ensures var (jobs', fns) := SubmitAll(items, jobs);
      && jobs <= jobs'
      && WellFormed(jobs')
      && FreshFutures(jobs', |jobs|, fns)
      && (forall k: nat :: k < |jobs| && Unclaimed(jobs, k) ==> Unclaimed(jobs', k))
    decreases items, 1
  {
    if items != [] {
      var (jobs1, fn) := Submit(items[0], jobs);
      var (jobs2, fns) := SubmitAll(items[1..], jobs1);
      SubmitShape(items[0], jobs);
      SubmitAllShape(items[1..], jobs1);
      assert [fn][0] == fn;
    }
  }

  // ---------------------------------------------------------------------------------------
  // Value of each job
  // ---------------------------------------------------------------------------------------

  function JobValue(jobs: seq<Job>, k: nat): Value
    requires k < |jobs|
    decreases k, 1, 0
  {
    match jobs[k]
    case FileJob(id) => FileValue(id)
    case TreeJob(nodes) => TreeValue(FutureValues(jobs, k, nodes))
  }

  /** The value of a future of a job before `k`; a later job has no value here. */
  function FutureValue(jobs: seq<Job>, k: nat, fn: Future): Value
    requires k <= |jobs|
    decreases k, 0, 0
  {
    match fn
    case Now(value) => value
    case Later(job) => if job < k then JobValue(jobs, job) else TreeValue([])
  }

  function FutureValues(jobs: seq<Job>, k: nat, fns: seq<Future>): seq<Value>
    requires k <= |jobs|
    decreases k, 0, |fns| + 1
  {
    if fns == [] then [] else [FutureValue(jobs, k, fns[0])] + FutureValues(jobs, k, fns[1..])
  }

  lemma {:induction false} FutureValuesAt(jobs: seq<Job>, k: nat, fns: seq<Future>, i: nat)
    requires k <= |jobs|
    ensures |FutureValues(jobs, k, fns)| == |fns|
    ensures i < |fns| ==> FutureValues(jobs, k, fns)[i] == FutureValue(jobs, k, fns[i])
    decreases |fns|
  {
    if fns != [] {
      FutureValuesAt(jobs, k, fns[1..], if i == 0 then 0 else i - 1);
    }
  }

  /** Later jobs do not change the value of earlier ones. */
  lemma {:induction false} ValueStable(jobs: seq<Job>, more: seq<Job>, k: nat)
    requires k < |jobs| && jobs <= more
    ensures JobValue(more, k) == JobValue(jobs, k)
    decreases k, 1, 0
  {
    if jobs[k].TreeJob? {
      FutureValuesStable(jobs, more, k, k, jobs[k].nodes);
    }
  }

  lemma {:induction false} FutureValuesStable(jobs: seq<Job>, more: seq<Job>, k: nat, k': nat, fns: seq<Future>)
    requires k <= k' && k <= |jobs| && k' <= |more| && jobs <= more
    requires k == k' || forall i :: 0 <= i < |fns| && fns[i].Later? ==> fns[i].job < k
    ensures FutureValues(more, k', fns) == FutureValues(jobs, k, fns)
    decreases k, 0, |fns| + 1
  {
    if fns != [] {
      if fns[0].Later? && fns[0].job < k {
        ValueStable(jobs, more, fns[0].job);
      }
      FutureValuesStable(jobs, more, k, k', fns[1..]);
    }
  }

  /** The future handed back by the traversal stands for the sequential value of the item. */
  lemma {:induction false} SubmitValue(item: Item, jobs: seq<Job>)
    requires WellFormed(jobs)
    ensures var (jobs', fn) := Submit(item, jobs);
      FutureValue(jobs', |jobs'|, fn) == Eval(item)
    decreases item, 0
  {
    SubmitShape(item, jobs);
    match item
    case Reused(value) =>
    case File(id) =>
      assert (jobs + [FileJob(id)])[|jobs|] == FileJob(id);
    case Dir(children) =>
      SubmitAllValue(children, jobs);
      SubmitAllShape(children, jobs);
      var (jobs1, nodes) := SubmitAll(children, jobs);
      var jobs2 := jobs1 + [TreeJob(nodes)];
      FutureValuesStable(jobs1, jobs2, |jobs1|, |jobs1|, nodes);
      assert jobs2[|jobs1|] == TreeJob(nodes);
  }

  lemma {:induction false} SubmitAllValue(items: seq<Item>, jobs: seq<Job>)
    requires WellFormed(jobs)
    ensures var (jobs', fns) := SubmitAll(items, jobs);
      FutureValues(jobs', |jobs'|, fns) == EvalAll(items)
    decreases items, 1
  {
    if items != [] {
      var (jobs1, fn) := Submit(items[0], jobs);
      var (jobs2, fns) := SubmitAll(items[1..], jobs1);
      SubmitShape(items[0], jobs);
      SubmitValue(items[0], jobs);
      SubmitAllShape(items[1..], jobs1);
      SubmitAllValue(items[1..], jobs1);
      assert [fn][0] == fn;
      if fn.Later? {
        ValueStable(jobs1, jobs2, fn.job);
      }
      assert ([fn] + fns)[1..] == fns;
    }
  }

  // ---------------------------------------------------------------------------------------
  // The pools as a transition system
  // ---------------------------------------------------------------------------------------

  /** A job after it was handed over.  `Reading` occupies a file worker, `Taking` and
      `SavingTree` occupy a tree worker; a file's uploads finish without a worker. */
  datatype Task =
    | Reading
    | Uploading
    | Taking(got: seq<Value>)
    | SavingTree(got: seq<Value>)
    | Finished

  /** The job's result channel (capacity one, closed after the result was sent). */
  datatype Chan = Empty | Full(value: Value) | Drained

  datatype Pools = Pools(jobs: seq<Job>, fileWorkers: nat, treeWorkers: nat)

  datatype State = State(tasks: seq<Task>, chans: seq<Chan>, result: seq<Value>, noResult: bool)

  const START := State([], [], [], false)

  datatype Step =
    | HandOver
    | FinishReading(j: nat)
    | FinishUploads(j: nat)
    | TakeNext(j: nat)
    | StartSaving(j: nat)
    | FinishTree(j: nat)
    | TakeRoot

  predicate BusyFile(t: Task) { t.Reading? }

  predicate BusyTree(t: Task) { t.Taking? || t.SavingTree? }

  function CountFile(ts: seq<Task>): nat {
    if ts == [] then 0 else CountFile(ts[..|ts| - 1]) + (if BusyFile(ts[|ts| - 1]) then 1 else 0)
  }

  function CountTree(ts: seq<Task>): nat {
    if ts == [] then 0 else CountTree(ts[..|ts| - 1]) + (if BusyTree(ts[|ts| - 1]) then 1 else 0)
  }

  predicate Running(p: Pools, s: State, j: nat) {
    j < |s.tasks| && j < |s.chans| && j < |p.jobs|
  }

  predicate TakingTree(p: Pools, s: State, j: nat) {
    Running(p, s, j) && p.jobs[j].TreeJob? && s.tasks[j].Taking? && |s.tasks[j].got| <= |p.jobs[j].nodes|
  }

  /** A take blocks exactly while the future's channel is empty. */
  predicate Available(s: State, fn: Future) {
    fn.Now? || (fn.job < |s.chans| && !s.chans[fn.job].Empty?)
  }

  predicate Enabled(p: Pools, s: State, step: Step) {
    match step
    case HandOver =>
      && |s.tasks| < |p.jobs|
      && if p.jobs[|s.tasks|].FileJob? then CountFile(s.tasks) < p.fileWorkers else CountTree(s.tasks) < p.treeWorkers
    case FinishReading(j) => Running(p, s, j) && p.jobs[j].FileJob? && s.tasks[j].Reading?
    case FinishUploads(j) => Running(p, s, j) && p.jobs[j].FileJob? && s.tasks[j].Uploading?
    case TakeNext(j) =>
      && TakingTree(p, s, j)
      && |s.tasks[j].got| < |p.jobs[j].nodes|
      && Available(s, p.jobs[j].nodes[|s.tasks[j].got|])
    case StartSaving(j) => TakingTree(p, s, j) && |s.tasks[j].got| == |p.jobs[j].nodes|
    case FinishTree(j) => Running(p, s, j) && p.jobs[j].TreeJob? && s.tasks[j].SavingTree?
    case TakeRoot =>
      && s.result == [] && p.jobs != [] && |s.tasks| == |s.chans| == |p.jobs|
      && !s.chans[|p.jobs| - 1].Empty?
  }

  function Apply(p: Pools, s: State, step: Step): State
    requires Enabled(p, s, step)
  {
    match step
    case HandOver =>
      s.(tasks := s.tasks + [if p.jobs[|s.tasks|].FileJob? then Reading else Taking([])], chans := s.chans + [Empty])
    case FinishReading(j) => s.(tasks := s.tasks[j := Uploading])
    case FinishUploads(j) => s.(tasks := s.tasks[j := Finished], chans := s.chans[j := Full(FileValue(p.jobs[j].id))])
    case TakeNext(j) =>
      var got := s.tasks[j].got;
      (match p.jobs[j].nodes[|got|]
       case Now(value) => s.(tasks := s.tasks[j := Taking(got + [value])])
       case Later(k) =>
         if s.chans[k].Full?
         then s.(tasks := s.tasks[j := Taking(got + [s.chans[k].value])], chans := s.chans[k := Drained])
         else s.(noResult := true))
    case StartSaving(j) => s.(tasks := s.tasks[j := SavingTree(s.tasks[j].got)])
    case FinishTree(j) =>
      s.(tasks := s.tasks[j := Finished], chans := s.chans[j := Full(TreeValue(s.tasks[j].got))])
    case TakeRoot =>
      var root := |p.jobs| - 1;
      if s.chans[root].Full?
      then s.(result := [s.chans[root].value], chans := s.chans[root := Drained])
      else s.(noResult := true)
  }

  /** Whether `steps` is an interleaving that can happen, and the state it ends in. */
  function After(p: Pools, steps: seq<Step>): Option<State> {
    if steps == [] then Some(START)
    else
      var s := After(p, steps[..|steps| - 1]);
      if s.Some? && Enabled(p, s.value, steps[|steps| - 1])
      then Some(Apply(p, s.value, steps[|steps| - 1]))
      else None
  }

  // ---------------------------------------------------------------------------------------
  // The invariant
  // ---------------------------------------------------------------------------------------

  /** How many futures job `q` has taken. */
  function Taken(p: Pools, s: State, q: nat): nat
    requires q < |s.tasks| && q < |p.jobs|
  {
    match s.tasks[q]
    case Taking(got) => |got|
    case SavingTree(got) => |got|
    case Finished => if p.jobs[q].TreeJob? then |p.jobs[q].nodes| else 0
    case _ => 0
  }

  ghost predicate GotValues(p: Pools, j: nat, got: seq<Value>)
    requires j < |p.jobs| && p.jobs[j].TreeJob?
  {
    got <= FutureValues(p.jobs, j, p.jobs[j].nodes)
  }

  ghost predicate TaskFits(p: Pools, s: State, j: nat)
    requires j < |s.tasks| && j < |p.jobs|
  {
    match s.tasks[j]
    case Reading => p.jobs[j].FileJob?
    case Uploading => p.jobs[j].FileJob?
    case Taking(got) => p.jobs[j].TreeJob? && GotValues(p, j, got)
    case SavingTree(got) => p.jobs[j].TreeJob? && got == FutureValues(p.jobs, j, p.jobs[j].nodes)
    case Finished => true
  }

  ghost predicate ChanFits(p: Pools, s: State, j: nat)
    requires j < |s.tasks| && j < |s.chans| && j < |p.jobs|
  {
    && (s.chans[j].Empty? <==> !s.tasks[j].Finished?)
    && (s.chans[j].Full? ==> s.chans[j].value == JobValue(p.jobs, j))
  }

  /** Some job has taken the result of job `k`. */
  ghost predicate TakenBySome(p: Pools, s: State, k: nat)
    requires |s.tasks| <= |p.jobs|
  {
    exists q: nat, i: nat :: q < |s.tasks| && Refers(p.jobs, q, i, k) && i < Taken(p, s, q)
  }

  ghost predicate Inv(p: Pools, s: State) {
    && WellFormed(p.jobs)
    && !s.noResult
    && |s.tasks| == |s.chans| <= |p.jobs|
    && (forall j :: 0 <= j < |s.tasks| ==> TaskFits(p, s, j))
    && (forall j :: 0 <= j < |s.tasks| ==> ChanFits(p, s, j))
    && (forall k :: 0 <= k < |s.tasks| && s.chans[k].Drained? ==> TakenBySome(p, s, k) || (k == |p.jobs| - 1 && s.result != []))
    && (s.result != [] ==> |s.tasks| == |p.jobs| > 0 && s.result == [JobValue(p.jobs, |p.jobs| - 1)])
    && CountFile(s.tasks) <= p.fileWorkers
    && CountTree(s.tasks) <= p.treeWorkers
  }

  lemma {:induction false} CountsAfterUpdate(ts: seq<Task>, j: nat, t: Task)
    requires j < |ts|
    ensures CountFile(ts[j := t]) == CountFile(ts) - (if BusyFile(ts[j]) then 1 else 0) + (if BusyFile(t) then 1 else 0)
    ensures CountTree(ts[j := t]) == CountTree(ts) - (if BusyTree(ts[j]) then 1 else 0) + (if BusyTree(t) then 1 else 0)
  {
    var last := |ts| - 1;
    if j == last {
      assert ts[j := t][..last] == ts[..last];
    } else {
      CountsAfterUpdate(ts[..last], j, t);
      assert ts[j := t][..last] == ts[..last][j := t];
    }
  }

  /** What has been taken stays taken when no job forgets a future. */
  lemma TakenGrows(p: Pools, s: State, s': State, k: nat)
    requires |s.tasks| <= |s'.tasks| <= |p.jobs|
    requires forall q: nat :: q < |s.tasks| ==> Taken(p, s, q) <= Taken(p, s', q)
    requires TakenBySome(p, s, k)
    ensures TakenBySome(p, s', k)
  {
    var q: nat, i: nat :| q < |s.tasks| && Refers(p.jobs, q, i, k) && i < Taken(p, s, q);
    assert Refers(p.jobs, q, i, k) && i < Taken(p, s', q);
  }

  /** A future that its job has not taken yet was taken by nobody. */
  lemma NotYetTaken(p: Pools, s: State, j: nat, i: nat, k: nat)
    requires Inv(p, s) && j < |s.tasks| && Refers(p.jobs, j, i, k) && i >= Taken(p, s, j)
    ensures k < |s.tasks| && !s.chans[k].Drained?
  {
  }

  lemma HandOverKeepsInv(p: Pools, s: State)
    requires Inv(p, s) && Enabled(p, s, HandOver)
    ensures Inv(p, Apply(p, s, HandOver))
  {
    var s' := Apply(p, s, HandOver);
    assert s'.tasks[..|s.tasks|] == s.tasks;
    forall q | 0 <= q < |s'.tasks| ensures TaskFits(p, s', q) && ChanFits(p, s', q) {
      assert q < |s.tasks| ==> TaskFits(p, s, q) && ChanFits(p, s, q);
    }
    forall k | 0 <= k < |s.tasks| && s.chans[k].Drained? && TakenBySome(p, s, k) ensures TakenBySome(p, s', k) {
      TakenGrows(p, s, s', k);
    }
  }

  /** Any step that moves only task `j` on, without touching a channel that is full or drained. */
  lemma TaskStepKeepsInv(p: Pools, s: State, s': State, j: nat)
    requires Inv(p, s) && j < |s.tasks|
    requires s'.noResult == s.noResult && s'.result == s.result && |s'.tasks| == |s.tasks| && |s'.chans| == |s.chans|
    requires s'.tasks == s.tasks[j := s'.tasks[j]] && s'.chans == s.chans[j := s'.chans[j]]
    requires !s.tasks[j].Finished?
    requires TaskFits(p, s', j) && ChanFits(p, s', j) && !s'.chans[j].Drained? && Taken(p, s, j) <= Taken(p, s', j)
    requires BusyFile(s'.tasks[j]) ==> BusyFile(s.tasks[j])
    requires BusyTree(s'.tasks[j]) ==> BusyTree(s.tasks[j])
    ensures Inv(p, s')
  {
    CountsAfterUpdate(s.tasks, j, s'.tasks[j]);
    forall i | 0 <= i < |s'.tasks| ensures TaskFits(p, s', i) && ChanFits(p, s', i) {
      assert i != j ==> TaskFits(p, s, i) && ChanFits(p, s, i);
    }
    forall k | 0 <= k < |s'.tasks| && s'.chans[k].Drained? && TakenBySome(p, s, k) ensures TakenBySome(p, s', k) {
      TakenGrows(p, s, s', k);
    }
  }

  lemma TakeKeepsInv(p: Pools, s: State, j: nat)
    requires Inv(p, s) && Enabled(p, s, TakeNext(j))
    ensures Inv(p, Apply(p, s, TakeNext(j)))
  {
    var got, nodes := s.tasks[j].got, p.jobs[j].nodes;
    var fn, s' := nodes[|got|], Apply(p, s, TakeNext(j));
    FutureValuesAt(p.jobs, j, nodes, |got|);
    assert TaskFits(p, s, j) && ChanFits(p, s, j);
    var all := FutureValues(p.jobs, j, nodes);
    assert got + [all[|got|]] <= all;
    match fn {
      case Now(value) =>
        TaskStepKeepsInv(p, s, s', j);
      case Later(k) =>
        assert Refers(p.jobs, j, |got|, k);
        NotYetTaken(p, s, j, |got|, k);
        assert ChanFits(p, s, k);
        var s1 := s.(tasks := s'.tasks);
        assert s'.tasks[j] == Taking(got + [JobValue(p.jobs, k)]);
        TaskStepKeepsInv(p, s, s1, j);
        DrainKeepsInv(p, s1, s', j, |got|, k);
    }
  }

  /** Emptying the channel of a job whose result has just been taken. */
  lemma DrainKeepsInv(p: Pools, s: State, s': State, j: nat, i: nat, k: nat)
    requires Inv(p, s) && j < |s.tasks| && Refers(p.jobs, j, i, k) && i < Taken(p, s, j)
    requires k < |s.tasks| && s.chans[k].Full? && s' == s.(chans := s.chans[k := Drained])
    ensures Inv(p, s')
  {
    forall q | 0 <= q < |s'.tasks| ensures TaskFits(p, s', q) && ChanFits(p, s', q) {
      assert TaskFits(p, s, q) && ChanFits(p, s, q);
    }
    assert TakenBySome(p, s', k) by {
      assert Refers(p.jobs, j, i, k) && i < Taken(p, s', j);
    }
    forall q | 0 <= q < |s'.tasks| && s'.chans[q].Drained? && TakenBySome(p, s, q) ensures TakenBySome(p, s', q) {
      TakenGrows(p, s, s', q);
    }
  }

  /** No job waits for the root: only the traversal takes its result, and only once. */
  lemma RootUntaken(p: Pools, s: State)
    requires Inv(p, s) && |s.tasks| == |p.jobs| > 0
    ensures !TakenBySome(p, s, |p.jobs| - 1)
  {
  }

  lemma TakeRootKeepsInv(p: Pools, s: State)
    requires Inv(p, s) && Enabled(p, s, TakeRoot)
    ensures Inv(p, Apply(p, s, TakeRoot))
  {
    var root, s' := |p.jobs| - 1, Apply(p, s, TakeRoot);
    RootUntaken(p, s);
    assert ChanFits(p, s, root);
    forall q | 0 <= q < |s'.tasks| ensures TaskFits(p, s', q) && ChanFits(p, s', q) {
      assert TaskFits(p, s, q) && ChanFits(p, s, q);
    }
    forall q | 0 <= q < |s'.tasks| && s'.chans[q].Drained? && TakenBySome(p, s, q) ensures TakenBySome(p, s', q) {
      TakenGrows(p, s, s', q);
    }
  }

  lemma StepKeepsInv(p: Pools, s: State, step: Step)
    requires Inv(p, s) && Enabled(p, s, step)
    ensures Inv(p, Apply(p, s, step))
  {
    match step {
      case HandOver => HandOverKeepsInv(p, s);
      case TakeNext(j) => TakeKeepsInv(p, s, j);
      case TakeRoot => TakeRootKeepsInv(p, s);
      case FinishReading(j) => assert ChanFits(p, s, j); TaskStepKeepsInv(p, s, Apply(p, s, step), j);
      case FinishUploads(j) => TaskStepKeepsInv(p, s, Apply(p, s, step), j);
      case StartSaving(j) =>
        assert ChanFits(p, s, j) && TaskFits(p, s, j);
        FutureValuesAt(p.jobs, j, p.jobs[j].nodes, 0);
        TaskStepKeepsInv(p, s, Apply(p, s, step), j);
      case FinishTree(j) =>
        assert TaskFits(p, s, j);
        FutureValuesAt(p.jobs, j, p.jobs[j].nodes, 0);
        TaskStepKeepsInv(p, s, Apply(p, s, step), j);
    }
  }

  lemma {:induction false} ReachableInv(p: Pools, steps: seq<Step>)
    requires WellFormed(p.jobs) && After(p, steps).Some?
    ensures Inv(p, After(p, steps).value)
  {
    if steps != [] {
      var last := |steps| - 1;
      ReachableInv(p, steps[..last]);
      StepKeepsInv(p, After(p, steps[..last]).value, steps[last]);
    }
  }

  // ---------------------------------------------------------------------------------------
  // Progress and termination
  // ---------------------------------------------------------------------------------------

  ghost predicate AllFinished(s: State) {
    forall j :: 0 <= j < |s.tasks| ==> s.tasks[j].Finished?
  }

  lemma {:induction false} IdleWhenFinished(ts: seq<Task>)
    requires forall j :: 0 <= j < |ts| ==> ts[j].Finished?
    ensures CountFile(ts) == 0 && CountTree(ts) == 0
  {
    if ts != [] {
      IdleWhenFinished(ts[..|ts| - 1]);
    }
  }

  lemma {:induction false} FirstUnfinished(s: State, bound: nat) returns (u: nat)
    requires bound < |s.tasks| && !s.tasks[bound].Finished?
    ensures u <= bound && !s.tasks[u].Finished? && forall j :: 0 <= j < u ==> s.tasks[j].Finished?
    decreases bound
  {
    if j :| 0 <= j < bound && !s.tasks[j].Finished? {
      u := FirstUnfinished(s, j);
    } else {
      u := bound;
    }
  }

  predicate JobStep(step: Step) {
    !step.HandOver? && !step.TakeRoot?
  }

  /** Whenever a handed-over job is unfinished, the workers and uploads can move on by themselves. */
  lemma NoDeadlock(p: Pools, s: State)
    requires Inv(p, s) && !AllFinished(s)
    ensures exists step :: JobStep(step) && Enabled(p, s, step)
  {
    var b :| 0 <= b < |s.tasks| && !s.tasks[b].Finished?;
    var u := FirstUnfinished(s, b);
    assert TaskFits(p, s, u);
    match s.tasks[u] {
      case Reading => assert Enabled(p, s, FinishReading(u));
      case Uploading => assert Enabled(p, s, FinishUploads(u));
      case SavingTree(got) => assert Enabled(p, s, FinishTree(u));
      case Taking(got) =>
        var nodes := p.jobs[u].nodes;
        FutureValuesAt(p.jobs, u, nodes, 0);
        if |got| == |nodes| {
          assert Enabled(p, s, StartSaving(u));
        } else {
          var fn := nodes[|got|];
          if fn.Later? {
            assert Refers(p.jobs, u, |got|, fn.job);
            assert ChanFits(p, s, fn.job);
          }
          assert Enabled(p, s, TakeNext(u));
        }
      case Finished => assert false;
    }
  }

  /** With at least one worker of each kind the backup as a whole is never stuck. */
  lemma NeverStuck(p: Pools, s: State)
    requires Inv(p, s) && p.jobs != [] && p.fileWorkers > 0 && p.treeWorkers > 0
    requires s.result == []
    ensures exists step :: Enabled(p, s, step)
  {
    if AllFinished(s) {
      IdleWhenFinished(s.tasks);
      if |s.tasks| < |p.jobs| {
        assert Enabled(p, s, HandOver);
      } else {
        assert ChanFits(p, s, |p.jobs| - 1);
        assert Enabled(p, s, TakeRoot);
      }
    } else {
      NoDeadlock(p, s);
    }
  }

  /** The number of steps a job still needs. */
  function TaskWork(p: Pools, s: State, j: nat): nat
    requires j < |p.jobs|
  {
    match p.jobs[j]
    case FileJob(_) =>
      if j >= |s.tasks| then 3 else (match s.tasks[j] case Reading => 2 case Uploading => 1 case _ => 0)
    case TreeJob(nodes) =>
      if j >= |s.tasks| then |nodes| + 3
      else (match s.tasks[j]
            case Taking(got) => if |got| <= |nodes| then |nodes| - |got| + 2 else 0
            case SavingTree(_) => 1
            case _ => 0)
  }

  function Work(p: Pools, s: State, n: nat): nat
    requires n <= |p.jobs|
  {
    if n == 0 then (if s.result == [] then 1 else 0) else Work(p, s, n - 1) + TaskWork(p, s, n - 1)
  }

  lemma {:induction false} WorkChange(p: Pools, s: State, s': State, n: nat, j: nat)
    requires n <= |p.jobs| && (s.result == [] <==> s'.result == []) && j < |p.jobs|
    requires forall i: nat :: i < |p.jobs| && i != j ==> TaskWork(p, s', i) == TaskWork(p, s, i)
    requires TaskWork(p, s', j) + 1 == TaskWork(p, s, j)
    ensures Work(p, s', n) + (if j < n then 1 else 0) == Work(p, s, n)
  {
    if n > 0 {
      WorkChange(p, s, s', n - 1, j);
    }
  }

  lemma {:induction false} WorkSame(p: Pools, s: State, s': State, n: nat)
    requires n <= |p.jobs| && s'.tasks == s.tasks && s.result == [] && s'.result != []
    ensures Work(p, s', n) + 1 == Work(p, s, n)
  {
    if n > 0 {
      WorkSame(p, s, s', n - 1);
    }
  }

  lemma TaskStepDoesWork(p: Pools, s: State, s': State, j: nat)
    requires |s.tasks| <= |p.jobs| && j < |s.tasks| && s'.result == s.result
    requires |s'.tasks| == |s.tasks| && s'.tasks == s.tasks[j := s'.tasks[j]]
    requires TaskWork(p, s', j) + 1 == TaskWork(p, s, j)
    ensures Work(p, s', |p.jobs|) + 1 == Work(p, s, |p.jobs|)
  {
    WorkChange(p, s, s', |p.jobs|, j);
  }

  /** Every step does exactly one unit of the remaining work. */
  lemma StepDoesWork(p: Pools, s: State, step: Step)
    requires Inv(p, s) && Enabled(p, s, step)
    ensures Work(p, Apply(p, s, step), |p.jobs|) + 1 == Work(p, s, |p.jobs|)
  {
    var s' := Apply(p, s, step);
    StepKeepsInv(p, s, step);
    match step {
      case HandOver => WorkChange(p, s, s', |p.jobs|, |s.tasks|);
      case TakeRoot => WorkSame(p, s, s', |p.jobs|);
      case TakeNext(j) => TaskStepDoesWork(p, s, s', j);
      case FinishReading(j) => TaskStepDoesWork(p, s, s', j);
      case FinishUploads(j) => TaskStepDoesWork(p, s, s', j);
      case StartSaving(j) => TaskStepDoesWork(p, s, s', j);
      case FinishTree(j) => TaskStepDoesWork(p, s, s', j);
    }
  }

  lemma {:induction false} RunLength(p: Pools, steps: seq<Step>)
    requires WellFormed(p.jobs) && After(p, steps).Some?
    ensures |steps| + Work(p, After(p, steps).value, |p.jobs|) == Work(p, START, |p.jobs|)
  {
    if steps != [] {
      var last := |steps| - 1;
      RunLength(p, steps[..last]);
      ReachableInv(p, steps[..last]);
      StepDoesWork(p, After(p, steps[..last]).value, steps[last]);
    }
  }

  // ---------------------------------------------------------------------------------------
  // Main results, over every source and every interleaving
  // ---------------------------------------------------------------------------------------

  function PoolsFor(children: seq<Item>, fileWorkers: nat, treeWorkers: nat): Pools {
    Pools(Submit(Dir(children), []).0, fileWorkers, treeWorkers)
  }

  lemma {:induction false} PoolsForShape(children: seq<Item>)
    ensures var (jobs, fn) := Submit(Dir(children), []);
      && WellFormed(jobs) && jobs != [] && fn == Later(|jobs| - 1)
      && JobValue(jobs, |jobs| - 1) == Eval(Dir(children))
  {
    SubmitShape(Dir(children), []);
    SubmitValue(Dir(children), []);
  }

  /** In every interleaving of the backup of any source: no future is ever read twice, the pools
      hold no more busy workers than they have, and as long as the root is not delivered some
      step is possible. */
  lemma {:induction false} BackupNeverDeadlocks(children: seq<Item>, fileWorkers: nat, treeWorkers: nat, steps: seq<Step>)
    requires fileWorkers > 0 && treeWorkers > 0
    requires After(PoolsFor(children, fileWorkers, treeWorkers), steps).Some?
    ensures var p := PoolsFor(children, fileWorkers, treeWorkers);
      var s := After(p, steps).value;
      && !s.noResult
      && CountFile(s.tasks) <= fileWorkers && CountTree(s.tasks) <= treeWorkers
      && (s.result == [] ==> exists step :: Enabled(p, s, step))
      && (!AllFinished(s) ==> exists step :: JobStep(step) && Enabled(p, s, step))
  {
    var p := PoolsFor(children, fileWorkers, treeWorkers);
    PoolsForShape(children);
    ReachableInv(p, steps);
    var s := After(p, steps).value;
    if s.result == [] {
      NeverStuck(p, s);
    }
    if !AllFinished(s) {
      NoDeadlock(p, s);
    }
  }

  /** Every interleaving is finite, and one that cannot go on has delivered the tree that the
      sequential traversal builds, with all jobs finished. */
  lemma {:induction false} BackupDeliversTree(children: seq<Item>, fileWorkers: nat, treeWorkers: nat, steps: seq<Step>)
    requires fileWorkers > 0 && treeWorkers > 0
    requires After(PoolsFor(children, fileWorkers, treeWorkers), steps).Some?
    ensures var p := PoolsFor(children, fileWorkers, treeWorkers);
      var s := After(p, steps).value;
      && |steps| <= Work(p, START, |p.jobs|)
      && (s.result != [] ==> s.result == [Eval(Dir(children))])
      && ((forall step :: !Enabled(p, s, step)) ==> s.result != [] && |s.tasks| == |p.jobs| && AllFinished(s))
  {
    var p := PoolsFor(children, fileWorkers, treeWorkers);
    PoolsForShape(children);
    ReachableInv(p, steps);
    RunLength(p, steps);
    var s := After(p, steps).value;
    if forall step :: !Enabled(p, s, step) {
      if s.result == [] {
        NeverStuck(p, s);
      }
      if !AllFinished(s) {
        NoDeadlock(p, s);
      }
    }
  }
}
