/**
 Concurrent lookups in the blob cache.

 A call looks the blob up, then registers a progress channel or waits for the one that is
 there, looks again, and computes the blob itself if it has to.  Every access to the cache or
 to the table of channels is one step; between any two steps any other call may run and any
 blob may be evicted.
 */
module BlobCacheCalls {
  import opened Wrappers

  type ID = nat

  type Blob = nat

  datatype Outcome = Found(blob: Blob) | Failed

  /** Where a call is.  An owner is a call that registered its channel. */
  datatype Place =
    | Start
    | Missed
    | Waiting(on: nat)
    | Retry(owner: bool)
    | Compute(owner: bool)
    | Store(owner: bool, blob: Blob)
    | Unregister(result: Outcome)
    | Closing(result: Outcome)
    | Done(owner: bool, result: Outcome)

  datatype Call = Call(id: ID, at: Place)

  datatype State = State(
    calls: seq<Call>,
    cache: map<ID, Blob>,
    inProgress: map<ID, nat>,
    closed: seq<nat>,
    produced: set<(ID, Blob)>,
    computed: multiset<ID>)

  function Init(ids: seq<ID>): State {
    State(seq(|ids|, i requires 0 <= i < |ids| => Call(ids[i], Start)), map[], map[], seq(|ids|, i => 0), {}, multiset{})
  }

  datatype Action = Look | Register | Wake | LookAgain | Succeed(blob: Blob) | Fail | Keep(fits: bool) | Delete | Close

  datatype Step = Do(c: nat, action: Action) | Evict(id: ID)

  predicate Ready(s: State, at: Place, action: Action) {
    match action
    case Look => at.Start?
    case Register => at.Missed?
    case Wake => at.Waiting? && at.on < |s.closed| && s.closed[at.on] > 0
    case LookAgain => at.Retry?
    case Succeed(_) => at.Compute?
    case Fail => at.Compute?
    case Keep(_) => at.Store?
    case Delete => at.Unregister?
    case Close => at.Closing?
  }

  predicate Enabled(s: State, step: Step) {
    match step
    case Evict(_) => true
    case Do(c, action) => c < |s.calls| == |s.closed| && Ready(s, s.calls[c].at, action)
  }

  function MoveTo(s: State, c: nat, at: Place): State
    requires c < |s.calls|
  {
    s.(calls := s.calls[c := s.calls[c].(at := at)])
  }

  /** The owner's deferred function still has to run. */
  function Finish(owner: bool, result: Outcome): Place {
    if owner then Unregister(result) else Done(false, result)
  }

  function Act(s: State, c: nat, action: Action): State
    requires c < |s.calls| == |s.closed| && Ready(s, s.calls[c].at, action)
  {
    var id, at := s.calls[c].id, s.calls[c].at;
    match action
    case Look => MoveTo(s, c, if id in s.cache then Done(false, Found(s.cache[id])) else Missed)
    case Register =>
      if id in s.inProgress then MoveTo(s, c, Waiting(s.inProgress[id]))
      else MoveTo(s.(inProgress := s.inProgress[id := c]), c, Retry(true))
    case Wake => MoveTo(s, c, Retry(false))
    case LookAgain =>
      MoveTo(s, c, if id in s.cache then Finish(at.owner, Found(s.cache[id])) else Compute(at.owner))
    case Succeed(blob) =>
      MoveTo(s.(produced := s.produced + {(id, blob)}, computed := s.computed + multiset{id}), c, Store(at.owner, blob))
    case Fail => MoveTo(s.(computed := s.computed + multiset{id}), c, Finish(at.owner, Failed))
    case Keep(fits) =>
      MoveTo(if fits && id !in s.cache then s.(cache := s.cache[id := at.blob]) else s, c, Finish(at.owner, Found(at.blob)))
    case Delete => MoveTo(s.(inProgress := s.inProgress - {id}), c, Closing(at.result))
    case Close => MoveTo(s.(closed := s.closed[c := s.closed[c] + 1]), c, Done(true, at.result))
  }

  function Apply(s: State, step: Step): State
    requires Enabled(s, step)
  {
    match step
    case Evict(id) => s.(cache := s.cache - {id})
    case Do(c, action) => Act(s, c, action)
  }

  /** The state after a run, if every step of it was possible. */
  function After(ids: seq<ID>, steps: seq<Step>): Option<State> {
    if steps == [] then Some(Init(ids))
    else
      var before := After(ids, steps[..|steps| - 1]);
      if before.Some? && Enabled(before.value, steps[|steps| - 1])
      then Some(Apply(before.value, steps[|steps| - 1])) else None
  }

  // ---------------------------------------------------------------------------------------
  // The cache
  // ---------------------------------------------------------------------------------------

  /** A call stores a blob that fits under the ID it was computed for. */
  predicate Keeps(s: State, step: Step, id: ID) {
    step.Do? && step.action == Keep(true) && step.c < |s.calls| && s.calls[step.c].id == id
  }

  /** The step computes the blob, with or without success. */
  predicate Computes(s: State, step: Step, id: ID) {
    step.Do? && (step.action.Succeed? || step.action.Fail?) && step.c < |s.calls| && s.calls[step.c].id == id
  }

  /** Only an eviction removes a blob, nothing replaces one, and only what a call computed comes in. */
  lemma CacheChanges(s: State, step: Step, id: ID)
    requires Enabled(s, step)
    ensures var t := Apply(s, step);
      && (id in s.cache ==> (id in t.cache <==> step != Evict(id)) && (id in t.cache ==> t.cache[id] == s.cache[id]))
      && (id !in s.cache ==> (id in t.cache <==> Keeps(s, step, id)) && (id in t.cache ==> t.cache[id] == s.calls[step.c].at.blob))
      && t.computed[id] == s.computed[id] + if Computes(s, step, id) then 1 else 0
  {
  }

  /** A blob stays in the cache, unchanged, until it is evicted. */
  lemma {:induction false} StaysCached(ids: seq<ID>, steps: seq<Step>, more: seq<Step>, id: ID)
    requires After(ids, steps).Some? && After(ids, steps + more).Some?
    requires id in After(ids, steps).value.cache && Evict(id) !in more
    ensures id in After(ids, steps + more).value.cache
    ensures After(ids, steps + more).value.cache[id] == After(ids, steps).value.cache[id]
  {
    if more == [] {
      assert steps + more == steps;
    } else {
      var last := |more| - 1;
      assert (steps + more)[..|steps + more| - 1] == steps + more[..last];
      StaysCached(ids, steps, more[..last], id);
      CacheChanges(After(ids, steps + more[..last]).value, more[last], id);
    }
  }

  // ---------------------------------------------------------------------------------------
  // Values
  // ---------------------------------------------------------------------------------------

  predicate Result?(at: Place) {
    at.Unregister? || at.Closing? || at.Done?
  }

  /** What a call has in hand was produced for its ID. */
  predicate Genuine(produced: set<(ID, Blob)>, call: Call) {
    && (call.at.Store? ==> (call.id, call.at.blob) in produced)
    && (Result?(call.at) && call.at.result.Found? ==> (call.id, call.at.result.blob) in produced)
  }

  ghost predicate Values(s: State) {
    && (forall id :: id in s.cache ==> (id, s.cache[id]) in s.produced)
    && (forall c :: 0 <= c < |s.calls| ==> Genuine(s.produced, s.calls[c]))
  }

  lemma SelfStaysGenuine(s: State, c: nat, action: Action)
    requires Values(s) && Enabled(s, Do(c, action))
    ensures Genuine(Act(s, c, action).produced, Act(s, c, action).calls[c])
    ensures s.produced <= Act(s, c, action).produced
  {
    assert Genuine(s.produced, s.calls[c]);
    match action {
      case Look => case Register => case Wake => case LookAgain => case Succeed(_) =>
      case Fail => case Keep(_) => case Delete => case Close =>
    }
  }

  lemma StepKeepsValues(s: State, step: Step)
    requires Values(s) && Enabled(s, step)
    ensures Values(Apply(s, step))
  {
    var s' := Apply(s, step);
    if step.Do? {
      SelfStaysGenuine(s, step.c, step.action);
      forall d | 0 <= d < |s'.calls| ensures Genuine(s'.produced, s'.calls[d]) {
        assert d != step.c ==> s'.calls[d] == s.calls[d] && Genuine(s.produced, s.calls[d]);
      }
      assert Genuine(s.produced, s.calls[step.c]);
    }
  }

  // ---------------------------------------------------------------------------------------
  // Registration and channels
  // ---------------------------------------------------------------------------------------

  /** The call's channel is in the table. */
  predicate Registered(at: Place) {
    (at.Retry? && at.owner) || (at.Compute? && at.owner) || (at.Store? && at.owner) || at.Unregister?
  }

  /** The call registered a channel at some time. */
  predicate Owner(at: Place) {
    Registered(at) || at.Closing? || (at.Done? && at.owner)
  }

  /** The table lists registered calls only. */
  predicate Lists(s: State, id: ID)
    requires id in s.inProgress
  {
    s.inProgress[id] < |s.calls| && s.calls[s.inProgress[id]].id == id && Registered(s.calls[s.inProgress[id]].at)
  }

  /** A registered call is listed. */
  predicate Listed(inProgress: map<ID, nat>, c: nat, call: Call) {
    Registered(call.at) ==> call.id in inProgress && inProgress[call.id] == c
  }

  ghost predicate Table(s: State) {
    && (forall id :: id in s.inProgress ==> Lists(s, id))
    && (forall c :: 0 <= c < |s.calls| ==> Listed(s.inProgress, c, s.calls[c]))
  }

  ghost predicate Channels(s: State) {
    && |s.closed| == |s.calls|
    && forall c :: 0 <= c < |s.calls| ==> s.closed[c] == if s.calls[c].at.Done? && s.calls[c].at.owner then 1 else 0
  }

  ghost predicate Waits(s: State) {
    forall c :: 0 <= c < |s.calls| && s.calls[c].at.Waiting? ==>
      var on := s.calls[c].at.on; on < |s.calls| && s.calls[on].id == s.calls[c].id && Owner(s.calls[on].at)
  }

  lemma StillLists(s: State, c: nat, action: Action, id: ID)
    requires Table(s) && Enabled(s, Do(c, action)) && id in Act(s, c, action).inProgress
    ensures Lists(Act(s, c, action), id)
  {
    assert id in s.inProgress ==> Lists(s, id);
    match action {
      case Look => case Register => case Wake => case LookAgain => case Succeed(_) =>
      case Fail => case Keep(_) => case Delete => case Close =>
    }
  }

  lemma StillListed(s: State, c: nat, action: Action, d: nat)
    requires Table(s) && Enabled(s, Do(c, action)) && d < |s.calls|
    ensures Listed(Act(s, c, action).inProgress, d, Act(s, c, action).calls[d])
  {
    assert Listed(s.inProgress, d, s.calls[d]) && Listed(s.inProgress, c, s.calls[c]);
    match action {
      case Look => case Register => case Wake => case LookAgain => case Succeed(_) =>
      case Fail => case Keep(_) => case Delete => case Close =>
    }
  }

  lemma StepKeepsTable(s: State, c: nat, action: Action)
    requires Table(s) && Enabled(s, Do(c, action))
    ensures Table(Act(s, c, action))
  {
    var s' := Act(s, c, action);
    forall id | id in s'.inProgress ensures Lists(s', id) {
      StillLists(s, c, action, id);
    }
    forall d | 0 <= d < |s'.calls| ensures Listed(s'.inProgress, d, s'.calls[d]) {
      StillListed(s, c, action, d);
    }
  }

  lemma StepKeepsChannels(s: State, c: nat, action: Action)
    requires Channels(s) && Enabled(s, Do(c, action))
    ensures Channels(Act(s, c, action))
  {
    match action {
      case Look => case Register => case Wake => case LookAgain => case Succeed(_) =>
      case Fail => case Keep(_) => case Delete => case Close =>
    }
  }

  lemma StepKeepsWaits(s: State, c: nat, action: Action)
    requires Table(s) && Waits(s) && Enabled(s, Do(c, action))
    ensures Waits(Act(s, c, action))
  {
    match action {
      case Look => case Register => case Wake => case LookAgain => case Succeed(_) =>
      case Fail => case Keep(_) => case Delete => case Close =>
    }
  }

  ghost predicate Inv(s: State) {
    Values(s) && Table(s) && Channels(s) && Waits(s)
  }

  lemma {:induction false} ReachableInv(ids: seq<ID>, steps: seq<Step>)
    requires After(ids, steps).Some?
    ensures Inv(After(ids, steps).value)
  {
    if steps != [] {
      ReachableInv(ids, steps[..|steps| - 1]);
      var s, step := After(ids, steps[..|steps| - 1]).value, steps[|steps| - 1];
      StepKeepsValues(s, step);
      if step.Do? {
        StepKeepsTable(s, step.c, step.action);
        StepKeepsChannels(s, step.c, step.action);
        StepKeepsWaits(s, step.c, step.action);
      }
    }
  }

  /** A returned blob is one that was computed for the ID asked for. */
  lemma ReturnsWhatWasProduced(ids: seq<ID>, steps: seq<Step>, c: nat)
    requires After(ids, steps).Some?
    ensures var s := After(ids, steps).value;
      c < |s.calls| && s.calls[c].at.Done? && s.calls[c].at.result.Found? ==>
        (s.calls[c].id, s.calls[c].at.result.blob) in s.produced
  {
    ReachableInv(ids, steps);
  }

  /** Two calls are never registered for the same ID, and the table names the one that is. */
  lemma OneRegistered(ids: seq<ID>, steps: seq<Step>, c: nat, d: nat)
    requires After(ids, steps).Some?
    ensures var s := After(ids, steps).value;
      c < |s.calls| && d < |s.calls| && Registered(s.calls[c].at) && Registered(s.calls[d].at) && c != d ==>
        s.calls[c].id != s.calls[d].id
  {
    ReachableInv(ids, steps);
  }

  /** A channel about to be closed is open, and a call that has returned has closed the channel it
      registered, once, and no other. */
  lemma ClosedOnce(ids: seq<ID>, steps: seq<Step>, c: nat)
    requires After(ids, steps).Some?
    ensures var s := After(ids, steps).value;
      && |s.closed| == |s.calls|
      && (c < |s.calls| ==> s.closed[c] <= 1)
      && (Enabled(s, Do(c, Close)) ==> s.closed[c] == 0)
      && (c < |s.calls| && s.calls[c].at.Done? ==> s.closed[c] == if s.calls[c].at.owner then 1 else 0)
  {
    ReachableInv(ids, steps);
  }

  /** When all calls have returned, nothing is registered. */
  lemma NothingLeftBehind(ids: seq<ID>, steps: seq<Step>)
    requires After(ids, steps).Some?
    requires forall call :: call in After(ids, steps).value.calls ==> call.at.Done?
    ensures After(ids, steps).value.inProgress == map[]
  {
    ReachableInv(ids, steps);
    var s := After(ids, steps).value;
    assert forall c :: 0 <= c < |s.calls| ==> s.calls[c] in s.calls;
    assert s.inProgress.Keys == {};
  }

  // ---------------------------------------------------------------------------------------
  // Every call returns
  // ---------------------------------------------------------------------------------------

  /** What a call that is not waiting can do next. */
  function OwnAction(at: Place): Action
    requires !at.Waiting? && !at.Done?
  {
    match at
    case Start => Look
    case Missed => Register
    case Retry(_) => LookAgain
    case Compute(_) => Fail
    case Store(_, _) => Keep(true)
    case Unregister(_) => Delete
    case Closing(_) => Close
  }

  /** While a call has not returned, some call can go on. */
  lemma NeverStuck(ids: seq<ID>, steps: seq<Step>, c: nat)
    requires After(ids, steps).Some? && c < |After(ids, steps).value.calls|
    requires !After(ids, steps).value.calls[c].at.Done?
    ensures exists d, action :: Enabled(After(ids, steps).value, Do(d, action))
  {
    ReachableInv(ids, steps);
    var s := After(ids, steps).value;
    var at := s.calls[c].at;
    if at.Waiting? {
      var owner := s.calls[at.on].at;
      if owner.Done? {
        assert Enabled(s, Do(c, Wake));
      } else {
        assert Enabled(s, Do(at.on, OwnAction(owner)));
      }
    } else {
      assert Enabled(s, Do(c, OwnAction(at)));
    }
  }

  function StepsLeft(at: Place): nat {
    match at
    case Start => 8
    case Missed => 7
    case Waiting(_) => 6
    case Retry(_) => 5
    case Compute(_) => 4
    case Store(_, _) => 3
    case Unregister(_) => 2
    case Closing(_) => 1
    case Done(_, _) => 0
  }

  function Work(calls: seq<Call>): nat {
    if calls == [] then 0 else StepsLeft(calls[0].at) + Work(calls[1..])
  }

  lemma {:induction false} WorkUpdate(calls: seq<Call>, c: nat, call: Call)
    requires c < |calls|
    ensures Work(calls[c := call]) == Work(calls) - StepsLeft(calls[c].at) + StepsLeft(call.at)
  {
    if c == 0 {
      assert calls[c := call][1..] == calls[1..];
    } else {
      assert calls[c := call][1..] == calls[1..][c - 1 := call];
      WorkUpdate(calls[1..], c - 1, call);
    }
  }

  lemma OnwardOnly(s: State, c: nat, action: Action)
    requires Enabled(s, Do(c, action))
    ensures StepsLeft(Act(s, c, action).calls[c].at) < StepsLeft(s.calls[c].at)
  {
    match action {
      case Look => case Register => case Wake => case LookAgain => case Succeed(_) =>
      case Fail => case Keep(_) => case Delete => case Close =>
    }
  }

  lemma StepDoesWork(s: State, step: Step)
    requires Enabled(s, step)
    ensures step.Evict? ==> Work(Apply(s, step).calls) == Work(s.calls)
    ensures !step.Evict? ==> Work(Apply(s, step).calls) < Work(s.calls)
  {
    if step.Do? {
      var call := Act(s, step.c, step.action).calls[step.c];
      WorkUpdate(s.calls, step.c, call);
      OnwardOnly(s, step.c, step.action);
      assert Act(s, step.c, step.action).calls == s.calls[step.c := call];
    }
  }

  function CallSteps(steps: seq<Step>): nat {
    if steps == [] then 0
    else CallSteps(steps[..|steps| - 1]) + if steps[|steps| - 1].Evict? then 0 else 1
  }

  lemma {:induction false} InitialWork(calls: seq<Call>)
    requires forall c :: 0 <= c < |calls| ==> calls[c].at.Start?
    ensures Work(calls) == 8 * |calls|
  {
    if calls != [] {
      InitialWork(calls[1..]);
    }
  }

  /** However the calls interleave, together they take at most eight steps each. */
  lemma {:induction false} RunLength(ids: seq<ID>, steps: seq<Step>)
    requires After(ids, steps).Some?
    ensures CallSteps(steps) + Work(After(ids, steps).value.calls) <= 8 * |ids|
  {
    if steps == [] {
      InitialWork(Init(ids).calls);
    } else {
      RunLength(ids, steps[..|steps| - 1]);
      StepDoesWork(After(ids, steps[..|steps| - 1]).value, steps[|steps| - 1]);
    }
  }

  // ---------------------------------------------------------------------------------------
  // One computation per ID
  // ---------------------------------------------------------------------------------------

  /** Computing succeeds, the blob fits and nothing is evicted. */
  predicate SmoothStep(step: Step) {
    step.Do? && !step.action.Fail? && (step.action.Keep? ==> step.action.fits)
  }

  /** A finished owner and whoever waited for one find the blob; only owners compute. */
  predicate SmoothCall(cache: map<ID, Blob>, computed: multiset<ID>, call: Call) {
    match call.at
    case Retry(owner) => owner || call.id in cache
    case Compute(owner) => owner && call.id !in computed
    case Store(owner, _) => owner && call.id !in cache
    case Unregister(_) => call.id in cache
    case Closing(_) => call.id in cache
    case Done(_, _) => call.id in cache
    case _ => true
  }

  ghost predicate SmoothCalls(s: State) {
    && (forall c :: 0 <= c < |s.calls| ==> SmoothCall(s.cache, s.computed, s.calls[c]))
    && (forall id :: id in s.cache ==> id in s.computed)
  }

  /** What was computed was computed once, and is in the cache or in the hands of the registered call. */
  ghost predicate Stored(s: State) {
    forall id :: id in s.computed ==> s.computed[id] == 1 && (id in s.cache || InHand(s, id))
  }

  predicate InHand(s: State, id: ID) {
    id in s.inProgress && s.inProgress[id] < |s.calls| && s.calls[s.inProgress[id]].at.Store?
  }

  /** Whatever a call has computed is on record. */
  ghost predicate Produced(s: State) {
    forall c :: 0 <= c < |s.calls| && s.calls[c].at.Store? ==> s.calls[c].id in s.computed
  }

  lemma StepKeepsProduced(s: State, c: nat, action: Action)
    requires Produced(s) && Enabled(s, Do(c, action))
    ensures Produced(Act(s, c, action))
  {
  }

  /** Another call holding a blob or computing one is for another ID. */
  lemma OthersStaySmooth(s: State, c: nat, action: Action, d: nat)
    requires Table(s) && SmoothCalls(s) && Enabled(s, Do(c, action)) && SmoothStep(Do(c, action))
    requires d < |s.calls| && d != c
    ensures SmoothCall(Act(s, c, action).cache, Act(s, c, action).computed, s.calls[d])
  {
    var call, other := s.calls[c], s.calls[d];
    assert SmoothCall(s.cache, s.computed, call) && SmoothCall(s.cache, s.computed, other);
    if (action.Succeed? || action.Keep?) && (other.at.Compute? || other.at.Store?) {
      assert Registered(call.at) && Registered(other.at);
      assert other.id != call.id;
    }
  }

  lemma SelfStaysSmooth(s: State, c: nat, action: Action)
    requires Inv(s) && SmoothCalls(s) && Stored(s) && Enabled(s, Do(c, action)) && SmoothStep(Do(c, action))
    ensures SmoothCall(Act(s, c, action).cache, Act(s, c, action).computed, Act(s, c, action).calls[c])
  {
    var call := s.calls[c];
    assert SmoothCall(s.cache, s.computed, call);
    match action {
      case Look =>
      case Register =>
      case Wake =>
        assert SmoothCall(s.cache, s.computed, s.calls[call.at.on]);
      case LookAgain =>
        assert Registered(call.at) ==> call.id in s.inProgress && s.inProgress[call.id] == c;
      case Succeed(_) =>
      case Keep(_) =>
      case Delete =>
      case Close =>
    }
  }

  lemma CacheIsComputed(s: State, c: nat, action: Action)
    requires Stored(s) && SmoothCalls(s) && Values(s) && Enabled(s, Do(c, action)) && SmoothStep(Do(c, action))
    requires Produced(s)
    ensures forall id :: id in Act(s, c, action).cache ==> id in Act(s, c, action).computed
  {
  }

  lemma StepKeepsSmoothCalls(s: State, c: nat, action: Action)
    requires Inv(s) && SmoothCalls(s) && Stored(s) && Produced(s)
    requires Enabled(s, Do(c, action)) && SmoothStep(Do(c, action))
    ensures SmoothCalls(Act(s, c, action))
  {
    var s' := Act(s, c, action);
    SelfStaysSmooth(s, c, action);
    CacheIsComputed(s, c, action);
    forall d | 0 <= d < |s'.calls| ensures SmoothCall(s'.cache, s'.computed, s'.calls[d]) {
      if d != c {
        OthersStaySmooth(s, c, action, d);
      }
    }
  }

  lemma StepKeepsStored(s: State, c: nat, action: Action)
    requires Table(s) && SmoothCalls(s) && Stored(s) && Enabled(s, Do(c, action)) && SmoothStep(Do(c, action))
    ensures Stored(Act(s, c, action))
  {
    var s', call := Act(s, c, action), s.calls[c];
    assert SmoothCall(s.cache, s.computed, call);
    forall id | id in s'.computed ensures s'.computed[id] == 1 && (id in s'.cache || InHand(s', id)) {
      match action {
        case Look => case Register => case Wake => case LookAgain => case Succeed(_) =>
        case Keep(_) => case Delete => case Close =>
      }
    }
  }

  /** If computing succeeds, the blobs fit and nothing is evicted, each ID is computed at most once,
      however many calls ask for it. */
  lemma {:induction false} ComputedOnce(ids: seq<ID>, steps: seq<Step>)
    requires After(ids, steps).Some? && forall k :: 0 <= k < |steps| ==> SmoothStep(steps[k])
    ensures SmoothCalls(After(ids, steps).value) && Stored(After(ids, steps).value) && Produced(After(ids, steps).value)
    ensures forall id :: After(ids, steps).value.computed[id] <= 1
  {
    if steps != [] {
      var before, step := steps[..|steps| - 1], steps[|steps| - 1];
      assert forall k :: 0 <= k < |before| ==> before[k] == steps[k];
      ComputedOnce(ids, before);
      ReachableInv(ids, before);
      assert SmoothStep(step);
      StepKeepsSmoothCalls(After(ids, before).value, step.c, step.action);
      StepKeepsProduced(After(ids, before).value, step.c, step.action);
      StepKeepsStored(After(ids, before).value, step.c, step.action);
    }
    var s := After(ids, steps).value;
    forall id ensures s.computed[id] <= 1 {
      assert id in s.computed || s.computed[id] == 0;
    }
  }
}
