/**
 The baseline of a monitoring window.

 A rate over a window compares the current value of a metric with an older sample.  The search
 for that sample must not bridge a restart of the process or a gap in what was observed.
 Times are in milliseconds.
 */
module MonitorBaseline {

  import opened MonitorWindow
  import opened Wrappers

  const EXACT: string := "exact"
  const RESOLUTION_MS: int := 15_000

  datatype Baseline = Usable(metric: Metric, elapsed: int) | Status(reason: string)

  /** What is looked for: a metric of a component, the process and time of its latest capture, and
      where the window starts by the component's and by the local clock. */
  datatype Query = Query(component: string, current: Metric, start: string, latest: int, windowStart: int, localStart: int)

  function AvailabilityState(availability: string): string {
    if availability == "" || availability == EXACT then "unavailable" else availability
  }

  function ComponentState(c: Component): string {
    if c.stale then "stale" else AvailabilityState(c.availability)
  }

  // ---------------------------------------------------------------------------------------
  // What a sample says
  // ---------------------------------------------------------------------------------------

  function Of(q: Query, s: Sample): Option<Component> {
    FindComponent(s.snapshot.components, q.component)
  }

  /** The sample is an exact one of the same process and older than the latest capture. */
  predicate Good(q: Query, s: Sample) {
    && Of(q, s).Some?
    && var c := Of(q, s).value;
    && c.start == q.start && c.captured < q.latest && c.availability == EXACT && !c.stale
    && FindMetric(c.metrics, q.current).Some?
    && FindMetric(c.metrics, q.current).value.availability == EXACT
  }

  function MetricOf(q: Query, s: Sample): Metric
    requires Good(q, s)
  {
    FindMetric(Of(q, s).value.metrics, q.current).value
  }

  function Captured(q: Query, s: Sample): int
    requires Good(q, s)
  {
    Of(q, s).value.captured
  }

  /** The sample is from the same process but not older than the latest capture. */
  predicate Newer(q: Query, s: Sample) {
    Of(q, s).Some? && Of(q, s).value.start == q.start && Of(q, s).value.captured >= q.latest
  }

  predicate InWindow(q: Query, s: Sample) {
    s.snapshot.captured > q.localStart
  }

  /** A sample that would be a restart or a gap inside the window. */
  predicate Breaks(q: Query, s: Sample) {
    InWindow(q, s) && !Good(q, s) && !Newer(q, s)
  }

  /** The samples that are compared with each other. */
  predicate Examined(q: Query, s: Sample) {
    Good(q, s) && s.snapshot.captured >= q.localStart - RESOLUTION_MS
  }

  /** Why a sample that is neither good nor newer cannot be used. */
  function Trouble(q: Query, s: Sample): string {
    match Of(q, s)
    case None => "unavailable"
    case Some(c) =>
      if c.start != q.start then "reset"
      else if c.availability != EXACT || c.stale then ComponentState(c)
      else
        match FindMetric(c.metrics, q.current)
        case None => "unavailable"
        case Some(m) => AvailabilityState(m.availability)
  }

  ghost predicate Unbroken(q: Query, samples: seq<Sample>, n: nat)
    requires n <= |samples|
  {
    forall i :: 0 <= i < n ==> !Breaks(q, samples[i])
  }

  /** No examined sample is below an earlier one. */
  ghost predicate NeverRegress(q: Query, samples: seq<Sample>, n: nat)
    requires n <= |samples|
  {
    forall i, j :: 0 <= i < j < n && Examined(q, samples[i]) && Examined(q, samples[j]) ==>
      !Regressed(MetricOf(q, samples[i]), MetricOf(q, samples[j]))
  }

  predicate IsBefore(q: Query, s: Sample) {
    Good(q, s) && Captured(q, s) <= q.windowStart
  }

  predicate IsWithin(q: Query, s: Sample) {
    Good(q, s) && Captured(q, s) > q.windowStart
  }

  ghost predicate LastBefore(q: Query, samples: seq<Sample>, n: nat, b: nat) {
    b < n <= |samples| && IsBefore(q, samples[b]) && forall j :: b < j < n ==> !IsBefore(q, samples[j])
  }

  ghost predicate FirstWithin(q: Query, samples: seq<Sample>, n: nat, w: nat) {
    w < n <= |samples| && IsWithin(q, samples[w]) && forall j :: 0 <= j < w ==> !IsWithin(q, samples[j])
  }

  /** The last sample before the window, if it is less than a resolution away from it. */
  ghost predicate NearBefore(q: Query, samples: seq<Sample>, b: nat) {
    LastBefore(q, samples, |samples|, b) && q.windowStart - Captured(q, samples[b]) <= RESOLUTION_MS
  }

  ghost predicate SomeNear(q: Query, samples: seq<Sample>) {
    exists b: nat :: NearBefore(q, samples, b)
  }

  ghost predicate SomeWithin(q: Query, samples: seq<Sample>) {
    exists w: nat :: FirstWithin(q, samples, |samples|, w)
  }

  /** The sample that serves as the baseline. */
  ghost predicate Serves(q: Query, samples: seq<Sample>, k: nat) {
    NearBefore(q, samples, k) || (FirstWithin(q, samples, |samples|, k) && !SomeNear(q, samples))
  }

  /** The search stops at sample `k`, and why. */
  ghost predicate StopsAt(q: Query, samples: seq<Sample>, k: nat, reason: string) {
    && k < |samples| && Unbroken(q, samples, k) && NeverRegress(q, samples, k)
    && if Breaks(q, samples[k]) then reason == Trouble(q, samples[k])
       else reason == "reset" && !NeverRegress(q, samples, k + 1)
  }

  /** The baseline is the metric of a good sample. */
  predicate FromSample(q: Query, s: Sample, r: Baseline)
    requires r.Usable?
  {
    Good(q, s) && r.metric == MetricOf(q, s) && r.elapsed == q.latest - Captured(q, s)
  }

  lemma ServesInTime(q: Query, samples: seq<Sample>, k: nat)
    requires Serves(q, samples, k)
    ensures k < |samples| && Good(q, samples[k])
    ensures 0 < q.latest - Captured(q, samples[k]) <= q.latest - q.windowStart + RESOLUTION_MS
  {
  }

  // ---------------------------------------------------------------------------------------
  // Not going down is transitive
  // ---------------------------------------------------------------------------------------

  lemma RegressedTransitive(a: Metric, b: Metric, c: Metric)
    requires b.kind == c.kind && !Regressed(a, b) && !Regressed(b, c)
    ensures !Regressed(a, c)
  {
    if c.kind.Histogram? {
      forall i | 0 <= i < |c.buckets| ensures c.buckets[i] >= a.buckets[i] {
        assert b.buckets[i] >= a.buckets[i] && c.buckets[i] >= b.buckets[i];
      }
    }
  }

  /** `p` is the last examined sample among the first `n`. */
  ghost predicate LastExamined(q: Query, samples: seq<Sample>, n: nat, p: nat) {
    p < n <= |samples| && Examined(q, samples[p]) && forall j :: p < j < n ==> !Examined(q, samples[j])
  }

  lemma GoodKind(q: Query, s: Sample)
    requires Good(q, s)
    ensures MetricOf(q, s).kind == q.current.kind
  {
    FindsAlikeMetric(Of(q, s).value.metrics, q.current);
  }

  lemma NextExamined(q: Query, samples: seq<Sample>, n: nat, p: nat)
    requires n < |samples| && NeverRegress(q, samples, n) && LastExamined(q, samples, n, p)
    requires Examined(q, samples[n]) && !Regressed(MetricOf(q, samples[p]), MetricOf(q, samples[n]))
    ensures NeverRegress(q, samples, n + 1)
  {
    GoodKind(q, samples[p]);
    GoodKind(q, samples[n]);
    forall i | 0 <= i < n && Examined(q, samples[i]) ensures !Regressed(MetricOf(q, samples[i]), MetricOf(q, samples[n])) {
      if i < p {
        RegressedTransitive(MetricOf(q, samples[i]), MetricOf(q, samples[p]), MetricOf(q, samples[n]));
      }
    }
  }

  // ---------------------------------------------------------------------------------------
  // The search
  // ---------------------------------------------------------------------------------------

  datatype Verdict = Skip | Stop(reason: string) | Candidate(metric: Metric, captured: int)

  /** How one sample is judged. */
  method Judge(q: Query, s: Sample) returns (v: Verdict)
    ensures v.Stop? <==> Breaks(q, s)
    ensures v.Stop? ==> v.reason == Trouble(q, s)
    ensures v.Candidate? <==> Good(q, s)
    ensures v.Candidate? ==> v.metric == MetricOf(q, s) && v.captured == Captured(q, s)
  {
    var found := FindComponent(s.snapshot.components, q.component);
    if found.None? {
      if s.snapshot.captured > q.localStart {
        return Stop("unavailable");
      }
      return Skip;
    }
    var c := found.value;
    if q.start != c.start {
      if s.snapshot.captured > q.localStart {
        return Stop("reset");
      }
      return Skip;
    }
    if c.captured >= q.latest {
      return Skip;
    }
    if c.availability != EXACT || c.stale {
      if s.snapshot.captured > q.localStart {
        return Stop(ComponentState(c));
      }
      return Skip;
    }
    var metric := FindMetric(c.metrics, q.current);
    if metric.None? {
      if s.snapshot.captured > q.localStart {
        return Stop("unavailable");
      }
      return Skip;
    }
    if metric.value.availability != EXACT {
      if s.snapshot.captured > q.localStart {
        return Stop(AvailabilityState(metric.value.availability));
      }
      return Skip;
    }
    return Candidate(metric.value, c.captured);
  }

  datatype Found = Found(metric: Metric, captured: int)

  predicate IsFound(q: Query, s: Sample, f: Found) {
    Good(q, s) && f == Found(MetricOf(q, s), Captured(q, s))
  }

  ghost predicate HoldsBefore(q: Query, samples: seq<Sample>, n: nat, before: Option<Found>)
    requires n <= |samples|
  {
    match before
    case None => forall j :: 0 <= j < n ==> !IsBefore(q, samples[j])
    case Some(f) => exists b: nat :: LastBefore(q, samples, n, b) && IsFound(q, samples[b], f)
  }

  ghost predicate HoldsWithin(q: Query, samples: seq<Sample>, n: nat, within: Option<Found>)
    requires n <= |samples|
  {
    match within
    case None => forall j :: 0 <= j < n ==> !IsWithin(q, samples[j])
    case Some(f) => exists w: nat :: FirstWithin(q, samples, n, w) && IsFound(q, samples[w], f)
  }

  ghost predicate HoldsPrior(q: Query, samples: seq<Sample>, n: nat, prior: Option<Metric>)
    requires n <= |samples|
  {
    match prior
    case None => forall j :: 0 <= j < n ==> !Examined(q, samples[j])
    case Some(m) => exists p: nat :: LastExamined(q, samples, n, p) && MetricOf(q, samples[p]) == m
  }

  lemma NextBefore(q: Query, samples: seq<Sample>, n: nat, before: Option<Found>)
    requires n < |samples| && HoldsBefore(q, samples, n, before)
    ensures HoldsBefore(q, samples, n + 1,
      if IsBefore(q, samples[n]) then Some(Found(MetricOf(q, samples[n]), Captured(q, samples[n]))) else before)
  {
    if IsBefore(q, samples[n]) {
      assert LastBefore(q, samples, n + 1, n) && IsFound(q, samples[n], Found(MetricOf(q, samples[n]), Captured(q, samples[n])));
    } else if before.Some? {
      var b: nat :| LastBefore(q, samples, n, b) && IsFound(q, samples[b], before.value);
      assert LastBefore(q, samples, n + 1, b);
    }
  }

  lemma NextWithin(q: Query, samples: seq<Sample>, n: nat, within: Option<Found>)
    requires n < |samples| && HoldsWithin(q, samples, n, within)
    ensures HoldsWithin(q, samples, n + 1,
      if IsWithin(q, samples[n]) && within.None? then Some(Found(MetricOf(q, samples[n]), Captured(q, samples[n]))) else within)
  {
    if within.Some? {
      var w: nat :| FirstWithin(q, samples, n, w) && IsFound(q, samples[w], within.value);
      assert FirstWithin(q, samples, n + 1, w);
    } else if IsWithin(q, samples[n]) {
      assert FirstWithin(q, samples, n + 1, n) && IsFound(q, samples[n], Found(MetricOf(q, samples[n]), Captured(q, samples[n])));
    }
  }

  /** Comparing with the last examined sample keeps all of them from going down. */
  lemma NextPrior(q: Query, samples: seq<Sample>, n: nat, prior: Option<Metric>)
    requires n < |samples| && HoldsPrior(q, samples, n, prior) && NeverRegress(q, samples, n)
    ensures !Examined(q, samples[n]) ==> HoldsPrior(q, samples, n + 1, prior) && NeverRegress(q, samples, n + 1)
    ensures Examined(q, samples[n]) ==>
      && HoldsPrior(q, samples, n + 1, Some(MetricOf(q, samples[n])))
      && (NeverRegress(q, samples, n + 1) <==> prior.None? || !Regressed(prior.value, MetricOf(q, samples[n])))
  {
    if Examined(q, samples[n]) {
      assert LastExamined(q, samples, n + 1, n);
    }
    if prior.Some? {
      var p: nat :| LastExamined(q, samples, n, p) && MetricOf(q, samples[p]) == prior.value;
      if !Examined(q, samples[n]) {
        assert LastExamined(q, samples, n + 1, p);
      } else if !Regressed(prior.value, MetricOf(q, samples[n])) {
        NextExamined(q, samples, n, p);
      }
    }
  }

  lemma StopsBroken(q: Query, samples: seq<Sample>, n: nat)
    requires n < |samples| && Unbroken(q, samples, n) && NeverRegress(q, samples, n) && Breaks(q, samples[n])
    ensures StopsAt(q, samples, n, Trouble(q, samples[n])) && !Unbroken(q, samples, |samples|)
  {
  }

  lemma StopsRegressed(q: Query, samples: seq<Sample>, n: nat)
    requires n < |samples| && Unbroken(q, samples, n) && NeverRegress(q, samples, n)
    requires !Breaks(q, samples[n]) && !NeverRegress(q, samples, n + 1)
    ensures StopsAt(q, samples, n, "reset") && !NeverRegress(q, samples, |samples|)
  {
  }

  /** What the search remembers of the samples it has seen. */
  datatype Memory = Memory(before: Option<Found>, within: Option<Found>, prior: Option<Metric>)

  ghost predicate Remembers(q: Query, samples: seq<Sample>, n: nat, m: Memory)
    requires n <= |samples|
  {
    HoldsBefore(q, samples, n, m.before) && HoldsWithin(q, samples, n, m.within) && HoldsPrior(q, samples, n, m.prior)
  }

  ghost predicate Clear(q: Query, samples: seq<Sample>, n: nat)
    requires n <= |samples|
  {
    Unbroken(q, samples, n) && NeverRegress(q, samples, n)
  }

  /** A sample that cannot be used and does not break the window changes nothing. */
  lemma SkipsSample(q: Query, samples: seq<Sample>, n: nat, m: Memory)
    requires n < |samples| && Clear(q, samples, n) && Remembers(q, samples, n, m)
    requires !Good(q, samples[n]) && !Breaks(q, samples[n])
    ensures Clear(q, samples, n + 1) && Remembers(q, samples, n + 1, m)
  {
    assert HoldsBefore(q, samples, n + 1, m.before) by { NextBefore(q, samples, n, m.before); }
    assert HoldsWithin(q, samples, n + 1, m.within) by { NextWithin(q, samples, n, m.within); }
    assert HoldsPrior(q, samples, n + 1, m.prior) && NeverRegress(q, samples, n + 1) by { NextPrior(q, samples, n, m.prior); }
  }

  /** Remembers a good sample as the baseline it may become. */
  method Place(q: Query, samples: seq<Sample>, n: nat, m: Memory) returns (m': Memory)
    requires n < |samples| && Remembers(q, samples, n, m) && Good(q, samples[n])
    ensures m'.prior == m.prior && HoldsBefore(q, samples, n + 1, m'.before) && HoldsWithin(q, samples, n + 1, m'.within)
  {
    NextBefore(q, samples, n, m.before);
    NextWithin(q, samples, n, m.within);
    var found := Found(MetricOf(q, samples[n]), Captured(q, samples[n]));
    m' := m;
    if found.captured <= q.windowStart {
      m' := m'.(before := Some(found));
    }
    if found.captured > q.windowStart && m'.within.None? {
      m' := m'.(within := Some(found));
    }
  }

  /** Takes the next sample in, or says why the search stops there. */
  method Advance(q: Query, samples: seq<Sample>, n: nat, m: Memory) returns (stop: Option<string>, m': Memory)
    requires n < |samples| && Clear(q, samples, n) && Remembers(q, samples, n, m)
    ensures stop.Some? ==> StopsAt(q, samples, n, stop.value) && !Clear(q, samples, |samples|)
    ensures stop.None? ==> Clear(q, samples, n + 1) && Remembers(q, samples, n + 1, m')
  {
    var v := Judge(q, samples[n]);
    if v.Stop? {
      StopsBroken(q, samples, n);
      return Some(v.reason), m;
    }
    if v.Skip? {
      SkipsSample(q, samples, n, m);
      return None, m;
    }
    m' := Place(q, samples, n, m);
    NextPrior(q, samples, n, m.prior);
    if samples[n].snapshot.captured < q.localStart - RESOLUTION_MS {
      return None, m';
    }
    if m'.prior.Some? && Regressed(m'.prior.value, v.metric) {
      StopsRegressed(q, samples, n);
      return Some("reset"), m;
    }
    return None, m'.(prior := Some(v.metric));
  }

  ghost predicate Searched(q: Query, samples: seq<Sample>, r: Baseline) {
    && (r.Usable? <==> Clear(q, samples, |samples|) && (SomeNear(q, samples) || SomeWithin(q, samples)))
    && (r.Usable? ==> exists k: nat :: Serves(q, samples, k) && FromSample(q, samples[k], r))
    && (r.Status? ==>
      || (exists k: nat :: StopsAt(q, samples, k, r.reason))
      || (r.reason == "warming" && Clear(q, samples, |samples|)))
  }

  /** Searches the samples.  A baseline is returned exactly when no sample breaks the window, the
      examined samples never go down and a sample can serve; it is then that sample. */
  method Search(q: Query, samples: seq<Sample>) returns (r: Baseline)
    ensures Searched(q, samples, r)
  {
    var m := Memory(None, None, None);
    for n := 0 to |samples|
      invariant Clear(q, samples, n) && Remembers(q, samples, n, m)
    {
      var stop;
      stop, m := Advance(q, samples, n, m);
      if stop.Some? {
        return Status(stop.value);
      }
    }
    r := Choose(q, samples, m.before, m.within);
  }

  method Choose(q: Query, samples: seq<Sample>, before: Option<Found>, within: Option<Found>) returns (r: Baseline)
    requires HoldsBefore(q, samples, |samples|, before) && HoldsWithin(q, samples, |samples|, within)
    ensures r.Usable? <==> SomeNear(q, samples) || SomeWithin(q, samples)
    ensures r.Usable? ==> exists k: nat :: Serves(q, samples, k) && FromSample(q, samples[k], r)
    ensures r.Status? ==> r.reason == "warming"
  {
    NearIff(q, samples, before);
    if before.Some? && q.windowStart - before.value.captured <= RESOLUTION_MS {
      ghost var b: nat :| LastBefore(q, samples, |samples|, b) && IsFound(q, samples[b], before.value);
      assert Serves(q, samples, b);
      return Usable(before.value.metric, q.latest - before.value.captured);
    }
    if within.Some? {
      ghost var w: nat :| FirstWithin(q, samples, |samples|, w) && IsFound(q, samples[w], within.value);
      assert Serves(q, samples, w);
      return Usable(within.value.metric, q.latest - within.value.captured);
    }
    return Status("warming");
  }

  lemma NearIff(q: Query, samples: seq<Sample>, before: Option<Found>)
    requires HoldsBefore(q, samples, |samples|, before)
    ensures SomeNear(q, samples) <==> before.Some? && q.windowStart - before.value.captured <= RESOLUTION_MS
  {
    if before.Some? {
      var b: nat :| LastBefore(q, samples, |samples|, b) && IsFound(q, samples[b], before.value);
      if q.windowStart - before.value.captured <= RESOLUTION_MS {
        assert NearBefore(q, samples, b);
      }
      if c: nat :| NearBefore(q, samples, c) {
        assert c == b;
      }
    }
  }

  // ---------------------------------------------------------------------------------------
  // The window of a counter
  // ---------------------------------------------------------------------------------------

  /** Only one sample can serve. */
  lemma ServesOnce(q: Query, samples: seq<Sample>, k: nat, m: nat)
    requires Serves(q, samples, k) && Serves(q, samples, m)
    ensures k == m
  {
    if NearBefore(q, samples, k) || NearBefore(q, samples, m) {
      assert SomeNear(q, samples);
    }
  }

  /** Why there is no baseline: the first obstacle, or nothing that could serve yet. */
  ghost predicate Obstacle(q: Query, samples: seq<Sample>, reason: string) {
    || (exists k: nat :: StopsAt(q, samples, k, reason))
    || (reason == "warming" && Clear(q, samples, |samples|))
  }

  /** The answer to a window.  Without a usable latest capture of the component it is the reason why not.
      Otherwise the window starts `window` before that capture, and by the local clock `window` before the
      snapshot that holds it; a baseline is then found exactly if the window is answerable, is the sample
      that serves, and its age is positive and at most a resolution longer than the window. */
  ghost predicate IsAnswer(last: Option<Snapshot>, samples: seq<Sample>, component: string, current: Metric, window: int, r: Baseline) {
    if last.None? then r == Status("warming")
    else
      match FindComponent(last.value.components, component)
      case None => r == Status("unavailable")
      case Some(latest) =>
        if latest.stale then r == Status("stale")
        else if latest.availability == "" then r == Status("unavailable")
        else if latest.availability != "exact" then r == Status(latest.availability)
        else if latest.start == "unavailable" || latest.start == "legacy" then r == Status("reset")
        else
          var q := Query(component, current, latest.start, latest.captured, latest.captured - window, last.value.captured - window);
          Answers(q, samples, r) && (r.Usable? ==> 0 < r.elapsed <= window + 15_000)
  }

  ghost predicate Answers(q: Query, samples: seq<Sample>, r: Baseline) {
    && (r.Usable? <==> Answerable(q, samples))
    && (r.Usable? ==> Justified(q, samples, r))
    && (r.Status? ==> Obstacle(q, samples, r.reason))
  }

  /** The exact value a sample has for the metric, from the given process before the given time. */
  function ExactValue(s: Sample, component: string, current: Metric, start: string, until: int): Option<Metric> {
    match FindComponent(s.snapshot.components, component)
    case None => None
    case Some(c) =>
      if c.start != start || c.captured >= until || c.availability != "exact" || c.stale then None
      else
        match FindMetric(c.metrics, current)
        case None => None
        case Some(m) => if m.availability == "exact" then Some(m) else None
  }

  /** Nothing was bridged: each sample captured after the start of the window shows the component in the
      process of the latest capture and, unless it is as new as that one, an exact value; and the exact
      values of that process, from a resolution before the window on, never go down. */
  ghost predicate NothingBridged(last: Snapshot, samples: seq<Sample>, component: string, current: Metric, window: int) {
    && FindComponent(last.components, component).Some?
    && var latest := FindComponent(last.components, component).value;
    && (forall s :: s in samples && s.snapshot.captured > last.captured - window ==>
      && FindComponent(s.snapshot.components, component).Some?
      && var c := FindComponent(s.snapshot.components, component).value;
      && c.start == latest.start
      && (c.captured < latest.captured ==> ExactValue(s, component, current, latest.start, latest.captured).Some?))
    && (forall i, j :: 0 <= i < j < |samples|
                       && samples[i].snapshot.captured >= last.captured - window - 15_000
                       && samples[j].snapshot.captured >= last.captured - window - 15_000 ==>
      var m := ExactValue(samples[i], component, current, latest.start, latest.captured);
      var n := ExactValue(samples[j], component, current, latest.start, latest.captured);
      m.Some? && n.Some? ==> NowhereAbove(m.value, n.value))
  }

  lemma GoodHasValue(q: Query, s: Sample)
    ensures ExactValue(s, q.component, q.current, q.start, q.latest) == if Good(q, s) then Some(MetricOf(q, s)) else None
  {
  }

  lemma JustifiedBridgesNothing(last: Snapshot, latest: Component, q: Query, samples: seq<Sample>, r: Baseline, window: int)
    requires FindComponent(last.components, q.component) == Some(latest)
    requires q.start == latest.start && q.latest == latest.captured && q.localStart == last.captured - window
    requires r.Usable? && Justified(q, samples, r)
    ensures NothingBridged(last, samples, q.component, q.current, window)
  {
    forall s | s in samples
      ensures ExactValue(s, q.component, q.current, q.start, q.latest) == if Good(q, s) then Some(MetricOf(q, s)) else None {
      GoodHasValue(q, s);
    }
    forall s | s in samples && s.snapshot.captured > last.captured - window ensures Good(q, s) || Newer(q, s) {
      assert InWindow(q, s);
    }
    forall i, j | 0 <= i < j < |samples| && Examined(q, samples[i]) && Examined(q, samples[j])
      ensures NowhereAbove(MetricOf(q, samples[i]), MetricOf(q, samples[j])) {
      RegressedIff(MetricOf(q, samples[i]), MetricOf(q, samples[j]));
    }
  }

  lemma SearchAnswers(q: Query, samples: seq<Sample>, r: Baseline)
    requires Searched(q, samples, r)
    ensures Answers(q, samples, r)
    ensures r.Usable? ==> 0 < r.elapsed <= q.latest - q.windowStart + RESOLUTION_MS
  {
    if r.Usable? {
      var k: nat :| Serves(q, samples, k) && FromSample(q, samples[k], r);
      ServesInTime(q, samples, k);
      forall m: nat | Serves(q, samples, m) ensures m < |samples| && FromSample(q, samples[m], r) {
        ServesOnce(q, samples, k, m);
      }
    }
  }

  method SearchWindow(last: Snapshot, latest: Component, samples: seq<Sample>, component: string, current: Metric, window: int)
    returns (r: Baseline)
    requires FindComponent(last.components, component) == Some(latest)
    ensures Answers(Query(component, current, latest.start, latest.captured, latest.captured - window, last.captured - window), samples, r)
    ensures r.Usable? ==> 0 < r.elapsed <= window + 15_000 && NothingBridged(last, samples, component, current, window)
  {
    var q := Query(component, current, latest.start, latest.captured, latest.captured - window, last.captured - window);
    r := Search(q, samples);
    SearchAnswers(q, samples, r);
    if r.Usable? {
      JustifiedBridgesNothing(last, latest, q, samples, r, window);
    }
  }

  /** The baseline of a window, or why there is none. */
  method WindowBaseline(last: Option<Snapshot>, samples: seq<Sample>, component: string, current: Metric, window: int)
    returns (r: Baseline)
    ensures IsAnswer(last, samples, component, current, window, r)
    ensures r.Usable? ==> last.Some? && NothingBridged(last.value, samples, component, current, window)
  {
    if last.None? {
      return Status("warming");
    }
    var found := FindComponent(last.value.components, component);
    if found.None? {
      return Status("unavailable");
    }
    var latest := found.value;
    if latest.availability != EXACT || latest.stale {
      return Status(ComponentState(latest));
    }
    if latest.start == "unavailable" || latest.start == "legacy" {
      return Status("reset");
    }
    r := SearchWindow(last.value, latest, samples, component, current, window);
  }

  ghost predicate Answerable(q: Query, samples: seq<Sample>) {
    && Clear(q, samples, |samples|)
    && (SomeNear(q, samples) || SomeWithin(q, samples))
  }

  /** The baseline is an exact sample of the same process; every sample inside the window is of that
      process and, if older than the latest capture, exact; and the values never go down. */
  ghost predicate Justified(q: Query, samples: seq<Sample>, r: Baseline)
    requires r.Usable?
  {
    && (exists k: nat :: Serves(q, samples, k) && FromSample(q, samples[k], r))
    && (forall k: nat :: Serves(q, samples, k) ==> k < |samples| && FromSample(q, samples[k], r))
    && (forall s :: s in samples && InWindow(q, s) ==> Good(q, s) || Newer(q, s))
    && NeverRegress(q, samples, |samples|)
  }

  datatype Window = Rate(perSecond: real) | State(reason: string)

  predicate IsRate(perSecond: real, metric: Metric, r: Baseline, window: int)
    requires r.Usable?
  {
    && 0 < r.elapsed <= window + 15_000
    && perSecond * (r.elapsed as real / 1000.0) == (metric.value - r.metric.value) as real
  }

  /** What the window shows when there is a baseline: a rate that is never negative, or a reset. */
  predicate Shows(w: Window, metric: Metric, r: Baseline, window: int)
    requires r.Usable?
  {
    if metric.value < r.metric.value then w == State("reset")
    else w.Rate? && w.perSecond >= 0.0 && IsRate(w.perSecond, metric, r, window)
  }

  /** A rate is shown exactly if the metric is exact, the window is answerable and the value is not below
      the baseline; it is the difference of two values of the same process over the time between
      them.  Otherwise the first reason why not is shown. */
  method CounterWindow(last: Option<Snapshot>, samples: seq<Sample>, component: string, metric: Metric, window: int)
    returns (w: Window)
    ensures metric.availability != "exact" ==>
      w == State(if metric.availability == "" then "unavailable" else metric.availability)
    ensures metric.availability == "exact" ==> exists r: Baseline ::
      && IsAnswer(last, samples, component, metric, window, r)
      && if r.Status? then w == State(r.reason) else Shows(w, metric, r, window)
    ensures w.Rate? ==> last.Some? && NothingBridged(last.value, samples, component, metric, window)
  {
    if metric.availability != EXACT {
      return State(AvailabilityState(metric.availability));
    }
    var baseline := WindowBaseline(last, samples, component, metric, window);
    if baseline.Status? {
      return State(baseline.reason);
    }
    var seconds := baseline.elapsed as real / 1000.0;
    if metric.value < baseline.metric.value {
      assert Shows(State("reset"), metric, baseline, window);
      return State("reset");
    }
    RateIsQuotient((metric.value - baseline.metric.value) as real, seconds);
    w := Rate((metric.value - baseline.metric.value) as real / seconds);
    assert Shows(w, metric, baseline, window);
  }

  lemma RateIsQuotient(d: real, seconds: real)
    requires d >= 0.0 && seconds > 0.0
    ensures d / seconds >= 0.0 && d / seconds * seconds == d
  {
  }
}
