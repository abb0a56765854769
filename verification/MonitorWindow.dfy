/**
 The bounded store of monitoring samples.

 A snapshot is stored at most every 15 seconds unless something about it changed.  The store
 is compacted in place to the last 15 minutes and one older sample, and holds at most 62
 samples.  Times are in nanoseconds.
 */
module MonitorWindow {
  import opened Wrappers

  datatype Kind = Counter | Histogram | OtherKind

  /** A metric; its identity is its name together with its sorted labels. */
  datatype Metric = Metric(identity: string, kind: Kind, availability: string, value: nat, buckets: seq<nat>)

  datatype Component = Component(name: string, start: string, captured: int, availability: string, stale: bool, metrics: seq<Metric>)

  datatype Snapshot = Snapshot(captured: int, components: seq<Component>)

  datatype Sample = Sample(at: int, snapshot: Snapshot)

  const SECOND: int := 1_000_000_000
  const RESOLUTION: int := 15 * SECOND
  const HORIZON: int := 15 * 60 * SECOND
  const MAX_SAMPLES: nat := 62

  /** The first component of that name. */
  function FindComponent(components: seq<Component>, name: string): Option<Component> {
    if components == [] then None
    else if components[0].name == name then Some(components[0])
    else FindComponent(components[1..], name)
  }

  predicate NoneBefore(components: seq<Component>, name: string, i: int) {
    forall j :: 0 <= j < i < |components| ==> components[j].name != name
  }

  lemma {:induction false} FindsFirstComponent(components: seq<Component>, name: string)
    ensures match FindComponent(components, name)
      case None => forall c :: c in components ==> c.name != name
      case Some(c) => c.name == name && exists i :: 0 <= i < |components| && components[i] == c && NoneBefore(components, name, i)
  {
    if components != [] && components[0].name != name {
      var rest := components[1..];
      FindsFirstComponent(rest, name);
      if FindComponent(rest, name).Some? {
        var c := FindComponent(rest, name).value;
        var i :| 0 <= i < |rest| && rest[i] == c && NoneBefore(rest, name, i);
        forall j | 0 <= j < i + 1 ensures components[j].name != name {
          assert j > 0 ==> components[j] == rest[j - 1];
        }
        assert components[i + 1] == c && NoneBefore(components, name, i + 1);
      }
    }
  }

  predicate Alike(metric: Metric, target: Metric) {
    metric.kind == target.kind && metric.identity == target.identity
  }

  /** The first metric of the same kind and identity. */
  function FindMetric(metrics: seq<Metric>, target: Metric): Option<Metric> {
    if metrics == [] then None
    else if Alike(metrics[0], target) then Some(metrics[0])
    else FindMetric(metrics[1..], target)
  }

  predicate NoneAlikeBefore(metrics: seq<Metric>, target: Metric, i: int) {
    forall j :: 0 <= j < i < |metrics| ==> !Alike(metrics[j], target)
  }

  lemma {:induction false} FindsAlikeMetric(metrics: seq<Metric>, target: Metric)
    ensures match FindMetric(metrics, target)
      case None => forall m :: m in metrics ==> !Alike(m, target)
      case Some(m) =>
        && m in metrics && m.kind == target.kind && m.identity == target.identity
        && exists i :: 0 <= i < |metrics| && metrics[i] == m && NoneAlikeBefore(metrics, target, i)
  {
    if metrics != [] && !Alike(metrics[0], target) {
      var rest := metrics[1..];
      FindsAlikeMetric(rest, target);
      if FindMetric(rest, target).Some? {
        var i :| 0 <= i < |rest| && rest[i] == FindMetric(rest, target).value && NoneAlikeBefore(rest, target, i);
        forall j | 0 <= j < i + 1 ensures !Alike(metrics[j], target) {
          assert j > 0 ==> metrics[j] == rest[j - 1];
        }
        assert metrics[i + 1] == rest[i] && NoneAlikeBefore(metrics, target, i + 1);
      }
    } else if metrics != [] {
      assert NoneAlikeBefore(metrics, target, 0);
    }
  }

  /** A counter or a bucket went down, or the two cannot be compared. */
  predicate Regressed(previous: Metric, current: Metric) {
    match current.kind
    case Counter => current.value < previous.value
    case Histogram =>
      || |current.buckets| != |previous.buckets|
      || exists i :: 0 <= i < |current.buckets| && current.buckets[i] < previous.buckets[i]
    case OtherKind => true
  }

  /** The older value is nowhere above the newer: not for a counter, and for a histogram in no bucket. */
  ghost predicate NowhereAbove(previous: Metric, current: Metric) {
    match current.kind
    case Counter => previous.value <= current.value
    case Histogram =>
      |previous.buckets| == |current.buckets| && forall i :: 0 <= i < |previous.buckets| ==> previous.buckets[i] <= current.buckets[i]
    case OtherKind => false
  }

  lemma RegressedIff(previous: Metric, current: Metric)
    ensures Regressed(previous, current) <==> !NowhereAbove(previous, current)
  {
    if Regressed(previous, current) && current.kind.Histogram? && |current.buckets| == |previous.buckets| {
      var i :| 0 <= i < |current.buckets| && current.buckets[i] < previous.buckets[i];
      assert previous.buckets[i] > current.buckets[i];
    }
  }

  predicate SameMetric(left: Metric, right: Component) {
    var found := FindMetric(right.metrics, left);
    found.Some? && left.availability == found.value.availability && !Regressed(left, found.value)
  }

  predicate SameComponent(left: Component, right: Snapshot) {
    var found := FindComponent(right.components, left.name);
    && found.Some?
    && left.start == found.value.start
    && left.availability == found.value.availability
    && left.stale == found.value.stale
    && |left.metrics| == |found.value.metrics|
    && forall m :: m in left.metrics ==> SameMetric(m, found.value)
  }

  predicate SameAvailability(left: Snapshot, right: Snapshot) {
    |left.components| == |right.components| && forall c :: c in left.components ==> SameComponent(c, right)
  }

  /** Only counters and histograms are kept. */
  function CompactMetrics(metrics: seq<Metric>): seq<Metric> {
    if metrics == [] then []
    else (if metrics[0].kind.OtherKind? then [] else [metrics[0]]) + CompactMetrics(metrics[1..])
  }

  function CompactSnapshot(snapshot: Snapshot): Snapshot {
    snapshot.(components := seq(|snapshot.components|, i requires 0 <= i < |snapshot.components| =>
      snapshot.components[i].(metrics := CompactMetrics(snapshot.components[i].metrics))))
  }

  // ---------------------------------------------------------------------------------------
  // Compaction
  // ---------------------------------------------------------------------------------------

  ghost predicate Ordered(s: seq<Sample>) {
    forall i, j :: 0 <= i <= j < |s| ==> s[i].at <= s[j].at
  }

  /** The position of the first sample not before the cutoff. */
  function FirstRecent(s: seq<Sample>, cutoff: int): (f: nat)
    ensures f <= |s|
  {
    FirstFrom(s, cutoff, 0)
  }

  function FirstFrom(s: seq<Sample>, cutoff: int, k: nat): (f: nat)
    requires k <= |s|
    ensures k <= f <= |s|
    decreases |s| - k
  {
    if k == |s| || s[k].at >= cutoff then k else FirstFrom(s, cutoff, k + 1)
  }

  ghost predicate IsFirst(s: seq<Sample>, cutoff: int, k: nat, f: nat) {
    k <= f <= |s| && (forall i :: k <= i < f ==> s[i].at < cutoff) && (f < |s| ==> s[f].at >= cutoff)
  }

  lemma {:induction false} FirstFromIsFirst(s: seq<Sample>, cutoff: int, k: nat)
    requires k <= |s|
    ensures IsFirst(s, cutoff, k, FirstFrom(s, cutoff, k))
    decreases |s| - k
  {
    if k < |s| && s[k].at < cutoff {
      FirstFromIsFirst(s, cutoff, k + 1);
    }
  }

  lemma FirstRecentIff(s: seq<Sample>, cutoff: int, f: nat)
    ensures IsFirst(s, cutoff, 0, f) <==> f == FirstRecent(s, cutoff)
  {
    FirstFromIsFirst(s, cutoff, 0);
  }

  /** The samples of `s[lo..hi]` that are not before the cutoff. */
  function Recent(s: seq<Sample>, cutoff: int, lo: nat, hi: nat): (r: seq<Sample>)
    requires lo <= hi <= |s|
    ensures lo < hi && s[lo].at >= cutoff ==> r != []
    decreases hi
  {
    if lo == hi then []
    else Recent(s, cutoff, lo, hi - 1) + if s[hi - 1].at >= cutoff then [s[hi - 1]] else []
  }

  /** Of the first `hi` samples the recent ones, and the one just before the first of them. */
  function CompactedTo(s: seq<Sample>, cutoff: int, hi: nat): seq<Sample>
    requires hi <= |s|
  {
    var f := FirstRecent(s, cutoff);
    if hi <= f then [] else (if f > 0 then [s[f - 1]] else []) + Recent(s, cutoff, f, hi)
  }

  function Compacted(s: seq<Sample>, cutoff: int): seq<Sample> {
    CompactedTo(s, cutoff, |s|)
  }

  /** Compacts in place and returns how many samples are left.  What is written never reaches
      what is still to be read. */
  method Compact(a: array<Sample>, cutoff: int) returns (n: nat)
    modifies a
    ensures n <= a.Length && a[..n] == Compacted(old(a[..]), cutoff)
  {
    ghost var was := a[..];
    n := 0;
    FirstRecentIff(was, cutoff, FirstRecent(was, cutoff));
    for index := 0 to a.Length
      invariant n <= index
      invariant n == 0 ==> a[..] == was
      invariant forall k :: index <= k < a.Length ==> a[k] == was[k]
      invariant a[..n] == CompactedTo(was, cutoff, index)
    {
      var sample := a[index];
      if sample.at >= cutoff {
        if index > 0 && n == 0 {
          a[0] := a[index - 1];
          n := 1;
        }
        ghost var kept := a[..n];
        a[n] := sample;
        n := n + 1;
        assert a[..n] == kept + [sample];
      }
    }
  }

  /** Compaction of a slice through its backing array. */
  method CompactSlice(samples: seq<Sample>, cutoff: int) returns (kept: seq<Sample>)
    ensures kept == Compacted(samples, cutoff)
  {
    var buffer := new Sample[|samples|](i requires 0 <= i < |samples| => samples[i]);
    assert buffer[..] == samples;
    var n := Compact(buffer, cutoff);
    kept := buffer[..n];
  }

  // ---------------------------------------------------------------------------------------
  // The store
  // ---------------------------------------------------------------------------------------

  /** How the newest sample is compared with a new snapshot. */
  type Same = (Snapshot, Snapshot) -> bool

  /** The newest sample is recent and says the same as the observation `o`. */
  predicate Redundant(same: Same, samples: seq<Sample>, o: Sample) {
    && samples != []
    && o.at - samples[|samples| - 1].at < RESOLUTION
    && same(samples[|samples| - 1].snapshot, o.snapshot)
  }

  function Trimmed(s: seq<Sample>): seq<Sample> {
    if |s| > MAX_SAMPLES then s[|s| - MAX_SAMPLES..] else s
  }

  function Stored(samples: seq<Sample>, o: Sample): seq<Sample> {
    Trimmed(Compacted(samples + [o], o.at - HORIZON))
  }

  function Added(same: Same, samples: seq<Sample>, o: Sample): seq<Sample> {
    if Redundant(same, samples, o) then samples else Stored(samples, o)
  }

  /** The store after a run of observations. */
  function After(same: Same, obs: seq<Sample>): seq<Sample> {
    if obs == [] then [] else Added(same, After(same, obs[..|obs| - 1]), obs[|obs| - 1])
  }

  class WindowStore {
    var samples: seq<Sample>

    /** Appends a sample and cuts the store back. */
    method Append(o: Sample)
      modifies this
      ensures samples == Stored(old(samples), o)
    {
      samples := CompactSlice(samples + [o], o.at - HORIZON);
      if |samples| > MAX_SAMPLES {
        samples := samples[|samples| - MAX_SAMPLES..];
      }
    }

    method Add(now: int, snapshot: Snapshot)
      modifies this
      ensures samples == Added(SameAvailability, old(samples), Sample(now, CompactSnapshot(snapshot)))
      ensures var count := old(|samples|);
        if count != 0 && now - old(samples)[count - 1].at < 15_000_000_000
           && SameAvailability(old(samples)[count - 1].snapshot, CompactSnapshot(snapshot))
        then samples == old(samples)
        else samples == Stored(old(samples), Sample(now, CompactSnapshot(snapshot)))
    {
      var compact := CompactSnapshot(snapshot);
      var count := |samples|;
      if count != 0 && now - samples[count - 1].at < RESOLUTION {
        if SameAvailability(samples[count - 1].snapshot, compact) {
          return;
        }
      }
      Append(Sample(now, compact));
    }
  }

  // ---------------------------------------------------------------------------------------
  // The bounded store shows the end of an unbounded log
  // ---------------------------------------------------------------------------------------

  function Logged(same: Same, log: seq<Sample>, o: Sample): seq<Sample> {
    if Redundant(same, log, o) then log else log + [o]
  }

  /** Every sample that was ever stored. */
  function Log(same: Same, obs: seq<Sample>): seq<Sample> {
    if obs == [] then [] else Logged(same, Log(same, obs[..|obs| - 1]), obs[|obs| - 1])
  }

  function Max(a: int, b: int): int {
    if a > b then a else b
  }

  /** Where the last 15 minutes begin, and one sample before that. */
  function WindowStart(log: seq<Sample>): nat
    requires log != []
  {
    Max(FirstRecent(log, log[|log| - 1].at - HORIZON) - 1, 0)
  }

  /** The end of the log that the store shows. */
  function Shown(log: seq<Sample>): seq<Sample> {
    if log == [] then [] else Trimmed(log[WindowStart(log)..])
  }

  lemma {:induction false} OrderedRecent(s: seq<Sample>, cutoff: int, lo: nat, hi: nat)
    requires Ordered(s) && lo <= hi <= |s| && (lo < |s| ==> s[lo].at >= cutoff)
    ensures Recent(s, cutoff, lo, hi) == s[lo..hi]
    decreases hi
  {
    if lo < hi {
      OrderedRecent(s, cutoff, lo, hi - 1);
      assert s[lo].at <= s[hi - 1].at;
      assert s[lo..hi] == s[lo..hi - 1] + [s[hi - 1]];
    }
  }

  lemma WithOneBefore(s: seq<Sample>, f: nat)
    requires f <= |s|
    ensures s[f..|s|] == s[f..]
    ensures f > 0 ==> [s[f - 1]] + s[f..|s|] == s[f - 1..]
  {
  }

  lemma CompactedParts(s: seq<Sample>, cutoff: int, f: nat)
    requires f == FirstRecent(s, cutoff) && f < |s|
    ensures Compacted(s, cutoff) == if f > 0 then [s[f - 1]] + Recent(s, cutoff, f, |s|) else Recent(s, cutoff, f, |s|)
  {
  }

  /** In a list in order of time, compaction keeps an end of it. */
  lemma OrderedCompacted(s: seq<Sample>, cutoff: int, m: nat)
    requires Ordered(s) && s != [] && s[|s| - 1].at >= cutoff && m == Max(FirstRecent(s, cutoff) - 1, 0)
    ensures m <= |s| && Compacted(s, cutoff) == s[m..]
  {
    var f := FirstRecent(s, cutoff);
    FirstRecentIff(s, cutoff, f);
    CompactedParts(s, cutoff, f);
    OrderedRecent(s, cutoff, f, |s|);
    WithOneBefore(s, f);
  }

  lemma SuffixRecent(s: seq<Sample>, k: nat, cutoff: int)
    requires Ordered(s) && k <= |s|
    ensures FirstRecent(s[k..], cutoff) == Max(FirstRecent(s, cutoff) - k, 0)
  {
    var f := Max(FirstRecent(s, cutoff) - k, 0);
    FirstRecentIff(s, cutoff, FirstRecent(s, cutoff));
    assert forall i :: 0 <= i < |s[k..]| ==> s[k..][i] == s[k + i];
    FirstRecentIff(s[k..], cutoff, f);
  }

  lemma SuffixOrdered(s: seq<Sample>, k: nat)
    requires Ordered(s) && k < |s|
    ensures Ordered(s[k..]) && s[k..] != [] && s[k..][|s[k..]| - 1] == s[|s| - 1]
  {
    assert forall i :: 0 <= i < |s[k..]| ==> s[k..][i] == s[k + i];
  }

  lemma SuffixOfSuffix(s: seq<Sample>, k: nat, m: nat)
    requires k <= m <= |s|
    ensures s[k..][m - k..] == s[m..]
  {
  }

  /** Compacting an end of a list gives an end of the list. */
  lemma SuffixCompacted(s: seq<Sample>, k: nat, cutoff: int, m: nat)
    requires Ordered(s) && k < |s| && s[|s| - 1].at >= cutoff && m == Max(FirstRecent(s, cutoff) - 1, k)
    ensures m <= |s| && Compacted(s[k..], cutoff) == s[m..]
  {
    SuffixOrdered(s, k);
    SuffixRecent(s, k, cutoff);
    OrderedCompacted(s[k..], cutoff, m - k);
    SuffixOfSuffix(s, k, m);
  }

  /** The position in the log from which on the store shows it. */
  function ShownFrom(log: seq<Sample>): nat
    requires log != []
  {
    Max(WindowStart(log), |log| - MAX_SAMPLES)
  }

  lemma TrimmedSuffix(s: seq<Sample>, k: nat, m: nat)
    requires k <= |s| && m == Max(k, |s| - MAX_SAMPLES)
    ensures Trimmed(s[k..]) == s[m..]
  {
  }

  lemma ShownIsSuffix(log: seq<Sample>)
    requires log != []
    ensures ShownFrom(log) < |log| && Shown(log) == log[ShownFrom(log)..]
  {
    FirstRecentIff(log, log[|log| - 1].at - HORIZON, FirstRecent(log, log[|log| - 1].at - HORIZON));
    TrimmedSuffix(log, WindowStart(log), ShownFrom(log));
  }

  /** A later cutoff moves the start of the window on. */
  lemma WindowMovesOn(log: seq<Sample>, x: Sample)
    requires Ordered(log + [x]) && log != []
    ensures ShownFrom(log) <= ShownFrom(log + [x])
    ensures ShownFrom(log + [x]) == Max(Max(FirstRecent(log + [x], x.at - HORIZON) - 1, ShownFrom(log)), |log| + 1 - MAX_SAMPLES)
  {
    var all, last := log + [x], log[|log| - 1];
    assert all[|all| - 2] == last && all[|all| - 1] == x && last.at <= x.at;
    var f, g := FirstRecent(log, last.at - HORIZON), FirstRecent(all, x.at - HORIZON);
    FirstRecentIff(log, last.at - HORIZON, f);
    FirstRecentIff(all, x.at - HORIZON, g);
    assert f <= g;
  }

  lemma SuffixSnoc(log: seq<Sample>, x: Sample, k: nat)
    requires k <= |log|
    ensures log[k..] + [x] == (log + [x])[k..]
  {
  }

  lemma StoredFirst(x: Sample)
    ensures Stored([], x) == Shown([x])
  {
    assert [] + [x] == [x];
    FirstRecentIff([x], x.at - HORIZON, 0);
    OrderedCompacted([x], x.at - HORIZON, 0);
  }

  lemma StoredSuffix(log: seq<Sample>, x: Sample, k: nat, c: nat, m: nat)
    requires Ordered(log + [x]) && k < |log|
    requires c == Max(FirstRecent(log + [x], x.at - HORIZON) - 1, k) && m == Max(c, |log| + 1 - MAX_SAMPLES)
    ensures m <= |log| + 1 && Stored(log[k..], x) == (log + [x])[m..]
  {
    SuffixSnoc(log, x, k);
    SuffixCompacted(log + [x], k, x.at - HORIZON, c);
    TrimmedSuffix(log + [x], c, m);
  }

  lemma StoredNext(log: seq<Sample>, x: Sample)
    requires Ordered(log + [x]) && log != []
    ensures ShownFrom(log) < |log| && ShownFrom(log + [x]) <= |log| + 1
    ensures Stored(log[ShownFrom(log)..], x) == (log + [x])[ShownFrom(log + [x])..]
  {
    var k := ShownFrom(log);
    WindowMovesOn(log, x);
    StoredSuffix(log, x, k, Max(FirstRecent(log + [x], x.at - HORIZON) - 1, k), ShownFrom(log + [x]));
  }

  lemma StoredShows(log: seq<Sample>, x: Sample)
    requires Ordered(log + [x])
    ensures Stored(Shown(log), x) == Shown(log + [x])
  {
    if log == [] {
      assert log + [x] == [x];
      StoredFirst(x);
    } else {
      ShownIsSuffix(log);
      ShownIsSuffix(log + [x]);
      StoredNext(log, x);
    }
  }

  /** The log is in order and its newest sample is less than 15 seconds older than the last observation. */
  lemma {:induction false} LogOrdered(same: Same, obs: seq<Sample>)
    requires Ordered(obs)
    ensures Ordered(Log(same, obs))
    ensures obs != [] ==> Log(same, obs) != [] && 0 <= obs[|obs| - 1].at - Log(same, obs)[|Log(same, obs)| - 1].at < RESOLUTION
  {
    if obs != [] {
      var before, o := obs[..|obs| - 1], obs[|obs| - 1];
      LogOrdered(same, before);
      assert before != [] ==> before[|before| - 1].at <= o.at;
    }
  }

  lemma AddedShows(same: Same, log: seq<Sample>, o: Sample)
    requires Ordered(Logged(same, log, o))
    ensures Added(same, Shown(log), o) == Shown(Logged(same, log, o))
  {
    if log != [] {
      ShownIsSuffix(log);
    }
    if !Redundant(same, log, o) {
      StoredShows(log, o);
    }
  }

  /** The end of the log from the first sample of the last 15 minutes, in nanoseconds, or the one before it
      on; if these are more than 62, the last 62. */
  ghost predicate ShowsWindow(s: seq<Sample>, log: seq<Sample>) {
    log != [] && exists f: nat :: IsFirst(log, log[|log| - 1].at - 900_000_000_000, 0, f) && IsEnd(s, log, f)
  }

  predicate IsEnd(s: seq<Sample>, log: seq<Sample>, f: nat)
    requires f <= |log|
  {
    s == log[Max(Max(f - 1, 0), |log| - 62)..]
  }

  /** After any observations in order of time, the store is exactly what the log's last 15 minutes
      and one older sample give, cut to 62 samples. */
  lemma {:induction false} StoreShowsLog(same: Same, obs: seq<Sample>)
    requires Ordered(obs)
    ensures After(same, obs) == Shown(Log(same, obs))
  {
    if obs != [] {
      StoreShowsLog(same, obs[..|obs| - 1]);
      LogOrdered(same, obs);
      AddedShows(same, Log(same, obs[..|obs| - 1]), obs[|obs| - 1]);
    }
  }

  lemma ShownShowsWindow(log: seq<Sample>)
    requires log != []
    ensures ShowsWindow(Shown(log), log)
  {
    var f := FirstRecent(log, log[|log| - 1].at - HORIZON);
    FirstRecentIff(log, log[|log| - 1].at - HORIZON, f);
    ShownIsSuffix(log);
    assert IsEnd(Shown(log), log, f);
  }

  /** The same without naming how either of them is computed. */
  lemma StoreShowsWindow(same: Same, obs: seq<Sample>)
    requires Ordered(obs) && obs != []
    ensures ShowsWindow(After(same, obs), Log(same, obs))
  {
    StoreShowsLog(same, obs);
    LogOrdered(same, obs);
    ShownShowsWindow(Log(same, obs));
  }

  lemma ShownInvariant(log: seq<Sample>)
    requires Ordered(log) && log != []
    ensures var s := Shown(log);
      && Ordered(s) && 0 < |s| <= MAX_SAMPLES && s[|s| - 1] == log[|log| - 1]
      && forall i :: 1 <= i < |s| ==> s[i].at >= s[|s| - 1].at - HORIZON
  {
    ShownIsSuffix(log);
    var s, k := Shown(log), ShownFrom(log);
    assert forall i :: 0 <= i < |s| ==> s[i] == log[k + i];
    var f := FirstRecent(log, log[|log| - 1].at - HORIZON);
    FirstRecentIff(log, log[|log| - 1].at - HORIZON, f);
    assert forall i :: f <= i < |log| ==> log[i].at >= log[f].at;
  }

  /** The store is in order of time, holds at most 62 samples of which at most one is older than
      15 minutes before the newest, and its newest is less than 15 seconds behind. */
  lemma StoreInvariant(same: Same, obs: seq<Sample>)
    requires Ordered(obs) && obs != []
    ensures var s := After(same, obs);
      && Ordered(s) && 0 < |s| <= 62
      && (forall i :: 1 <= i < |s| ==> s[i].at >= s[|s| - 1].at - 900_000_000_000)
      && 0 <= obs[|obs| - 1].at - s[|s| - 1].at < 15_000_000_000
  {
    StoreShowsLog(same, obs);
    LogOrdered(same, obs);
    ShownInvariant(Log(same, obs));
  }

  // ---------------------------------------------------------------------------------------
  // When the limit of 62 matters
  // ---------------------------------------------------------------------------------------

  ghost predicate Spaced(s: seq<Sample>) {
    forall i :: 0 < i < |s| ==> s[i].at - s[i - 1].at >= RESOLUTION
  }

  lemma {:induction false} SpacedSpan(s: seq<Sample>, i: nat, j: nat)
    requires Spaced(s) && i <= j < |s|
    ensures s[j].at - s[i].at >= (j - i) * RESOLUTION
    decreases j
  {
    if i < j {
      SpacedSpan(s, i, j - 1);
    }
  }

  /** The observation comes within 15 seconds and is stored all the same. */
  predicate Forced(same: Same, log: seq<Sample>, o: Sample) {
    log != [] && o.at - log[|log| - 1].at < RESOLUTION && !Redundant(same, log, o)
  }

  ghost predicate Unforced(same: Same, obs: seq<Sample>) {
    forall k :: 0 <= k < |obs| ==> !Forced(same, Log(same, obs[..k]), obs[k])
  }

  lemma {:induction false} UnforcedSpaced(same: Same, obs: seq<Sample>)
    requires Unforced(same, obs)
    ensures Spaced(Log(same, obs))
  {
    if obs != [] {
      var before, o := obs[..|obs| - 1], obs[|obs| - 1];
      assert !Forced(same, Log(same, obs[..|obs| - 1]), o);
      forall k | 0 <= k < |before| ensures !Forced(same, Log(same, before[..k]), before[k]) {
        assert before[..k] == obs[..k];
      }
      UnforcedSpaced(same, before);
    }
  }

  lemma SpacedFits(log: seq<Sample>)
    requires Spaced(log) && log != []
    ensures |log| - WindowStart(log) <= MAX_SAMPLES
  {
    var f, last := FirstRecent(log, log[|log| - 1].at - HORIZON), |log| - 1;
    FirstRecentIff(log, log[|log| - 1].at - HORIZON, f);
    if f < |log| {
      SpacedSpan(log, f, last);
    }
  }

  lemma ShownWhole(log: seq<Sample>)
    requires Spaced(log) && log != []
    ensures Shown(log) == log[WindowStart(log)..]
  {
    SpacedFits(log);
  }

  /** Unless a change forces samples closer together, the limit never discards one: the store shows
      the whole window. */
  lemma LimitNeverBinds(same: Same, obs: seq<Sample>)
    requires Ordered(obs) && Unforced(same, obs) && obs != []
    ensures Log(same, obs) != [] && After(same, obs) == Log(same, obs)[WindowStart(Log(same, obs))..]
  {
    StoreShowsLog(same, obs);
    LogOrdered(same, obs);
    UnforcedSpaced(same, obs);
    ShownWhole(Log(same, obs));
  }
}
