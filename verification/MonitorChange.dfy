/**
 When two monitoring snapshots say the same.

 The comparison counts components and metrics and looks each one of the older snapshot up in
 the newer.  It is the same as asking both snapshots every possible question, which is what
 the window's readers do.
 */
module MonitorChange {

  import opened MonitorWindow
  import opened Wrappers

  // ---------------------------------------------------------------------------------------
  // Counting distinct keys
  // ---------------------------------------------------------------------------------------

  function Elements<T>(s: seq<T>): set<T> {
    set x | x in s
  }

  ghost predicate Distinct<T>(s: seq<T>) {
    forall i, j :: 0 <= i < j < |s| ==> s[i] != s[j]
  }

  lemma {:induction false} CountElements<T>(s: seq<T>)
    ensures |Elements(s)| <= |s|
    ensures Distinct(s) ==> |Elements(s)| == |s|
  {
    if s == [] {
      assert Elements(s) == {};
    } else {
      var front, last := s[..|s| - 1], s[|s| - 1];
      CountElements(front);
      assert s == front + [last];
      assert Elements(s) == Elements(front) + {last};
    }
  }

  lemma SubsetOfSameSize<T>(a: set<T>, b: set<T>)
    requires a <= b && |a| >= |b|
    ensures a == b
  {
    assert b == a + (b - a);
  }

  /** Of two lists of the same length, one with distinct elements that are all in the other has them all. */
  lemma Pigeonhole<T>(a: seq<T>, b: seq<T>)
    requires Distinct(a) && Elements(a) <= Elements(b) && |a| == |b|
    ensures Elements(a) == Elements(b)
  {
    CountElements(a);
    CountElements(b);
    SubsetOfSameSize(Elements(a), Elements(b));
  }

  // ---------------------------------------------------------------------------------------
  // Metrics
  // ---------------------------------------------------------------------------------------

  type MetricKey = (Kind, string)

  function KeyOf(m: Metric): MetricKey {
    (m.kind, m.identity)
  }

  function Keys(metrics: seq<Metric>): (r: seq<MetricKey>)
    ensures |r| == |metrics| && forall i :: 0 <= i < |r| ==> r[i] == KeyOf(metrics[i])
  {
    seq(|metrics|, i requires 0 <= i < |metrics| => KeyOf(metrics[i]))
  }

  lemma {:induction false} FindByKey(metrics: seq<Metric>, a: Metric, b: Metric)
    requires KeyOf(a) == KeyOf(b)
    ensures FindMetric(metrics, a) == FindMetric(metrics, b)
  {
    if metrics != [] {
      FindByKey(metrics[1..], a, b);
    }
  }

  /** A metric is found exactly if its key occurs. */
  lemma FoundIff(metrics: seq<Metric>, t: Metric)
    ensures FindMetric(metrics, t).Some? <==> KeyOf(t) in Elements(Keys(metrics))
  {
    FindsAlikeMetric(metrics, t);
    var found := FindMetric(metrics, t);
    if found.Some? {
      var i :| 0 <= i < |metrics| && metrics[i] == found.value;
      assert Keys(metrics)[i] == KeyOf(t);
    } else {
      assert forall i :: 0 <= i < |metrics| ==> metrics[i] in metrics && Keys(metrics)[i] != KeyOf(t);
    }
  }

  /** With distinct keys, looking a metric up finds it. */
  lemma FindsItself(metrics: seq<Metric>, m: Metric)
    requires Distinct(Keys(metrics)) && m in metrics
    ensures FindMetric(metrics, m) == Some(m)
  {
    FindsAlikeMetric(metrics, m);
    var found := FindMetric(metrics, m);
    var i :| 0 <= i < |metrics| && metrics[i] == m;
    assert Keys(metrics)[i] == KeyOf(m);
    if found.Some? {
      var j :| 0 <= j < |metrics| && metrics[j] == found.value;
      assert Keys(metrics)[j] == KeyOf(m);
    }
  }

  /** Both find it or neither does, with the same availability and no decrease. */
  predicate MetricAgrees(a: Option<Metric>, b: Option<Metric>) {
    (a.Some? <==> b.Some?) && (a.Some? ==> a.value.availability == b.value.availability && !Regressed(a.value, b.value))
  }

  ghost predicate MetricsAgree(a: seq<Metric>, b: seq<Metric>) {
    forall t :: MetricAgrees(FindMetric(a, t), FindMetric(b, t))
  }

  ghost predicate CountedMetrics(left: Component, right: Component) {
    |left.metrics| == |right.metrics| && forall m :: m in left.metrics ==> SameMetric(m, right)
  }

  lemma CountedAgree(left: Component, right: Component)
    requires CountedMetrics(left, right) && Distinct(Keys(left.metrics))
    ensures MetricsAgree(left.metrics, right.metrics)
  {
    var a, b := left.metrics, right.metrics;
    forall k | k in Elements(Keys(a)) ensures k in Elements(Keys(b)) {
      var i :| 0 <= i < |a| && Keys(a)[i] == k;
      assert SameMetric(a[i], right);
      FoundIff(b, a[i]);
    }
    Pigeonhole(Keys(a), Keys(b));
    forall t ensures MetricAgrees(FindMetric(a, t), FindMetric(b, t)) {
      FoundIff(a, t);
      FoundIff(b, t);
      FindsAlikeMetric(a, t);
      if FindMetric(a, t).Some? {
        var m := FindMetric(a, t).value;
        FindByKey(b, m, t);
        assert SameMetric(m, right);
      }
    }
  }

  lemma AgreeCounted(left: Component, right: Component)
    requires MetricsAgree(left.metrics, right.metrics) && Distinct(Keys(left.metrics)) && Distinct(Keys(right.metrics))
    ensures CountedMetrics(left, right)
  {
    var a, b := left.metrics, right.metrics;
    forall t ensures KeyOf(t) in Elements(Keys(a)) <==> KeyOf(t) in Elements(Keys(b)) {
      FoundIff(a, t);
      FoundIff(b, t);
      assert MetricAgrees(FindMetric(a, t), FindMetric(b, t));
    }
    forall k ensures k in Elements(Keys(a)) <==> k in Elements(Keys(b)) {
      assert KeyOf(Metric(k.1, k.0, "", 0, [])) == k;
    }
    assert Elements(Keys(a)) == Elements(Keys(b));
    CountElements(Keys(a));
    CountElements(Keys(b));
    forall m | m in a ensures SameMetric(m, right) {
      FindsItself(a, m);
      assert MetricAgrees(FindMetric(a, m), FindMetric(b, m));
    }
  }

  // ---------------------------------------------------------------------------------------
  // Components
  // ---------------------------------------------------------------------------------------

  function Names(components: seq<Component>): (r: seq<string>)
    ensures |r| == |components| && forall i :: 0 <= i < |r| ==> r[i] == components[i].name
  {
    seq(|components|, i requires 0 <= i < |components| => components[i].name)
  }

  lemma NamedIff(components: seq<Component>, name: string)
    ensures FindComponent(components, name).Some? <==> name in Elements(Names(components))
    ensures FindComponent(components, name).Some? ==>
      FindComponent(components, name).value in components && FindComponent(components, name).value.name == name
  {
    FindsFirstComponent(components, name);
    if FindComponent(components, name).Some? {
      var i :| 0 <= i < |components| && components[i] == FindComponent(components, name).value;
      assert Names(components)[i] == name;
    } else {
      assert forall i :: 0 <= i < |components| ==> components[i] in components && Names(components)[i] != name;
    }
  }

  lemma FindsOwnName(components: seq<Component>, c: Component)
    requires Distinct(Names(components)) && c in components
    ensures FindComponent(components, c.name) == Some(c)
  {
    NamedIff(components, c.name);
    var i :| 0 <= i < |components| && components[i] == c;
    assert Names(components)[i] == c.name;
    var found := FindComponent(components, c.name);
    if found.Some? {
      var j :| 0 <= j < |components| && components[j] == found.value;
      assert Names(components)[j] == c.name;
    }
  }

  /** Both know the component or neither does, from the same process, in the same condition, and
      with metrics that agree. */
  ghost predicate ComponentAgrees(a: Option<Component>, b: Option<Component>) {
    && (a.Some? <==> b.Some?)
    && (a.Some? ==>
      && a.value.start == b.value.start && a.value.availability == b.value.availability && a.value.stale == b.value.stale
      && MetricsAgree(a.value.metrics, b.value.metrics))
  }

  /** The two snapshots answer every question alike. */
  ghost predicate Agree(left: Snapshot, right: Snapshot) {
    forall name :: ComponentAgrees(FindComponent(left.components, name), FindComponent(right.components, name))
  }

  /** Names and metrics occur once. */
  ghost predicate Unambiguous(s: Snapshot) {
    Distinct(Names(s.components)) && forall c :: c in s.components ==> Distinct(Keys(c.metrics))
  }

  lemma SameNames(left: Snapshot, right: Snapshot)
    requires SameAvailability(left, right) && Unambiguous(left)
    ensures Elements(Names(left.components)) == Elements(Names(right.components))
  {
    var a, b := left.components, right.components;
    forall name | name in Elements(Names(a)) ensures name in Elements(Names(b)) {
      var i :| 0 <= i < |a| && Names(a)[i] == name;
      assert SameComponent(a[i], right);
      NamedIff(b, name);
    }
    Pigeonhole(Names(a), Names(b));
  }

  lemma SameAgree(left: Snapshot, right: Snapshot)
    requires SameAvailability(left, right) && Unambiguous(left)
    ensures Agree(left, right)
  {
    SameNames(left, right);
    forall name ensures ComponentAgrees(FindComponent(left.components, name), FindComponent(right.components, name)) {
      NamedIff(left.components, name);
      NamedIff(right.components, name);
      if FindComponent(left.components, name).Some? {
        var c := FindComponent(left.components, name).value;
        assert SameComponent(c, right);
        CountedAgree(c, FindComponent(right.components, name).value);
      }
    }
  }

  lemma AgreeSame(left: Snapshot, right: Snapshot)
    requires Agree(left, right) && Unambiguous(left) && Unambiguous(right)
    ensures SameAvailability(left, right)
  {
    var a, b := left.components, right.components;
    forall name ensures name in Elements(Names(a)) <==> name in Elements(Names(b)) {
      NamedIff(a, name);
      NamedIff(b, name);
      assert ComponentAgrees(FindComponent(a, name), FindComponent(b, name));
    }
    assert Elements(Names(a)) == Elements(Names(b));
    CountElements(Names(a));
    CountElements(Names(b));
    forall c | c in a ensures SameComponent(c, right) {
      FindsOwnName(a, c);
      assert ComponentAgrees(FindComponent(a, c.name), FindComponent(b, c.name));
      NamedIff(b, c.name);
      AgreeCounted(c, FindComponent(b, c.name).value);
    }
  }

  /** The comparison by counting and looking up is exactly agreement on every question: a component or
      metric that appears, disappears, restarts, changes its condition or goes down forces a sample. */
  lemma SameIffAgree(left: Snapshot, right: Snapshot)
    requires Unambiguous(left) && Unambiguous(right)
    ensures SameAvailability(left, right) <==> Agree(left, right)
  {
    if SameAvailability(left, right) {
      SameAgree(left, right);
    }
    if Agree(left, right) {
      AgreeSame(left, right);
    }
  }

  // ---------------------------------------------------------------------------------------
  // Compact snapshots
  // ---------------------------------------------------------------------------------------

  /** A compact list answers for counters and histograms what the full list answers, and nothing else. */
  lemma {:induction false} CompactAnswers(metrics: seq<Metric>, t: Metric)
    ensures FindMetric(CompactMetrics(metrics), t) == if t.kind.OtherKind? then None else FindMetric(metrics, t)
  {
    if metrics != [] {
      CompactAnswers(metrics[1..], t);
      var rest := CompactMetrics(metrics[1..]);
      assert ([metrics[0]] + rest)[1..] == rest && [] + rest == rest;
    }
  }

  /** The two components are the same but for the metrics, of which only the counters and histograms are found. */
  ghost predicate CompactOf(compact: Option<Component>, full: Option<Component>) {
    && (compact.Some? <==> full.Some?)
    && (full.Some? ==>
      && compact.value.name == full.value.name && compact.value.start == full.value.start
      && compact.value.captured == full.value.captured && compact.value.availability == full.value.availability
      && compact.value.stale == full.value.stale
      && forall t :: FindMetric(compact.value.metrics, t) == if t.kind.OtherKind? then None else FindMetric(full.value.metrics, t))
  }

  /** A compact snapshot knows every component that the full one knows, as it is, with its counters and
      histograms: no reader of a window can tell the two apart. */
  lemma CompactSnapshotAnswers(s: Snapshot, name: string)
    ensures CompactSnapshot(s).captured == s.captured && |CompactSnapshot(s).components| == |s.components|
    ensures CompactOf(FindComponent(CompactSnapshot(s).components, name), FindComponent(s.components, name))
  {
    CompactFinds(s, CompactSnapshot(s).components, name);
    if FindComponent(s.components, name).Some? {
      forall t ensures FindMetric(CompactMetrics(FindComponent(s.components, name).value.metrics), t)
                    == if t.kind.OtherKind? then None else FindMetric(FindComponent(s.components, name).value.metrics, t) {
        CompactAnswers(FindComponent(s.components, name).value.metrics, t);
      }
    }
  }

  lemma {:induction false} CompactFinds(s: Snapshot, compact: seq<Component>, name: string)
    requires compact == CompactSnapshot(s).components
    ensures FindComponent(compact, name).Some? <==> FindComponent(s.components, name).Some?
    ensures FindComponent(s.components, name).Some? ==>
      var c := FindComponent(s.components, name).value;
      FindComponent(compact, name) == Some(c.(metrics := CompactMetrics(c.metrics)))
    decreases |s.components|
  {
    if s.components != [] && s.components[0].name != name {
      var rest := Snapshot(s.captured, s.components[1..]);
      assert compact[1..] == CompactSnapshot(rest).components;
      CompactFinds(rest, compact[1..], name);
    }
  }
}
