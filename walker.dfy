/** The three-level walk of `main`: servers, then each server's metrics, then
    each metric's series, isolating every failure below the server discovery. */
module Walker {
  import opened Results
  import opened Paths
  import opened Statistics
  import opened Discovery

  /** One server's statistics, keyed by metric label. */
  type ServerStatistics = map<string, MetricStatistics>

  /** The report: one single-key map per surviving server, in discovery order. */
  type OutputFormat = seq<map<string, ServerStatistics>>

  /** What happens to each metric path: its statistics, or the error that made
      the walk skip it. */
  type Outcomes = string -> Result<MetricStatistics>

  /** The outcome of one metric: its range query (request and decode), then the
      reduction of the decoded series. */
  function MetricOutcome(render: string -> Result<seq<DataPoint>>, path: string): Result<MetricStatistics>
  {
    match render(path)
    case Failure(e) => Failure(e)
    case Success(series) => Reduce(Values(series))
  }

  /** The outcome of every metric path under the range query `render`. */
  function RenderOutcomes(render: string -> Result<seq<DataPoint>>): Outcomes
  {
    path => MetricOutcome(render, path)
  }

  /** True when the metric at `path` succeeds and is stored under `key`. */
  predicate Writes(outcome: Outcomes, path: string, key: string)
  {
    outcome(path).Success? && LastSegment(path) == key
  }

  /** The statistics map the inner loop builds from a server's metric paths:
      a failed metric is skipped, a successful one is stored under its label,
      replacing what an earlier metric stored there. */
  function ServerStats(outcome: Outcomes, metrics: seq<string>): ServerStatistics
  {
    if metrics == [] then map[]
    else
      var stats := ServerStats(outcome, metrics[..|metrics| - 1]);
      var path := metrics[|metrics| - 1];
      match outcome(path)
      case Failure(_) => stats
      case Success(st) => stats[LastSegment(path) := st]
  }

  /** The report entry of a server whose metric list succeeds: the server alone,
      mapped to the statistics of its metrics. */
  function Entry(listing: string -> Result<seq<PathEntry>>, outcome: Outcomes, server: string): map<string, ServerStatistics>
    requires listing(server).Success?
  {
    map[server := ServerStats(outcome, MetricPaths(listing(server).value))]
  }

  /** The report the outer loop builds from the discovered servers: a server
      whose metric list fails is skipped; every other server appends one entry. */
  function Report(listing: string -> Result<seq<PathEntry>>, outcome: Outcomes, servers: seq<string>): OutputFormat
  {
    if servers == [] then []
    else
      var output := Report(listing, outcome, servers[..|servers| - 1]);
      var server := servers[|servers| - 1];
      match listing(server)
      case Failure(_) => output
      case Success(_) => output + [Entry(listing, outcome, server)]
  }

  /** The positions of the servers whose metric list succeeds, in increasing
      order, and all of them. */
  function SurvivingIndices(listing: string -> Result<seq<PathEntry>>, servers: seq<string>): (idx: seq<nat>)
    ensures forall k :: 0 <= k < |idx| ==> idx[k] < |servers| && listing(servers[idx[k]]).Success?
    ensures forall k1, k2 :: 0 <= k1 < k2 < |idx| ==> idx[k1] < idx[k2]
    ensures forall i :: 0 <= i < |servers| && listing(servers[i]).Success? ==> i in idx
  {
    if servers == [] then []
    else
      var idx := SurvivingIndices(listing, servers[..|servers| - 1]);
      if listing(servers[|servers| - 1]).Success? then idx + [|servers| - 1] else idx
  }

  /** One more server, as the outer loop sees it. */
  lemma ReportStep(listing: string -> Result<seq<PathEntry>>, outcome: Outcomes, servers: seq<string>, i: nat)
    requires i < |servers|
    ensures listing(servers[i]).Failure? ==>
      Report(listing, outcome, servers[..i + 1]) == Report(listing, outcome, servers[..i])
    ensures listing(servers[i]).Success? ==>
      Report(listing, outcome, servers[..i + 1]) == Report(listing, outcome, servers[..i]) +
        [Entry(listing, outcome, servers[i])]
  {
    assert servers[..i + 1][..i] == servers[..i];
  }

  /** One more metric, as the inner loop sees it. */
  lemma ServerStatsStep(outcome: Outcomes, metrics: seq<string>, j: nat)
    requires j < |metrics|
    ensures outcome(metrics[j]).Failure? ==>
      ServerStats(outcome, metrics[..j + 1]) == ServerStats(outcome, metrics[..j])
    ensures outcome(metrics[j]).Success? ==>
      ServerStats(outcome, metrics[..j + 1]) ==
        ServerStats(outcome, metrics[..j])[LastSegment(metrics[j]) := outcome(metrics[j]).value]
  {
    assert metrics[..j + 1][..j] == metrics[..j];
  }

  /** Failure isolation at the server level: the report has exactly one entry
      per server whose metric list succeeds, in discovery order, and that entry
      maps the server alone to the statistics of its metrics, possibly none. */
  lemma {:induction false} ReportFollowsSurvivors(
    listing: string -> Result<seq<PathEntry>>,
    outcome: Outcomes,
    servers: seq<string>)
    ensures var idx := SurvivingIndices(listing, servers);
      var output := Report(listing, outcome, servers);
      && |output| == |idx|
      && forall k :: 0 <= k < |idx| ==>
           output[k] == Entry(listing, outcome, servers[idx[k]])
  {
    if servers != [] {
      var n := |servers| - 1;
      var init := servers[..n];
      ReportFollowsSurvivors(listing, outcome, init);
      ReportStep(listing, outcome, servers, n);
      assert servers[..n + 1] == servers;
      var idx := SurvivingIndices(listing, init);
      assert forall k :: 0 <= k < |idx| ==> init[idx[k]] == servers[idx[k]];
      if listing(servers[n]).Success? {
        assert SurvivingIndices(listing, servers) == idx + [n];
      } else {
        assert SurvivingIndices(listing, servers) == idx;
      }
    }
  }

  /** A server gets an entry exactly when it was discovered and its metric list
      succeeds; a failed one appears nowhere in the report. */
  lemma ReportKeys(listing: string -> Result<seq<PathEntry>>, outcome: Outcomes, servers: seq<string>, server: string)
    ensures (exists k :: 0 <= k < |Report(listing, outcome, servers)| && server in Report(listing, outcome, servers)[k])
      <==> server in servers && listing(server).Success?
  {
    ReportFollowsSurvivors(listing, outcome, servers);
    var idx := SurvivingIndices(listing, servers);
    var output := Report(listing, outcome, servers);
    if server in servers && listing(server).Success? {
      var i :| 0 <= i < |servers| && servers[i] == server;
      assert i in idx;
      var k :| 0 <= k < |idx| && idx[k] == i;
      assert server in output[k];
    }
  }

  /** Every key of a server's map was written by a successful metric with that label. */
  lemma {:induction false} ServerStatsKeyWritten(outcome: Outcomes, metrics: seq<string>, key: string)
    requires key in ServerStats(outcome, metrics)
    ensures exists j :: 0 <= j < |metrics| && Writes(outcome, metrics[j], key)
  {
    var n := |metrics| - 1;
    var init := metrics[..n];
    ServerStatsStep(outcome, metrics, n);
    assert metrics[..n + 1] == metrics;
    if key in ServerStats(outcome, init) {
      ServerStatsKeyWritten(outcome, init, key);
      var j :| 0 <= j < |init| && Writes(outcome, init[j], key);
      assert init[j] == metrics[j];
      assert Writes(outcome, metrics[j], key);
    } else {
      assert Writes(outcome, metrics[n], key);
    }
  }

  /** Every successful metric leaves its label as a key, whatever comes after it. */
  lemma {:induction false} ServerStatsKeyPresent(outcome: Outcomes, metrics: seq<string>, j: nat)
    requires j < |metrics| && outcome(metrics[j]).Success?
    ensures LastSegment(metrics[j]) in ServerStats(outcome, metrics)
  {
    var n := |metrics| - 1;
    var init := metrics[..n];
    ServerStatsStep(outcome, metrics, n);
    assert metrics[..n + 1] == metrics;
    if j < n {
      assert init[j] == metrics[j];
      ServerStatsKeyPresent(outcome, init, j);
    }
  }

  /** Failure isolation at the metric level: a label is a key of the server's
      map exactly when some metric with that label succeeds. */
  lemma {:induction false} ServerStatsKeys(outcome: Outcomes, metrics: seq<string>, key: string)
    ensures key in ServerStats(outcome, metrics) <==>
      exists j :: 0 <= j < |metrics| && Writes(outcome, metrics[j], key)
  {
    if key in ServerStats(outcome, metrics) {
      ServerStatsKeyWritten(outcome, metrics, key);
    }
    if exists j :: 0 <= j < |metrics| && Writes(outcome, metrics[j], key) {
      var j :| 0 <= j < |metrics| && Writes(outcome, metrics[j], key);
      ServerStatsKeyPresent(outcome, metrics, j);
    }
  }

  /** Last write wins: the value under a label is the statistics of the last
      successful metric with that label. */
  lemma {:induction false} ServerStatsLastWriteWins(outcome: Outcomes, metrics: seq<string>, j: nat)
    requires j < |metrics| && outcome(metrics[j]).Success?
    requires forall j' :: j < j' < |metrics| ==> !Writes(outcome, metrics[j'], LastSegment(metrics[j]))
    ensures LastSegment(metrics[j]) in ServerStats(outcome, metrics)
    ensures ServerStats(outcome, metrics)[LastSegment(metrics[j])] == outcome(metrics[j]).value
  {
    var n := |metrics| - 1;
    var init := metrics[..n];
    ServerStatsStep(outcome, metrics, n);
    assert metrics[..n + 1] == metrics;
    if j < n {
      assert init[j] == metrics[j];
      assert forall j' :: j < j' < |init| ==> init[j'] == metrics[j'];
      ServerStatsLastWriteWins(outcome, init, j);
    }
  }

  /** Two successful metric paths with the same label, such as `a.b.cpu` and
      `x.y.cpu` (see Paths.LabelsCollide): the map keeps one key, holding the
      second one's statistics. */
  lemma CollisionKeepsLater(outcome: Outcomes, first: string, second: string)
    requires outcome(first).Success? && outcome(second).Success?
    requires LastSegment(first) == LastSegment(second)
    ensures ServerStats(outcome, [first, second]) == map[LastSegment(second) := outcome(second).value]
  {
    var metrics := [first, second];
    assert metrics[..1] == [first] && metrics[..1][..0] == [];
    assert ServerStats(outcome, [first]) == map[LastSegment(first) := outcome(first).value];
  }

  /** A server with one failing and one succeeding metric keeps exactly one
      key, the label of the one that succeeded. */
  lemma OneFailedMetric(outcome: Outcomes, failing: string, succeeding: string)
    requires outcome(failing).Failure? && outcome(succeeding).Success?
    ensures ServerStats(outcome, [failing, succeeding]).Keys == {LastSegment(succeeding)}
  {
    var metrics := [failing, succeeding];
    assert metrics[..1] == [failing] && metrics[..1][..0] == [];
    assert ServerStats(outcome, [failing]) == map[];
    assert ServerStats(outcome, metrics) == map[LastSegment(succeeding) := outcome(succeeding).value];
  }

  /** `main` after reading the configuration: discover the servers (a failure
      ends the run with no report), then for each server list its metrics
      (skipping the server on failure), fetch and reduce each metric (skipping
      the metric on failure), store it under its label, and append one entry
      per surviving server. */
  method Run(
    discovery: Result<seq<PathEntry>>,
    listing: string -> Result<seq<PathEntry>>,
    render: string -> Result<seq<DataPoint>>)
    returns (r: Result<OutputFormat>)
    ensures r.Success? <==> discovery.Success?
    ensures discovery.Failure? ==> r.error == discovery.error
    ensures discovery.Success? ==>
      r.value == Report(listing, RenderOutcomes(render), ServerNames(discovery.value))
  {
    var discovered := FetchServerList(discovery);
    if discovered.Failure? {
      return Failure(discovered.error);
    }
    var servers := discovered.value;
    ghost var outcome := RenderOutcomes(render);
    var output: OutputFormat := [];
    for i := 0 to |servers|
      invariant output == Report(listing, outcome, servers[..i])
    {
      var server := servers[i];
      ReportStep(listing, outcome, servers, i);
      var listed := FetchMetricsList(listing(server));
      if listed.Failure? {
        continue;
      }
      var metrics := listed.value;
      var serverStats: ServerStatistics := map[];
      for j := 0 to |metrics|
        invariant serverStats == ServerStats(outcome, metrics[..j])
      {
        var metric := metrics[j];
        ServerStatsStep(outcome, metrics, j);
        var data := render(metric);
        if data.Failure? {
          continue;
        }
        var stats := CalculateStatistics(data.value);
        if stats.Failure? {
          continue;
        }
        var parts := Split(metric);
        LastSegmentIsLastPiece(metric);
        var metricName := parts[|parts| - 1];
        serverStats := serverStats[metricName := stats.value];
      }
      assert metrics[..|metrics|] == metrics;
      output := output + [map[server := serverStats]];
    }
    assert servers[..|servers|] == servers;
    return Success(output);
  }
}
