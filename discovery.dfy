/** The post-processing of the two discovery queries (`metrics/find`): the
    server list and one server's metric list. The HTTP call and the JSON decode
    are given as their outcome. */
module Discovery {
  import opened Results
  import opened Paths

  /** One entry of a discovery answer, `{"path": ...}`. */
  datatype PathEntry = PathEntry(path: string)

  /** The server names of a discovery answer, in the answer's order. */
  function ServerNames(entries: seq<PathEntry>): seq<string>
  {
    seq(|entries|, k requires 0 <= k < |entries| => LastSegment(entries[k].path))
  }

  /** The metric paths of a discovery answer, in the answer's order. */
  function MetricPaths(entries: seq<PathEntry>): seq<string>
  {
    seq(|entries|, k requires 0 <= k < |entries| => entries[k].path)
  }

  /** `fetchServerList` after the query: a failed query is passed on; otherwise
      each entry gives one server name, the last segment of its path, in order. */
  method FetchServerList(response: Result<seq<PathEntry>>) returns (r: Result<seq<string>>)
    ensures r.Success? <==> response.Success?
    ensures response.Failure? ==> r.error == response.error
    ensures response.Success? ==> r.value == ServerNames(response.value)
  {
    if response.Failure? {
      return Failure(response.error);
    }
    var servers := response.value;
    var serverNames: seq<string> := [];
    for k := 0 to |servers|
      invariant |serverNames| == k
      invariant forall m :: 0 <= m < k ==> serverNames[m] == LastSegment(servers[m].path)
    {
      var parts := Split(servers[k].path);
      LastSegmentIsLastPiece(servers[k].path);
      serverNames := serverNames + [parts[|parts| - 1]];
    }
    return Success(serverNames);
  }

  /** `fetchMetricsList` after the query: a failed query is passed on; otherwise
      the paths are returned unchanged and in order. */
  method FetchMetricsList(response: Result<seq<PathEntry>>) returns (r: Result<seq<string>>)
    ensures r.Success? <==> response.Success?
    ensures response.Failure? ==> r.error == response.error
    ensures response.Success? ==> r.value == MetricPaths(response.value)
  {
    if response.Failure? {
      return Failure(response.error);
    }
    var metrics := response.value;
    var metricNames: seq<string> := [];
    for k := 0 to |metrics|
      invariant |metricNames| == k
      invariant forall m :: 0 <= m < k ==> metricNames[m] == metrics[m].path
    {
      metricNames := metricNames + [metrics[k].path];
    }
    return Success(metricNames);
  }
}
