/**
 * The operator directory: the flattening of the published log list into a
 * `description -> url` map (`get_log_sources`), and the filter that keeps the
 * logs whose signed-tree-head endpoint answers (`get_all_working_operators`).
 */
module Operators {
  import opened Options
  import opened Endpoints

  /** One log of the published list. */
  datatype Log = Log(description: string, url: string)

  /** A log operator and the logs it runs. */
  datatype Operator = Operator(name: string, logs: seq<Log>)

  /** The root of the published log list. */
  datatype LogList = LogList(operators: seq<Operator>)

  /** Every log of every operator, in the order the nested loops visit them. */
  function AllLogs(ops: seq<Operator>): seq<Log> {
    if |ops| == 0 then [] else AllLogs(ops[..|ops| - 1]) + ops[|ops| - 1].logs
  }

  function Descriptions(logs: seq<Log>): set<string> {
    set l | l in logs :: l.description
  }

  /** The url of the last log in `logs` described as `d`: the one a last-write-wins insert keeps. */
  function LastUrl(logs: seq<Log>, d: string): Option<string> {
    if |logs| == 0 then None
    else if logs[|logs| - 1].description == d then Some(logs[|logs| - 1].url)
    else LastUrl(logs[..|logs| - 1], d)
  }

  function Lookup(m: map<string, string>, key: string): Option<string> {
    if key in m then Some(m[key]) else None
  }

  /** `LastUrl` finds a url exactly when some log carries the description. */
  lemma {:induction false} LastUrlDefined(logs: seq<Log>, d: string)
    ensures LastUrl(logs, d).Some? <==> d in Descriptions(logs)
    decreases |logs|
  {
    if |logs| > 0 {
      var p := logs[..|logs| - 1];
      LastUrlDefined(p, d);
      assert logs == p + [logs[|logs| - 1]];
      assert Descriptions(logs) == Descriptions(p) + {logs[|logs| - 1].description};
    }
  }

  /** `logs[j]` is described as `d` and no later log is. */
  predicate IsLastWith(logs: seq<Log>, j: int, d: string) {
    0 <= j < |logs| && logs[j].description == d
    && forall j' :: j < j' < |logs| ==> logs[j'].description != d
  }

  lemma {:induction false} LastUrlOfLastWith(logs: seq<Log>, j: int, d: string)
    requires IsLastWith(logs, j, d)
    ensures LastUrl(logs, d) == Some(logs[j].url)
    decreases |logs|
  {
    var n := |logs| - 1;
    if j < n {
      assert IsLastWith(logs[..n], j, d);
      LastUrlOfLastWith(logs[..n], j, d);
    }
  }

  lemma {:induction false} LastWithOfLastUrl(logs: seq<Log>, d: string) returns (j: int)
    requires LastUrl(logs, d).Some?
    ensures IsLastWith(logs, j, d) && LastUrl(logs, d) == Some(logs[j].url)
    decreases |logs|
  {
    var n := |logs| - 1;
    if logs[n].description == d {
      j := n;
    } else {
      j := LastWithOfLastUrl(logs[..n], d);
    }
  }

  /**
   * `LastUrl` returns `u` exactly when some log described as `d` has url `u`
   * and no later log is described as `d`.
   */
  lemma {:induction false} LastUrlIsLastWrite(logs: seq<Log>, d: string, u: string)
    ensures LastUrl(logs, d) == Some(u) <==> exists j :: IsLastWith(logs, j, d) && logs[j].url == u
  {
    if LastUrl(logs, d) == Some(u) {
      var j := LastWithOfLastUrl(logs, d);
    }
    if exists j :: IsLastWith(logs, j, d) && logs[j].url == u {
      var j :| IsLastWith(logs, j, d) && logs[j].url == u;
      LastUrlOfLastWith(logs, j, d);
    }
  }

  lemma LastUrlAppend(logs: seq<Log>, l: Log, d: string)
    ensures LastUrl(logs + [l], d) == if l.description == d then Some(l.url) else LastUrl(logs, d)
  {
    assert (logs + [l])[..|logs|] == logs;
  }

  lemma AllLogsAppend(ops: seq<Operator>, i: nat)
    requires i < |ops|
    ensures AllLogs(ops[..i + 1]) == AllLogs(ops[..i]) + ops[i].logs
  {
    assert ops[..i + 1][..i] == ops[..i];
  }

  /**
   * `get_log_sources`: insert every log's `description -> url` in list order.
   * The keys are exactly the descriptions in the list, and each maps to the
   * url of the last log with that description.
   */
  method GetLogSources(list: LogList) returns (sources: map<string, string>)
    ensures sources.Keys == Descriptions(AllLogs(list.operators))
    ensures forall d :: Lookup(sources, d) == LastUrl(AllLogs(list.operators), d)
  {
    var ops := list.operators;
    sources := map[];
    var i := 0;
    while i < |ops|
      invariant 0 <= i <= |ops|
      invariant forall d :: Lookup(sources, d) == LastUrl(AllLogs(ops[..i]), d)
    {
      var logs := ops[i].logs;
      var j := 0;
      assert AllLogs(ops[..i]) + logs[..j] == AllLogs(ops[..i]);
      while j < |logs|
        invariant 0 <= j <= |logs|
        invariant forall d :: Lookup(sources, d) == LastUrl(AllLogs(ops[..i]) + logs[..j], d)
      {
        var seen := AllLogs(ops[..i]) + logs[..j];
        assert seen + [logs[j]] == AllLogs(ops[..i]) + logs[..j + 1];
        forall d
          ensures LastUrl(seen + [logs[j]], d) == Lookup(sources[logs[j].description := logs[j].url], d)
        {
          LastUrlAppend(seen, logs[j], d);
        }
        sources := sources[logs[j].description := logs[j].url];
        j := j + 1;
      }
      assert logs[..j] == logs;
      AllLogsAppend(ops, i);
      i := i + 1;
    }
    assert ops[..i] == ops;
    forall d
      ensures d in sources <==> d in Descriptions(AllLogs(ops))
    {
      LastUrlDefined(AllLogs(ops), d);
    }
  }

  /**
   * `get_all_working_operators`: probe each log's signed-tree-head url and keep
   * the logs whose probe succeeded, each mapped to that probed url. `probe`
   * stands for the outcome of the request. The logs are taken in an arbitrary
   * order, so the result does not depend on the order in which the concurrent
   * probes finish.
   */
  method GetAllWorkingOperators(operators: map<string, string>, probe: string -> bool)
    returns (working: map<string, string>)
    ensures forall name :: name in working <==> name in operators && probe(SthUrl(operators[name]))
    ensures forall name :: name in working ==> working[name] == SthUrl(operators[name])
  {
    working := map[];
    var pending := operators.Keys;
    while pending != {}
      invariant pending <= operators.Keys
      invariant forall name :: name in working <==>
                  name in operators && name !in pending && probe(SthUrl(operators[name]))
      invariant forall name :: name in working ==> working[name] == SthUrl(operators[name])
      decreases pending
    {
      var name :| name in pending;
      var url := SthUrl(operators[name]);
      if probe(url) {
        working := working[name := url];
      }
      pending := pending - {name};
    }
  }
}
