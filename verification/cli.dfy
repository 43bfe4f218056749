/** `main`: the action named on the command line is checked before
    anything else happens, then the batch loop of that action runs. */
module Cli {

  import opened Wrappers
  import opened Text
  import opened Protocol
  import opened OutputPath
  import opened CountMode
  import opened CsvMode

  /** What one invocation does: nothing at all for an unknown action; a
      count run; or a csv run writing to the derived results file. */
  datatype Session =
    | InvalidAction
    | CountSession(count: CountRun)
    | CsvSession(resultsName: Bytes, csv: CsvRun)

  /** `main` with the flags already parsed and the query file already read
      into lines, each paired with the service's answer to it. */
  function Main(action: Bytes, dataset: Bytes, filename: Bytes, xs: seq<Exchange>): (s: Session)
    ensures s.InvalidAction? <==> action != COUNT && action != CSV
    ensures s.CountSession? <==> action == COUNT
    ensures s.CountSession? ==> s.count == RunCount(dataset, xs)
    ensures s.CsvSession? ==> s.resultsName == ResultsName(filename) && s.csv == RunCsv(dataset, xs)
  {
    match ParseAction(action)
    case None => InvalidAction
    case Some(Count) => CountSession(RunCount(dataset, xs))
    case Some(Csv) => CsvSession(ResultsName(filename), RunCsv(dataset, xs))
  }

  /** The requests a session builds. */
  function Requests(s: Session): seq<Request> {
    match s
    case InvalidAction => []
    case CountSession(r) => r.requests
    case CsvSession(_, r) => r.requests
  }

  /** Request `k` of `reqs` is addressed to the endpoint `action` names and
      carries the dataset, query line `k` and that line's byte length. */
  predicate RequestsFor(action: Bytes, dataset: Bytes, xs: seq<Exchange>, reqs: seq<Request>) {
    forall k :: 0 <= k < |reqs| ==>
      && k < |xs|
      && EndpointAction(reqs[k].url) == ParseAction(action)
      && reqs[k].payload == Payload(dataset, |xs[k].0|, xs[k].0)
  }

  /** An unknown action builds no request and creates no results file;
      a known one addresses every request to the endpoint it names, with a
      payload carrying the configured dataset, the query line of that
      position and that line's length in bytes. */
  lemma SessionRequests(action: Bytes, dataset: Bytes, filename: Bytes, xs: seq<Exchange>)
    ensures var s := Main(action, dataset, filename, xs);
            s.InvalidAction? ==> Requests(s) == []
    ensures RequestsFor(action, dataset, xs, Requests(Main(action, dataset, filename, xs)))
  {
    var s := Main(action, dataset, filename, xs);
    forall k | 0 <= k < |Requests(s)|
      ensures && k < |xs|
              && EndpointAction(Requests(s)[k].url) == ParseAction(action)
              && Requests(s)[k].payload == Payload(dataset, |xs[k].0|, xs[k].0)
    {
      var a := ParseAction(action).value;
      assert Requests(s)[k] == CreateRequest(dataset, a, xs[k].0);
      CreateRequestEndpoint(dataset, a, xs[k].0);
    }
  }

  /** An empty query file completes at once: no request, nothing printed,
      and in csv mode only the header is written. */
  lemma EmptyInput(action: Bytes, dataset: Bytes, filename: Bytes)
    ensures var s := Main(action, dataset, filename, []);
            && (s.CountSession? ==> s.count == CountRun([], [], Completed))
            && (s.CsvSession? ==> s.csv == CsvRun([], [HEADER], Completed))
  {
  }
}
