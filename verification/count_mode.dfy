/** `cmdCount`: for each query line, send a count request and print
    `query: occurrences`; the first fatal condition ends the run. */
module CountMode {

  import opened Wrappers
  import opened Text
  import opened Protocol

  /** One console line of a count run. */
  datatype Printed = Printed(query: Bytes, occurrences: int)

  /** Everything a count run does, in order: the requests it builds, the
      lines it prints, and how it ends. */
  datatype CountRun = CountRun(requests: seq<Request>, printed: seq<Printed>, outcome: Outcome)

  /** What one iteration of the loop does with the service's answer: print
      a count and go on, or stop at a `log.Fatal`. */
  datatype Step = Print(occurrences: int) | Stop(fault: Fault)

  /** The body of the loop after `client.Do`. The body is read before the
      status is looked at, so a read error is fatal whatever the status; a
      JSON decode error is ignored and the zero count is printed. */
  function CountStep(resp: Response): (s: Step)
    ensures resp.SendError? ==> s == Stop(SendFailed)
    ensures resp.Reply? && resp.body.None? ==> s == Stop(BodyReadFailed)
    ensures resp.Reply? && resp.body.Some? && resp.status != STATUS_OK ==>
              s == Stop(BadStatus(resp.status, resp.body.value))
    ensures s.Print? <==> resp.Reply? && resp.body.Some? && resp.status == STATUS_OK
    ensures s.Print? && resp.occurrences.Some? ==> s.occurrences == resp.occurrences.value
    ensures s.Print? && resp.occurrences.None? ==> s.occurrences == 0
  {
    match resp
    case SendError => Stop(SendFailed)
    case Reply(status, body, occurrences, _) =>
      if body.None? then Stop(BodyReadFailed)
      else if status == STATUS_OK then Print(occurrences.GetOr(0))
      else Stop(BadStatus(status, body.value))
  }

  /** The loop from line `k` on. Lines before `k` have all been printed,
      so line `k` is also the `k`-th request of the run. */
  function CountLoop(dataset: Bytes, xs: seq<Exchange>, k: nat): (r: CountRun)
    requires k <= |xs|
    ensures r.outcome.Failed? ==> k <= r.outcome.at < |xs|
    ensures |r.printed| == (if r.outcome.Failed? then r.outcome.at else |xs|) - k
    ensures |r.requests| == |r.printed| + (if r.outcome.Failed? then 1 else 0)
    ensures forall j :: 0 <= j < |r.requests| ==>
              r.requests[j] == CreateRequest(dataset, Count, xs[k + j].0)
    ensures forall j :: 0 <= j < |r.printed| ==>
              r.printed[j].query == xs[k + j].0 &&
              CountStep(xs[k + j].1) == Print(r.printed[j].occurrences)
    ensures r.outcome.Failed? ==>
              r.outcome.query == xs[r.outcome.at].0 &&
              CountStep(xs[r.outcome.at].1) == Stop(r.outcome.fault)
    decreases |xs| - k
  {
    if k == |xs| then CountRun([], [], Completed)
    else
      var q := xs[k].0;
      var req := CreateRequest(dataset, Count, q);
      match CountStep(xs[k].1)
      case Stop(fault) => CountRun([req], [], Failed(k, q, fault))
      case Print(n) =>
        var rest := CountLoop(dataset, xs, k + 1);
        CountRun([req] + rest.requests, [Printed(q, n)] + rest.printed, rest.outcome)
  }

  /** A whole count run over the query lines paired with the answers. Every
      printed line is the query text and the count of the answer to it; a
      request is built for a line only when every earlier line was printed;
      and the run stops at the first line whose answer is fatal. */
  function RunCount(dataset: Bytes, xs: seq<Exchange>): (r: CountRun)
    ensures r.outcome.Completed? <==> forall j :: 0 <= j < |xs| ==> CountStep(xs[j].1).Print?
    ensures r.outcome.Completed? ==> |r.printed| == |r.requests| == |xs|
    ensures r.outcome.Failed? ==>
              && r.outcome.at < |xs|
              && |r.printed| == r.outcome.at
              && |r.requests| == r.outcome.at + 1
              && r.outcome.query == xs[r.outcome.at].0
              && CountStep(xs[r.outcome.at].1) == Stop(r.outcome.fault)
    ensures forall j :: 0 <= j < |r.requests| ==>
              r.requests[j] == CreateRequest(dataset, Count, xs[j].0)
    ensures forall j :: 0 <= j < |r.printed| ==>
              r.printed[j].query == xs[j].0 &&
              CountStep(xs[j].1) == Print(r.printed[j].occurrences)
  {
    var r := CountLoop(dataset, xs, 0);
    assert r.outcome.Failed? ==> !CountStep(xs[r.outcome.at].1).Print?;
    assert r.outcome.Completed? ==>
             forall j :: 0 <= j < |xs| ==> CountStep(xs[j].1) == Print(r.printed[j].occurrences);
    r
  }

  /** A reply with status 200 whose body is not valid JSON does not stop
      the run: zero is printed for it and the next line is processed. */
  lemma CountDecodeErrorIgnored(dataset: Bytes, xs: seq<Exchange>, k: nat)
    requires k < |xs|
    requires forall j :: 0 <= j < k ==> CountStep(xs[j].1).Print?
    requires xs[k].1.Reply? && xs[k].1.status == STATUS_OK
    requires xs[k].1.body.Some? && xs[k].1.occurrences.None?
    ensures var r := RunCount(dataset, xs);
            k < |r.printed| && r.printed[k] == Printed(xs[k].0, 0)
    ensures k + 1 < |xs| ==> k + 1 < |RunCount(dataset, xs).requests|
  {
    var r := RunCount(dataset, xs);
    assert CountStep(xs[k].1).Print?;
  }

  /** A body that cannot be read stops the run even when the status is 200. */
  lemma CountBodyReadErrorFatal(dataset: Bytes, xs: seq<Exchange>, k: nat)
    requires k < |xs|
    requires forall j :: 0 <= j < k ==> CountStep(xs[j].1).Print?
    requires xs[k].1.Reply? && xs[k].1.body.None?
    ensures RunCount(dataset, xs).outcome == Failed(k, xs[k].0, BodyReadFailed)
    ensures |RunCount(dataset, xs).requests| == k + 1
  {
    assert CountStep(xs[k].1) == Stop(BodyReadFailed);
  }

  /** The console text of one printed line, `fmt.Printf("%s: ", query)`
      followed by `fmt.Println(occurrences)` without its newline. */
  function RenderPrinted(p: Printed): (line: Bytes)
    ensures |p.query| + 2 < |line| && p.query <= line
    ensures line[|p.query|] == COLON && line[|p.query| + 1] == SPACE
    ensures forall k :: |p.query| + 2 <= k < |line| ==> line[k] == MINUS || IsDigit(line[k])
  {
    p.query + [COLON, SPACE] + SignedDecimal(p.occurrences)
  }

  /** The position of the last `c` in `s`, if any. */
  function LastIndex(s: Bytes, c: byte): (r: Option<nat>)
    ensures r.Some? ==> r.value < |s| && s[r.value] == c
    ensures r.Some? ==> forall j :: r.value < j < |s| ==> s[j] != c
    ensures r.None? ==> forall j :: 0 <= j < |s| ==> s[j] != c
  {
    if s == [] then None
    else if s[|s| - 1] == c then Some(|s| - 1)
    else LastIndex(s[..|s| - 1], c)
  }

  /** Reads a console line back: the query is everything before the last
      ": ", since a count never contains a ':'. */
  function ParsePrinted(line: Bytes): Option<Printed> {
    match LastIndex(line, COLON)
    case None => None
    case Some(p) =>
      if p + 1 < |line| && line[p + 1] == SPACE
      then Some(Printed(line[..p], ParseSigned(line[p + 2..])))
      else None
  }

  /** A printed line identifies its query and its count, even when the query
      itself contains ": ". */
  lemma PrintedRoundTrip(p: Printed)
    ensures ParsePrinted(RenderPrinted(p)) == Some(p)
  {
    var line := RenderPrinted(p);
    var d := SignedDecimal(p.occurrences);
    var at := |p.query|;
    assert line[at] == COLON && line[at + 1] == SPACE;
    assert line[at + 2..] == d;
    assert forall j :: at < j < |line| ==> line[j] != COLON by {
      forall j | at < j < |line| ensures line[j] != COLON {
        if j > at + 1 {
          assert line[j] == d[j - at - 2];
        }
      }
    }
    var r := LastIndex(line, COLON);
    assert r == Some(at);
    assert line[..at] == p.query;
    SignedDecimalRoundTrip(p.occurrences);
  }
}
