/** `cmdCSV`: write a header, then for each query line send a csv request
    and hand every record of the reply to the CSV writer, prefixed with the
    query's index and text; the first fatal condition ends the run. */
module CsvMode {

  import opened Wrappers
  import opened Text
  import opened Protocol

  /** The header record, written before any query is sent. */
  const HEADER: Record := [Ascii("queryID"), Ascii("query"), Ascii("docID"), Ascii("document")]

  /** Everything a csv run does, in order: the requests it builds, the
      records it hands to the CSV writer, and how it ends. */
  datatype CsvRun = CsvRun(requests: seq<Request>, records: seq<Record>, outcome: Outcome)

  /** The records a reply hands over to the loop: those `csv.Reader` read
      from a 200 reply, and none otherwise. */
  function RecordsRead(resp: Response): seq<Record> {
    if resp.Reply? && resp.status == STATUS_OK then resp.csv.records else []
  }

  /** The rows written for records read in answer to query `q` with index `i`. */
  function Tag(i: nat, q: Bytes, recs: seq<Record>): (rows: seq<Record>)
    ensures |rows| == |recs|
    ensures forall m :: 0 <= m < |rows| ==> rows[m] == [Decimal(i), q] + recs[m]
  {
    seq(|recs|, m requires 0 <= m < |recs| => [Decimal(i), q] + recs[m])
  }

  /** What one iteration of the loop does with the service's answer: write
      some rows and go on, or write some rows and stop at a `log.Fatal`. */
  datatype Step = Next(rows: seq<Record>) | Stop(rows: seq<Record>, fault: Fault)

  /** The body of the loop after `client.Do`, for the query `q` whose index
      is `i`. Only a 200 reply whose records all read to the end lets the
      run go on; a read error after some records stops the run after those
      records were written. */
  function CsvStep(i: nat, q: Bytes, resp: Response): (s: Step)
    ensures s.rows == Tag(i, q, RecordsRead(resp))
    ensures s.Next? <==> resp.Reply? && resp.status == STATUS_OK && !resp.csv.failed
    ensures resp.SendError? ==> s == Stop([], SendFailed)
    ensures resp.Reply? && resp.status == STATUS_OK && resp.csv.failed ==> s.fault == CsvReadFailed
    ensures resp.Reply? && resp.status != STATUS_OK ==>
              s.fault == (if resp.body.None? then BodyReadFailed
                          else BadStatus(resp.status, resp.body.value))
  {
    match resp
    case SendError => Stop([], SendFailed)
    case Reply(status, body, _, csv) =>
      if status == STATUS_OK then
        var rows := Tag(i, q, csv.records);
        if csv.failed then Stop(rows, CsvReadFailed) else Next(rows)
      else if body.None? then Stop([], BodyReadFailed)
      else Stop([], BadStatus(status, body.value))
  }

  /** Whether line `j` of `xs` goes through without a fatal condition. */
  predicate Succeeds(xs: seq<Exchange>, j: nat)
    requires j < |xs|
  {
    CsvStep(j, xs[j].0, xs[j].1).Next?
  }

  /** The loop from line `i` on, without the header. Every earlier line
      succeeded, so the index of the source (counting successful queries)
      is also the position of the line: `i` is both. */
  function CsvLoop(dataset: Bytes, xs: seq<Exchange>, i: nat): (r: CsvRun)
    requires i <= |xs|
    ensures |r.requests| == (if r.outcome.Failed? then r.outcome.at + 1 else |xs|) - i
    ensures r.outcome.Failed? ==> i <= r.outcome.at < |xs| && r.outcome.query == xs[r.outcome.at].0
    decreases |xs| - i
  {
    if i == |xs| then CsvRun([], [], Completed)
    else
      var q := xs[i].0;
      var req := CreateRequest(dataset, Csv, q);
      match CsvStep(i, q, xs[i].1)
      case Stop(rows, fault) => CsvRun([req], rows, Failed(i, q, fault))
      case Next(rows) =>
        var rest := CsvLoop(dataset, xs, i + 1);
        CsvRun([req] + rest.requests, rows + rest.records, rest.outcome)
  }

  /** The loop from line `i` goes on exactly while lines succeed, and
      stops at the first line that does not, with that line's fault. */
  lemma {:induction false} CsvLoopFailFast(dataset: Bytes, xs: seq<Exchange>, i: nat)
    requires i <= |xs|
    ensures var r := CsvLoop(dataset, xs, i);
            && (r.outcome.Failed? ==>
                 && !Succeeds(xs, r.outcome.at)
                 && r.outcome.fault == CsvStep(r.outcome.at, xs[r.outcome.at].0, xs[r.outcome.at].1).fault)
            && (forall j :: i <= j < (if r.outcome.Failed? then r.outcome.at else |xs|) ==> Succeeds(xs, j))
    decreases |xs| - i
  {
    if i < |xs| && Succeeds(xs, i) {
      CsvLoopFailFast(dataset, xs, i + 1);
      assert CsvLoop(dataset, xs, i).outcome == CsvLoop(dataset, xs, i + 1).outcome;
    }
  }

  /** The loop from line `i` builds, in order, the request of each line
      it reaches. */
  lemma {:induction false} CsvLoopRequests(dataset: Bytes, xs: seq<Exchange>, i: nat)
    requires i <= |xs|
    ensures var r := CsvLoop(dataset, xs, i);
            forall j :: 0 <= j < |r.requests| ==> r.requests[j] == CreateRequest(dataset, Csv, xs[i + j].0)
    decreases |xs| - i
  {
    if i < |xs| {
      var r := CsvLoop(dataset, xs, i);
      if Succeeds(xs, i) {
        CsvLoopRequests(dataset, xs, i + 1);
        assert r.requests == [CreateRequest(dataset, Csv, xs[i].0)] + CsvLoop(dataset, xs, i + 1).requests;
      } else {
        assert r.requests == [CreateRequest(dataset, Csv, xs[i].0)];
      }
    }
  }

  /** A whole csv run: the header, then the loop from the first line. A
      request is built for a line only when every earlier line succeeded,
      and the run stops at the first line that does not. */
  function RunCsv(dataset: Bytes, xs: seq<Exchange>): (r: CsvRun)
    ensures 1 <= |r.records| && r.records[0] == HEADER
    ensures r.outcome.Completed? <==> forall j :: 0 <= j < |xs| ==> Succeeds(xs, j)
    ensures r.outcome.Completed? ==> |r.requests| == |xs|
    ensures r.outcome.Failed? ==>
              && r.outcome.at < |xs|
              && |r.requests| == r.outcome.at + 1
              && r.outcome.query == xs[r.outcome.at].0
              && !Succeeds(xs, r.outcome.at)
              && r.outcome.fault == CsvStep(r.outcome.at, xs[r.outcome.at].0, xs[r.outcome.at].1).fault
              && (forall j :: 0 <= j < r.outcome.at ==> Succeeds(xs, j))
    ensures forall j :: 0 <= j < |r.requests| ==>
              r.requests[j] == CreateRequest(dataset, Csv, xs[j].0)
  {
    var rest := CsvLoop(dataset, xs, 0);
    CsvLoopFailFast(dataset, xs, 0);
    CsvLoopRequests(dataset, xs, 0);
    CsvRun(rest.requests, [HEADER] + rest.records, rest.outcome)
  }

  /** The index a written row carries in its first field, read back. */
  function RowIndex(row: Record): nat {
    if 1 <= |row| && AllDigits(row[0]) then ParseDecimal(row[0]) else 0
  }

  /** `row` is one of the rows line `j` contributes: the index `j`, the
      query text, then one of the records read for it, unchanged. */
  predicate IsRowOf(row: Record, xs: seq<Exchange>, j: nat) {
    && j < |xs|
    && 2 <= |row|
    && row[0] == Decimal(j)
    && row[1] == xs[j].0
    && row[2..] in RecordsRead(xs[j].1)
  }

  /** The rows of `rows` whose index field is the rendering of `j`, in
      their order. */
  function RowsFor(rows: seq<Record>, j: nat): (sel: seq<Record>)
    ensures |sel| <= |rows|
  {
    if rows == [] then []
    else (if 1 <= |rows[0]| && rows[0][0] == Decimal(j) then [rows[0]] else []) + RowsFor(rows[1..], j)
  }

  /** The number of rows whose index field is the rendering of `j`. */
  function RowsWithIndex(rows: seq<Record>, j: nat): nat {
    |RowsFor(rows, j)|
  }

  lemma {:induction false} RowsForAppend(a: seq<Record>, b: seq<Record>, j: nat)
    ensures RowsFor(a + b, j) == RowsFor(a, j) + RowsFor(b, j)
    decreases |a|
  {
    if a == [] {
      assert a + b == b;
    } else {
      var ab := a + b;
      assert ab != [] && ab[0] == a[0] && ab[1..] == a[1..] + b;
      RowsForAppend(a[1..], b, j);
    }
  }

  /** Of the rows of one query, selecting by its own index keeps them all,
      and selecting by any other index keeps none. */
  lemma {:induction false} RowsForTag(i: nat, q: Bytes, recs: seq<Record>, j: nat)
    ensures RowsFor(Tag(i, q, recs), j) == if i == j then Tag(i, q, recs) else []
    decreases |recs|
  {
    DecimalInjective(i, j);
    if recs != [] {
      var t := Tag(i, q, recs);
      assert t[1..] == Tag(i, q, recs[1..]);
      RowsForTag(i, q, recs[1..], j);
      if i == j {
        assert t == [t[0]] + t[1..];
      }
    }
  }

  /** Every row of `rows` is a row of the line its index names, and that
      index lies in `[lo, hi)`. */
  predicate RowsOfLines(xs: seq<Exchange>, rows: seq<Record>, lo: nat, hi: nat) {
    forall k :: 0 <= k < |rows| ==>
      && lo <= RowIndex(rows[k]) < hi
      && IsRowOf(rows[k], xs, RowIndex(rows[k]))
  }

  /** The indices of `rows` never decrease. */
  predicate IndexSorted(rows: seq<Record>) {
    forall k, l :: 0 <= k <= l < |rows| ==> RowIndex(rows[k]) <= RowIndex(rows[l])
  }

  lemma RowsOfLinesAppend(xs: seq<Exchange>, a: seq<Record>, b: seq<Record>, lo: nat, mid: nat, hi: nat)
    requires lo <= mid <= hi
    requires RowsOfLines(xs, a, lo, mid) && RowsOfLines(xs, b, mid, hi)
    ensures RowsOfLines(xs, a + b, lo, hi)
    ensures IndexSorted(a) && IndexSorted(b) ==> IndexSorted(a + b)
  {
    var ab := a + b;
    forall k | 0 <= k < |ab|
      ensures lo <= RowIndex(ab[k]) < hi && IsRowOf(ab[k], xs, RowIndex(ab[k]))
    {
      if k < |a| { assert ab[k] == a[k]; } else { assert ab[k] == b[k - |a|]; }
    }
    if IndexSorted(a) && IndexSorted(b) {
      forall k, l | 0 <= k <= l < |ab| ensures RowIndex(ab[k]) <= RowIndex(ab[l]) {
        if l < |a| {
          assert ab[k] == a[k] && ab[l] == a[l];
        } else if k >= |a| {
          assert ab[k] == b[k - |a|] && ab[l] == b[l - |a|];
        } else {
          assert ab[k] == a[k] && ab[l] == b[l - |a|];
        }
      }
    }
  }

  /** The rows of line `i` are rows of that line, carry index `i`, and so
      are in index order. */
  lemma TagRowsShape(xs: seq<Exchange>, i: nat)
    requires i < |xs|
    ensures var rows := Tag(i, xs[i].0, RecordsRead(xs[i].1));
            RowsOfLines(xs, rows, i, i + 1) && IndexSorted(rows)
  {
    var recs := RecordsRead(xs[i].1);
    var rows := Tag(i, xs[i].0, recs);
    DecimalRoundTrip(i);
    forall k | 0 <= k < |rows| ensures RowIndex(rows[k]) == i && IsRowOf(rows[k], xs, i) {
      assert rows[k][2..] == recs[k];
    }
  }

  /** Every row the loop writes comes from a line it processed, and that
      line is named by the row's index: row `[decimal(j), query_j] + rec`
      with `rec` one of the records read for line `j`. The rows are in
      index order. */
  lemma {:induction false} CsvLoopRows(dataset: Bytes, xs: seq<Exchange>, i: nat)
    requires i <= |xs|
    ensures var r := CsvLoop(dataset, xs, i);
            RowsOfLines(xs, r.records, i, i + |r.requests|) && IndexSorted(r.records)
    decreases |xs| - i
  {
    if i < |xs| {
      var r := CsvLoop(dataset, xs, i);
      var rows := Tag(i, xs[i].0, RecordsRead(xs[i].1));
      TagRowsShape(xs, i);
      if CsvStep(i, xs[i].0, xs[i].1).Next? {
        var rest := CsvLoop(dataset, xs, i + 1);
        CsvLoopRows(dataset, xs, i + 1);
        assert r.records == rows + rest.records;
        assert |r.requests| == 1 + |rest.requests|;
        RowsOfLinesAppend(xs, rows, rest.records, i, i + 1, i + |r.requests|);
      } else {
        assert r.records == rows;
        assert |r.requests| == 1;
      }
    }
  }

  /** Selecting by index `j` from the rows of line `i` followed by later
      rows: the rows of line `i` when `j` is `i`, and the later ones' rows
      for `j` otherwise. */
  lemma RowsForCons(head: seq<Record>, rest: seq<Record>, i: nat, j: nat)
    requires RowsFor(head, j) == (if i == j then head else [])
    ensures RowsFor(head + rest, j) == (if i == j then head + RowsFor(rest, j) else RowsFor(rest, j))
  {
    RowsForAppend(head, rest, j);
  }

  /** One step of `CsvLoopRowsFor` on a line that succeeds: what holds
      from line `i + 1` on carries over to line `i`. */
  lemma CsvLoopRowsForNext(dataset: Bytes, xs: seq<Exchange>, i: nat, j: nat)
    requires i < |xs| && Succeeds(xs, i)
    requires var rest := CsvLoop(dataset, xs, i + 1);
             RowsFor(rest.records, j) ==
               if i + 1 <= j < i + 1 + |rest.requests| then Tag(j, xs[j].0, RecordsRead(xs[j].1)) else []
    ensures var r := CsvLoop(dataset, xs, i);
            RowsFor(r.records, j) ==
              if i <= j < i + |r.requests| then Tag(j, xs[j].0, RecordsRead(xs[j].1)) else []
  {
    var r := CsvLoop(dataset, xs, i);
    var rest := CsvLoop(dataset, xs, i + 1);
    var head := Tag(i, xs[i].0, RecordsRead(xs[i].1));
    RowsForTag(i, xs[i].0, RecordsRead(xs[i].1), j);
    assert r.records == head + rest.records;
    assert |r.requests| == 1 + |rest.requests|;
    RowsForCons(head, rest.records, i, j);
    if j == i {
      assert RowsFor(rest.records, j) == [];
      AppendEmpty(head);
    }
  }

  /** One step of `CsvLoopRowsFor` on a line that stops the run. */
  lemma CsvLoopRowsForStop(dataset: Bytes, xs: seq<Exchange>, i: nat, j: nat)
    requires i < |xs| && !Succeeds(xs, i)
    ensures var r := CsvLoop(dataset, xs, i);
            RowsFor(r.records, j) ==
              if i <= j < i + |r.requests| then Tag(j, xs[j].0, RecordsRead(xs[j].1)) else []
  {
    var r := CsvLoop(dataset, xs, i);
    RowsForTag(i, xs[i].0, RecordsRead(xs[i].1), j);
    assert r.records == Tag(i, xs[i].0, RecordsRead(xs[i].1)) && |r.requests| == 1;
  }

  /** The rows the loop writes for line `j`, picked out by their index
      field, are exactly that line's records, each once and in the order
      read, prefixed with the index and the query; lines the loop never
      reached have no rows. */
  lemma {:induction false} CsvLoopRowsFor(dataset: Bytes, xs: seq<Exchange>, i: nat, j: nat)
    requires i <= |xs|
    ensures var r := CsvLoop(dataset, xs, i);
            RowsFor(r.records, j) ==
              if i <= j < i + |r.requests| then Tag(j, xs[j].0, RecordsRead(xs[j].1)) else []
    decreases |xs| - i
  {
    if i < |xs| {
      if Succeeds(xs, i) {
        CsvLoopRowsFor(dataset, xs, i + 1, j);
        CsvLoopRowsForNext(dataset, xs, i, j);
      } else {
        CsvLoopRowsForStop(dataset, xs, i, j);
      }
    }
  }



  /** The header is written exactly once, first: no later record starts
      with the header's first field, since every later one starts with a
      decimal index. */
  lemma CsvHeaderOnce(dataset: Bytes, xs: seq<Exchange>)
    ensures var r := RunCsv(dataset, xs);
            r.records[0] == HEADER &&
            forall k :: 1 <= k < |r.records| ==> 1 <= |r.records[k]| && r.records[k][0] != HEADER[0]
  {
    var r := RunCsv(dataset, xs);
    var rest := CsvLoop(dataset, xs, 0);
    assert r.records == [HEADER] + rest.records;
    CsvLoopRows(dataset, xs, 0);
    assert !IsDigit(HEADER[0][0]);
    forall k | 1 <= k < |r.records|
      ensures 1 <= |r.records[k]| && r.records[k][0] != HEADER[0]
    {
      var row := rest.records[k - 1];
      assert r.records[k] == row;
      assert IsRowOf(row, xs, RowIndex(row));
      assert IsDigit(Decimal(RowIndex(row))[0]);
    }
  }

  /** Each row after the header belongs to the line its index names: it is
      that line's index and text followed by one of the records read for
      it, unchanged. The rows are in index order. */
  lemma CsvRowsShape(dataset: Bytes, xs: seq<Exchange>)
    ensures var r := RunCsv(dataset, xs);
            RowsOfLines(xs, r.records[1..], 0, |r.requests|) && IndexSorted(r.records[1..])
  {
    var r := RunCsv(dataset, xs);
    assert r.records[1..] == CsvLoop(dataset, xs, 0).records;
    CsvLoopRows(dataset, xs, 0);
  }

  /** The rows of the run for line `j`, picked out by their index field,
      are exactly the records read for that line, each once and in order,
      prefixed with the index and the query, when the run reached the line;
      otherwise there are none. */
  lemma CsvRowsFor(dataset: Bytes, xs: seq<Exchange>, j: nat)
    ensures var r := RunCsv(dataset, xs);
            RowsFor(r.records, j) ==
              if j < |r.requests| then Tag(j, xs[j].0, RecordsRead(xs[j].1)) else []
  {
    var rest := CsvLoop(dataset, xs, 0);
    CsvLoopRowsFor(dataset, xs, 0, j);
    assert HEADER[0][0] != Decimal(j)[0];
    RowsForAppend([HEADER], rest.records, j);
  }

  /** Every line the run processed contributes exactly as many rows as
      records were read for it, and lines it never reached contribute none. */
  lemma CsvRowsCount(dataset: Bytes, xs: seq<Exchange>, j: nat)
    ensures var r := RunCsv(dataset, xs);
            RowsWithIndex(r.records, j) == if j < |r.requests| then |RecordsRead(xs[j].1)| else 0
  {
    CsvRowsFor(dataset, xs, j);
  }

  /** Every index written is below the number of lines that succeeded,
      except in a run a read error stopped: there the rows already read for
      the failing line carry its index, which equals that number. */
  lemma CsvIndexBound(dataset: Bytes, xs: seq<Exchange>)
    ensures var r := RunCsv(dataset, xs);
            var succeeded := if r.outcome.Failed? then r.outcome.at else |xs|;
            forall k :: 1 <= k < |r.records| ==>
              RowIndex(r.records[k]) < succeeded ||
              (RowIndex(r.records[k]) == succeeded && r.outcome.Failed? &&
               r.outcome.fault == CsvReadFailed)
  {
    var r := RunCsv(dataset, xs);
    CsvRowsShape(dataset, xs);
    forall k | 1 <= k < |r.records| ensures RowIndex(r.records[k]) < |r.requests| {
      assert r.records[k] == r.records[1..][k - 1];
    }
    if r.outcome.Failed? {
      var at := r.outcome.at;
      assert CsvStep(at, xs[at].0, xs[at].1).fault == r.outcome.fault;
    }
  }

  /** The example of a single query "cat" answered with two documents. */
  lemma CsvSingleQueryExample(dataset: Bytes, cat: Bytes, rec1: Record, rec2: Record)
    ensures var xs := [(cat, Reply(STATUS_OK, None, None, CsvRead([rec1, rec2], false)))];
            RunCsv(dataset, xs).records == [HEADER, [Decimal(0), cat] + rec1, [Decimal(0), cat] + rec2]
  {
    var xs := [(cat, Reply(STATUS_OK, None, None, CsvRead([rec1, rec2], false)))];
    assert CsvLoop(dataset, xs, 1).records == [];
  }

  /** The inner loop of the source: every record read is written as the
      index and the query followed by the record. */
  method WriteRecords(written: seq<Record>, i: nat, q: Bytes, recs: seq<Record>)
    returns (out: seq<Record>)
    ensures out == written + Tag(i, q, recs)
  {
    out := written;
    var m := 0;
    while m < |recs|
      invariant m <= |recs|
      invariant out == written + Tag(i, q, recs[..m])
    {
      out := out + [[Decimal(i), q] + recs[m]];
      m := m + 1;
    }
    assert recs[..m] == recs;
  }

  /** The body of the source's loop for the line `q` with index `i`, after
      the request was sent: the rows it writes, and the fault it stops
      at, if any. */
  method HandleReply(written: seq<Record>, i: nat, q: Bytes, resp: Response)
    returns (out: seq<Record>, stop: Option<Fault>)
    ensures out == written + CsvStep(i, q, resp).rows
    ensures stop.None? <==> CsvStep(i, q, resp).Next?
    ensures stop.Some? ==> stop.value == CsvStep(i, q, resp).fault
  {
    out := written;
    match resp
    case SendError =>
      stop := Some(SendFailed);
    case Reply(status, body, _, csv) =>
      if status == STATUS_OK {
        out := WriteRecords(written, i, q, csv.records);
        stop := if csv.failed then Some(CsvReadFailed) else None;
      } else if body.None? {
        stop := Some(BodyReadFailed);
      } else {
        stop := Some(BadStatus(status, body.value));
      }
  }

  lemma AppendEmpty<T>(a: seq<T>)
    ensures a + [] == a
  {
  }

  lemma AppendAssoc<T>(a: seq<T>, b: seq<T>, c: seq<T>)
    ensures a + (b + c) == (a + b) + c
  {
  }

  /** One step of `CsvLoop` on a line that succeeds. */
  lemma CsvLoopNext(dataset: Bytes, xs: seq<Exchange>, i: nat)
    requires i < |xs| && Succeeds(xs, i)
    ensures var r := CsvLoop(dataset, xs, i);
            var rest := CsvLoop(dataset, xs, i + 1);
            && r.requests == [CreateRequest(dataset, Csv, xs[i].0)] + rest.requests
            && r.records == CsvStep(i, xs[i].0, xs[i].1).rows + rest.records
            && r.outcome == rest.outcome
  {
  }

  /** One step of `CsvLoop` on a line that stops the run. */
  lemma CsvLoopStop(dataset: Bytes, xs: seq<Exchange>, i: nat)
    requires i < |xs| && !Succeeds(xs, i)
    ensures var r := CsvLoop(dataset, xs, i);
            var step := CsvStep(i, xs[i].0, xs[i].1);
            && r.requests == [CreateRequest(dataset, Csv, xs[i].0)]
            && r.records == step.rows
            && r.outcome == Failed(i, xs[i].0, step.fault)
  {
  }

  /** The source's loop: the header, then an outer loop over the query
      lines with the counter `i` of successful queries. It does what
      `RunCsv` describes. */
  method CmdCsv(dataset: Bytes, xs: seq<Exchange>) returns (run: CsvRun)
    ensures run == RunCsv(dataset, xs)
  {
    ghost var full := CsvLoop(dataset, xs, 0);
    ghost var tail := full;
    var requests: seq<Request> := [];
    var written: seq<Record> := [HEADER];
    var i := 0;
    while i < |xs|
      invariant i <= |xs|
      invariant tail == CsvLoop(dataset, xs, i)
      invariant full.requests == requests + tail.requests
      invariant [HEADER] + full.records == written + tail.records
      invariant full.outcome == tail.outcome
      decreases |xs| - i
    {
      var q := xs[i].0;
      var req := CreateRequest(dataset, Csv, q);
      ghost var before := written;
      var stop;
      written, stop := HandleReply(written, i, q, xs[i].1);
      ghost var rows := CsvStep(i, q, xs[i].1).rows;
      if stop.Some? {
        CsvLoopStop(dataset, xs, i);
        assert tail == CsvRun([req], rows, Failed(i, q, stop.value));
        return CsvRun(requests + [req], written, Failed(i, q, stop.value));
      }
      CsvLoopNext(dataset, xs, i);
      ghost var next := CsvLoop(dataset, xs, i + 1);
      AppendAssoc(requests, [req], next.requests);
      AppendAssoc(before, rows, next.records);
      requests := requests + [req];
      tail := next;
      i := i + 1;
    }
    return CsvRun(requests, written, Completed);
  }
}
