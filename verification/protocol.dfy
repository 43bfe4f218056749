/** The two actions the command line accepts, the request built for one
    query line (`createRequest` in cmd/cli/main.go), and the abstract view
    of the service's reply that both batch loops consume. */
module Protocol {

  import opened Wrappers
  import opened Text

  /** Base address of the query service; an action name is appended to it. */
  const LOCALHOST: Bytes := Ascii("http://localhost:8080/")

  const COUNT: Bytes := Ascii("count")
  const CSV: Bytes := Ascii("csv")

  const POST: Bytes := Ascii("POST")
  const JSON_CONTENT: Bytes := Ascii("application/json")

  /** `http.StatusOK` */
  const STATUS_OK: int := 200

  datatype Action = Count | Csv

  /** The command-line spelling of an action; it is also the endpoint path. */
  function ActionName(a: Action): (s: Bytes)
    ensures ParseAction(s) == Some(a)
  {
    match a
    case Count => COUNT
    case Csv => CSV
  }

  /** The gate in `main`: only "count" and "csv" name an action. */
  function ParseAction(s: Bytes): (r: Option<Action>)
    ensures r.Some? <==> s == COUNT || s == CSV
    ensures r.Some? ==> (r.value == Count <==> s == COUNT)
  {
    if s == COUNT then Some(Count)
    else if s == CSV then Some(Csv)
    else None
  }

  /** The JSON request body, `handlers.RequestData`. */
  datatype Payload = Payload(dataset: Bytes, length: int, query: Bytes)

  datatype Request = Request(verb: Bytes, url: Bytes, contentType: Bytes, payload: Payload)

  /** The action a request URL addresses, read back from the URL alone. */
  function EndpointAction(url: Bytes): Option<Action> {
    if LOCALHOST <= url then ParseAction(url[|LOCALHOST|..]) else None
  }

  /** `createRequest`: the payload carries the dataset, the query line and
      the line's length in bytes, and the request is a JSON POST to the
      service's base address followed by the action name. */
  function CreateRequest(dataset: Bytes, action: Action, query: Bytes): (req: Request)
    ensures req.payload.dataset == dataset && req.payload.query == query
    ensures req.payload.length == |req.payload.query|
    ensures req.verb == POST && req.contentType == JSON_CONTENT
  {
    Request(POST, LOCALHOST + ActionName(action), JSON_CONTENT, Payload(dataset, |query|, query))
  }

  /** A request is addressed to the service's base address followed by the
      action's name, so the action can be read back from the URL alone. */
  lemma CreateRequestEndpoint(dataset: Bytes, action: Action, query: Bytes)
    ensures var url := CreateRequest(dataset, action, query).url;
            LOCALHOST <= url && EndpointAction(url) == Some(action)
  {
    var url := LOCALHOST + ActionName(action);
    assert url[|LOCALHOST|..] == ActionName(action);
  }

  /** One record as `csv.Reader.Read` returns it: a list of fields. */
  type Record = seq<Bytes>

  /** What reading a reply body with `csv.Reader` until end of stream yields:
      the records read, and whether the reading ended with an error instead
      of `io.EOF`. */
  datatype CsvRead = CsvRead(records: seq<Record>, failed: bool)

  /** The service's answer to one request. The body of a reply is kept as
      the results the library calls made on it would return; each batch
      loop consults only the ones the source reads:
      - `body` is what `io.ReadAll` returns, `None` for a read error;
      - `occurrences` is what `json.Unmarshal` into `handlers.ResponseData`
        yields, `None` for a decode error;
      - `csv` is what a `csv.Reader` over the body yields. */
  datatype Response =
    | SendError
    | Reply(status: int, body: Option<Bytes>, occurrences: Option<int>, csv: CsvRead)

  /** Why a run stopped: each is a `log.Fatal` in the source. */
  datatype Fault =
    | SendFailed
    | BodyReadFailed
    | BadStatus(status: int, message: Bytes)
    | CsvReadFailed

  /** How a run ended: every line processed, or stopped at the 0-based
      line `at` whose text was `query`. */
  datatype Outcome = Completed | Failed(at: nat, query: Bytes, fault: Fault)

  /** A query line paired with the service's answer to the request built
      from it. */
  type Exchange = (Bytes, Response)
}
