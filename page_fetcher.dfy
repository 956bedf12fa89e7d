/**
 * `PageFetcher`: how the outcome of one HTTP GET is reported. The request itself is
 * represented by its outcome: a response, or the exception that `fetch` catches.
 */
module PageFetcher {
  import opened Wrappers
  import opened Strings

  /** The parts of `HttpResponse` the crawler reads; `contentType` is the first `Content-Type` header. */
  datatype Response = Response(status: int, uri: string, contentType: Option<string>)

  /** `PageFetcher.FetchResult`. */
  datatype FetchResult = FetchResult(success: bool, response: Option<Response>, errorMessage: Option<string>)

  /** What sending the request gave: a response, or an `IOException`, `InterruptedException` or `IllegalArgumentException`. */
  datatype Outcome = Received(response: Response) | IOError(message: Option<string>) | Interrupted
                   | InvalidUrl(message: Option<string>)

  /** A possibly `null` string as `+` renders it. */
  function Text(s: Option<string>): string {
    match s
    case None => "null"
    case Some(t) => t
  }

  const NetworkErrorPrefix := "Network error: "
  const InvalidUrlPrefix := "Invalid URL: "
  const InterruptedMessage := "Interrupted"

  /** `FetchResult.success`. */
  function Success(r: Response): FetchResult {
    FetchResult(true, Some(r), None)
  }

  /** `FetchResult.httpError`. */
  function HttpError(r: Response): FetchResult {
    FetchResult(false, Some(r), Some("HTTP error: " + IntToString(r.status) + " " + r.uri))
  }

  /** `FetchResult.failure`. */
  function Failure(message: string): FetchResult {
    FetchResult(false, None, Some(message))
  }

  /** `FetchResult.httpStatusCode`. */
  function HttpStatusCode(f: FetchResult): Option<int> {
    match f.response
    case None => None
    case Some(r) => Some(r.status)
  }

  /** `FetchResult.isHtml`: a missing header counts as the empty string. */
  predicate IsHtml(f: FetchResult) {
    f.response.Some? && Contains(ToLower(f.response.value.contentType.GetOr("")), "text/html")
  }

  predicate IsSuccessStatus(status: int) {
    200 <= status < 300
  }

  /** `PageFetcher.fetch`, given what the request gave. */
  function Fetch(o: Outcome): FetchResult {
    match o
    case Received(r) => if IsSuccessStatus(r.status) then Success(r) else HttpError(r)
    case IOError(m) => Failure(NetworkErrorPrefix + Text(m))
    case Interrupted => Failure(InterruptedMessage)
    case InvalidUrl(m) => Failure(InvalidUrlPrefix + Text(m))
  }

  // ---------------------------------------------------------------------------------
  // Reading a result back

  predicate HasPrefix(s: string, p: string) {
    |p| <= |s| && s[..|p|] == p
  }

  /** The outcome with its exception message as the result shows it (`null` as "null"). */
  function Rendered(o: Outcome): Outcome {
    match o
    case IOError(m) => IOError(Some(Text(m)))
    case InvalidUrl(m) => InvalidUrl(Some(Text(m)))
    case _ => o
  }

  /** The outcome a result reports, recovered from the result alone. */
  function Diagnose(f: FetchResult): Option<Outcome> {
    match f.response
    case Some(r) => Some(Received(r))
    case None =>
      match f.errorMessage
      case None => None
      case Some(m) =>
        if HasPrefix(m, NetworkErrorPrefix) then Some(IOError(Some(m[|NetworkErrorPrefix|..])))
        else if m == InterruptedMessage then Some(Interrupted)
        else if HasPrefix(m, InvalidUrlPrefix) then Some(InvalidUrl(Some(m[|InvalidUrlPrefix|..])))
        else None
  }

  lemma PrefixOf(p: string, rest: string)
    ensures HasPrefix(p + rest, p) && (p + rest)[|p|..] == rest
  {
    assert (p + rest)[..|p|] == p;
  }

  /** The three failure texts begin differently, so none can be taken for another. */
  lemma FailureTextsDiffer(b: string)
    ensures !HasPrefix(InterruptedMessage, NetworkErrorPrefix)
    ensures !HasPrefix(InvalidUrlPrefix + b, NetworkErrorPrefix)
    ensures InvalidUrlPrefix + b != InterruptedMessage
  {
    var s := InvalidUrlPrefix + b;
    assert s[0] == 'I' && s[2] == 'v';
    assert NetworkErrorPrefix[0] == 'N' && InterruptedMessage[2] == 't';
  }

  /** Every result of `fetch` tells what happened: the outcome is recovered from it, messages included. */
  lemma DiagnoseFetch(o: Outcome)
    ensures Diagnose(Fetch(o)) == Some(Rendered(o))
  {
    match o
    case Received(r) =>
    case IOError(m) =>
      PrefixOf(NetworkErrorPrefix, Text(m));
    case Interrupted =>
      FailureTextsDiffer("");
    case InvalidUrl(m) =>
      FailureTextsDiffer(Text(m));
      PrefixOf(InvalidUrlPrefix, Text(m));
  }

  /** A fetch succeeds exactly on a 2xx response, and it succeeds exactly when it carries no message. */
  lemma FetchSuccess(o: Outcome)
    ensures Fetch(o).success <==> o.Received? && IsSuccessStatus(o.response.status)
    ensures Fetch(o).success <==> Fetch(o).errorMessage.None?
  {
  }

  /** A response is kept whenever one arrived, and only then; the status code is then its status. */
  lemma FetchResponse(o: Outcome)
    ensures Fetch(o).response.Some? <==> o.Received?
    ensures o.Received? ==> Fetch(o).response == Some(o.response)
    ensures HttpStatusCode(Fetch(o)).None? <==> Fetch(o).response.None?
    ensures o.Received? ==> HttpStatusCode(Fetch(o)) == Some(o.response.status)
  {
  }

  /** A non-2xx response is reported with its status and URI after "HTTP error: ". */
  lemma HttpErrorMessage(r: Response)
    requires !IsSuccessStatus(r.status)
    ensures var m := Fetch(Received(r)).errorMessage;
            m.Some? && HasPrefix(m.value, "HTTP error: " + IntToString(r.status) + " ")
            && m.value[|"HTTP error: " + IntToString(r.status) + " "|..] == r.uri
  {
    PrefixOf("HTTP error: " + IntToString(r.status) + " ", r.uri);
  }

  /** Without a response nothing is HTML. */
  lemma NoResponseNotHtml(f: FetchResult)
    requires f.response.None?
    ensures !IsHtml(f)
  {
  }

  /** The check ignores the case of ASCII letters in the header. */
  lemma IsHtmlIgnoresCase(r: Response, s: Response)
    requires ToLower(r.contentType.GetOr("")) == ToLower(s.contentType.GetOr(""))
    ensures IsHtml(Fetch(Received(r))) == IsHtml(Fetch(Received(s)))
  {
  }

  /** A `Content-Type` that starts with `text/html` makes the page HTML, for an error response too. */
  lemma HtmlContentType(r: Response, parameters: string)
    requires ToLower(r.contentType.GetOr("")) == "text/html" + parameters
    ensures IsHtml(Fetch(Received(r)))
  {
    PrefixContains("text/html", parameters);
  }
}
