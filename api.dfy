/**
 * `searchProperties`: build the query list from the filter, form the
 * request URL, issue one GET, and classify what comes back. The network
 * call and `response.json()` are inputs: `fetch` maps a URL to what the
 * request produced.
 */
module Api {

  import opened Wrappers
  import opened Decimal
  import opened Params
  import opened Query
  import opened UrlParams

  const BaseUrl: string := "http://127.0.0.1:8000/api"
  const SearchPath: string := "/properties/search?"
  const FailurePrefix: string := "API request failed with status "

  /** `params = {}`: an omitted (or undefined) filter is the empty object. */
  function EntriesOf(params: Option<seq<Entry>>): (entries: seq<Entry>)
    ensures params.None? ==> entries == []
    ensures params.Some? ==> entries == params.value
  {
    match params
    case None => []
    case Some(e) => e
  }

  /** Calling without a filter sends exactly `page=1`. */
  lemma OmittedFilterQuery()
    ensures QueryPairs(EntriesOf(None)) == [(PageKey, DefaultPage)]
  {
    EmptyFilterQuery();
  }

  /**
   * The `forEach` over the entries, appending each non-empty one, followed by
   * the conditional `append("page", "1")`.
   */
  method BuildQueryParams(entries: seq<Entry>) returns (q: QueryParams)
    ensures fresh(q)
    ensures q.list == QueryPairs(entries)
  {
    q := new QueryParams();
    for i := 0 to |entries|
      invariant q.list == Kept(entries[..i])
    {
      KeptStep(entries, i);
      var e := entries[i];
      if !IsEmptyValue(e.value) {
        q.Append(e.key, Stringify(e.value));
      }
    }
    assert entries[..|entries|] == entries;
    var hasPage := q.Has(PageKey);
    if !hasPage {
      q.Append(PageKey, DefaultPage);
    }
  }

  /** `${BASE_URL}/properties/search?${queryParams.toString()}`. */
  function RequestUrl(entries: seq<Entry>, enc: string -> string): (url: string)
    ensures |url| > |BaseUrl + SearchPath|
    ensures url[..|BaseUrl + SearchPath|] == BaseUrl + SearchPath
  {
    var query := Serialize(QueryPairs(entries), enc);
    assert |query| > 0 by { SerializeNonEmpty(QueryPairs(entries), enc); }
    assert (BaseUrl + SearchPath + query)[..|BaseUrl + SearchPath|] == BaseUrl + SearchPath;
    BaseUrl + SearchPath + query
  }

  lemma SerializeNonEmpty(pairs: seq<Pair>, enc: string -> string)
    requires |pairs| > 0
    ensures |Serialize(pairs, enc)| > 0
  {
    assert |EncodePair(pairs[0], enc)| > 0;
  }

  /** The query string of the request URL parses back to exactly the built list. */
  lemma RequestUrlDecodes(entries: seq<Entry>, enc: string -> string, dec: string -> string)
    requires EscapesSeparators(enc) && Inverts(dec, enc)
    ensures ParseQuery(RequestUrl(entries, enc)[|BaseUrl + SearchPath|..], dec) == QueryPairs(entries)
  {
    var query := Serialize(QueryPairs(entries), enc);
    assert RequestUrl(entries, enc)[|BaseUrl + SearchPath|..] == query;
    SerializeRoundTrip(QueryPairs(entries), enc, dec);
  }

  // ---------------------------------------------------------------------------
  // The response

  /** What `response.json()` gives: the parsed body, or the error it rejects with. */
  datatype Json<B, E> = Parsed(body: B) | Unparsable(error: E)

  /** A response: its status code and what reading its body would give. */
  datatype Response<B, E> = Response(status: nat, json: Json<B, E>) {
    /** `response.ok`: an ok status is one in the range 200 to 299, inclusive (section 2.2.3 of the WHATWG Fetch Standard). */
    predicate Ok()
      ensures Ok() <==> status / 100 == 2
    {
      200 <= status <= 299
    }
  }

  /** What `await fetch(url, ...)` gives: a response, or the error the request failed with. */
  datatype Fetched<B, E> = Received(response: Response<B, E>) | Failed(cause: E)

  /** What the returned promise rejects with: the function's own `Error`, or an error raised by the platform. */
  datatype Thrown<E> = ApiFailure(message: string) | Rethrown(error: E)

  datatype Outcome<B, E> = Resolved(body: B) | Rejected(error: Thrown<E>)

  /** The message of the error thrown for a non-ok status. */
  function StatusMessage(status: nat): (msg: string)
    ensures |msg| > |FailurePrefix| && msg[..|FailurePrefix|] == FailurePrefix
  {
    assert (FailurePrefix + IntToString(status))[..|FailurePrefix|] == FailurePrefix;
    FailurePrefix + IntToString(status)
  }

  /** Reads the status code back out of a failure message. */
  function StatusOfMessage(msg: string): Option<int> {
    if |msg| >= |FailurePrefix| && msg[..|FailurePrefix|] == FailurePrefix
    then ParseInt(msg[|FailurePrefix|..])
    else None
  }

  /** A failure message names its status: the status can be read back out of it. */
  lemma StatusMessageRoundTrip(status: nat)
    ensures StatusOfMessage(StatusMessage(status)) == Some(status)
  {
    assert StatusMessage(status)[|FailurePrefix|..] == IntToString(status);
    IntToStringRoundTrip(status);
  }

  /** Distinct statuses give distinct failure messages. */
  lemma StatusMessageInjective(s: nat, t: nat)
    ensures StatusMessage(s) == StatusMessage(t) <==> s == t
  {
    StatusMessageRoundTrip(s);
    StatusMessageRoundTrip(t);
  }

  /**
   * The `try` block together with its `catch`, which logs and rethrows what it
   * caught, unchanged: an ok status resolves to the parsed body; any other
   * status rejects with the status message, without reading the body; a
   * failed request or an unparsable body rejects with that very error.
   */
  function Settle<B, E>(f: Fetched<B, E>): (o: Outcome<B, E>)
    ensures o.Resolved? <==> f.Received? && f.response.Ok() && f.response.json.Parsed?
    ensures o.Resolved? ==> o.body == f.response.json.body
    ensures (o.Rejected? && o.error.ApiFailure?) <==> f.Received? && !f.response.Ok()
    ensures o.Rejected? && o.error.ApiFailure? ==> o.error.message == StatusMessage(f.response.status)
    ensures o.Rejected? && o.error.ApiFailure? ==> StatusOfMessage(o.error.message) == Some(f.response.status as int)
    ensures o.Rejected? && o.error.Rethrown? ==>
      (f.Failed? && o.error.error == f.cause) ||
      (f.Received? && f.response.Ok() && f.response.json.Unparsable? && o.error.error == f.response.json.error)
  {
    match f
    case Failed(e) => Rejected(Rethrown(e))
    case Received(r) =>
      if !r.Ok() then
        StatusMessageRoundTrip(r.status);
        Rejected(ApiFailure(StatusMessage(r.status)))
      else
        match r.json
        case Parsed(b) => Resolved(b)
        case Unparsable(e) => Rejected(Rethrown(e))
  }

  /** For a non-ok status the body plays no part: the outcome depends on the status alone. */
  lemma NonOkIgnoresBody<B, E>(r1: Response<B, E>, r2: Response<B, E>)
    requires r1.status == r2.status && !r1.Ok()
    ensures Settle(Received(r1)) == Settle(Received(r2)) == Rejected(ApiFailure(StatusMessage(r1.status)))
  {
  }

  /** A 500 with any body is rejected with "API request failed with status 500". */
  lemma ServerErrorMessage<B, E>(j: Json<B, E>)
    ensures Settle(Received(Response(500, j))) == Rejected(ApiFailure("API request failed with status 500"))
  {
    assert NatToString(500) == NatToString(50) + "0";
    assert NatToString(50) == NatToString(5) + "0";
  }

  /**
   * `searchProperties(params)`: one request to the built URL, whose outcome is
   * classified as `Settle` says.
   */
  method SearchProperties<B, E>(params: Option<seq<Entry>>, enc: string -> string, fetch: string -> Fetched<B, E>)
    returns (url: string, outcome: Outcome<B, E>)
    ensures url == RequestUrl(EntriesOf(params), enc)
    ensures params.None? ==> url == BaseUrl + SearchPath + EncodePair((PageKey, DefaultPage), enc)
    ensures outcome == Settle(fetch(url))
  {
    var q := BuildQueryParams(EntriesOf(params));
    if params.None? {
      OmittedFilterQuery();
    }
    url := BaseUrl + SearchPath + q.ToString(enc);
    var fetched := fetch(url);
    if fetched.Failed? {
      outcome := Rejected(Rethrown(fetched.cause));
    } else if !fetched.response.Ok() {
      outcome := Rejected(ApiFailure(StatusMessage(fetched.response.status)));
    } else {
      match fetched.response.json
      case Parsed(b) => outcome := Resolved(b);
      case Unparsable(e) => outcome := Rejected(Rethrown(e));
    }
  }
}
