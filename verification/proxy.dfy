/**
 The `/fetch` handler: check the `url` field of the request body, fetch and
 parse the page, rewrite it, and answer with the page and its title or with
 an error. The network fetch and the URL parser are parameters.
 */
module Proxy {
  import opened Substitution
  import opened Dom
  import opened Rewrite

  /** A JSON value as the body parser hands it over; `Absent` is a field the
      body does not have (`undefined`). */
  datatype JsonValue =
    | Absent
    | Null
    | Bool(b: bool)
    | Number(x: real)
    | Str(s: string)
    | Composite

  /** JavaScript truthiness of a body field (ToBoolean, section 7.1.2 of
      ECMA-262). Parsed JSON never holds NaN, so zero is the only falsy number. */
  predicate Truthy(v: JsonValue): (r: bool)
    ensures !r <==> v == Absent || v == Null || v == Bool(false) || v == Number(0.0) || v == Str("")
  {
    match v
    case Absent => false
    case Null => false
    case Bool(b) => b
    case Number(x) => x != 0.0
    case Str(s) => |s| > 0
    case Composite => true
  }

  datatype Result<T> = Ok(value: T) | Err(message: string)

  /** The JSON reply: the rewritten page on success, a status and a message otherwise. */
  datatype Response =
    | Success(content: Document, title: string, originalUrl: JsonValue)
    | Failure(status: int, error: string)

  const MissingUrl := "URL is required"
  const BadUrl := "Invalid URL format"
  const FetchPrefix := "Failed to fetch content: "

  /** The handler (app.js:34-106). `validUrl` stands for `new URL(url)` not
      throwing; `load` for fetching the page and parsing it, failing with the
      error's message. */
  function HandleFetch(url: JsonValue, validUrl: JsonValue -> bool, load: JsonValue -> Result<Document>): (r: Response)
    ensures r == Failure(400, MissingUrl) <==> !Truthy(url)
    ensures r == Failure(500, BadUrl) <==> Truthy(url) && !validUrl(url)
    ensures r.Failure? && r.status == 500 && r.error != BadUrl <==>
              Truthy(url) && validUrl(url) && load(url).Err?
    ensures r.Failure? && r.error != MissingUrl && r.error != BadUrl ==>
              r.status == 500 && r.error == FetchPrefix + load(url).message
    ensures r.Success? <==> Truthy(url) && validUrl(url) && load(url).Ok?
    ensures r.Success? ==>
              && r.content == RewritePage(load(url).value).content
              && r.title == RewritePage(load(url).value).title
              && r.originalUrl == url
              && Faded(DocumentText(load(url).value), DocumentText(r.content))
              && RewritePage(r.content).content == r.content
              && r.title == Title(r.content)
  {
    if !Truthy(url) then Failure(400, MissingUrl)
    else if !validUrl(url) then Failure(500, BadUrl)
    else
      match load(url)
      case Err(m) =>
        assert (FetchPrefix + m)[..|FetchPrefix|] == FetchPrefix;
        Failure(500, FetchPrefix + m)
      case Ok(doc) =>
        var page := RewritePage(doc);
        RewriteIsIdempotent(doc);
        Success(page.content, page.title, url)
  }

  /** Neither the URL parser nor the fetch is reached for a missing URL. */
  lemma MissingUrlStopsFirst(url: JsonValue, v1: JsonValue -> bool, l1: JsonValue -> Result<Document>,
                                             v2: JsonValue -> bool, l2: JsonValue -> Result<Document>)
    requires !Truthy(url)
    ensures HandleFetch(url, v1, l1) == HandleFetch(url, v2, l2) == Failure(400, MissingUrl)
  {
  }

  /** The fetch is not reached for a URL the parser rejects. */
  lemma InvalidUrlIsNotFetched(url: JsonValue, valid: JsonValue -> bool,
                               l1: JsonValue -> Result<Document>, l2: JsonValue -> Result<Document>)
    requires !valid(url)
    ensures HandleFetch(url, valid, l1) == HandleFetch(url, valid, l2)
  {
  }

  /** The empty string counts as a missing URL, whatever the parser would say of it. */
  lemma EmptyUrlIsMissing(valid: JsonValue -> bool, load: JsonValue -> Result<Document>)
    ensures HandleFetch(Str(""), valid, load) == Failure(400, MissingUrl)
    ensures HandleFetch(Absent, valid, load) == Failure(400, MissingUrl)
  {
  }

  /** A missing field is reported with status 400; every other failure with status 500. */
  lemma FailureStatus(url: JsonValue, valid: JsonValue -> bool, load: JsonValue -> Result<Document>)
    ensures var r := HandleFetch(url, valid, load);
            r.Failure? ==> (r.status == 400 <==> !Truthy(url)) && (r.status == 400 || r.status == 500)
  {
  }
}
