/** Extraction of one document: read it, call the service through the retry
    wrapper, trim the response text, parse it, and turn whatever happened
    into an `ExtractedFile`. Nothing escapes: every failure becomes one of
    three user-facing reasons, and the outcome always carries the document's
    name without its extension. */
module Extractor {
  import opened Wrappers
  import opened Text
  import opened Types
  import opened Naming
  import opened Errors
  import opened Retry

  const GenericReason: string := "Gagal memproses file. Pastikan dokumen valid dan tidak rusak."
  const RateLimitReason: string := "Batas permintaan API tercapai. Silakan coba lagi nanti."
  const ParseReason: string := "Gagal mem-parsing respons dari AI. Respon tidak valid."

  /** What `JSON.parse` makes of a text: the records, or a `SyntaxError`. */
  datatype Parsed = Records(rows: seq<ChildData>) | SyntaxError(message: string)

  /** The outside world as seen by one extraction:
      - `readable`: the browser's file reader delivers the bytes (when it
        does not, it rejects with an event that has no message);
      - `generate(k)`: the `k`-th call to the service, returning the
        response's `text` (`None` when the response has none) or throwing;
      - `parse`: the JSON parser. */
  datatype Service = Service(
    readable: bool,
    generate: nat -> Attempt<Option<string>>,
    parse: string -> Parsed)

  /** The reason reported for a thrown error. The rate-limit test comes
      first, so a `SyntaxError` whose message mentions 429 is reported as a
      rate limit. */
  function Reason(e: Thrown): (r: string)
    ensures r == RateLimitReason <==> IsRateLimited(e.message)
    ensures r == ParseReason <==> !IsRateLimited(e.message) && e.syntax
    ensures r == GenericReason <==> !IsRateLimited(e.message) && !e.syntax
  {
    if IsRateLimited(e.message) then RateLimitReason
    else if e.syntax then ParseReason
    else GenericReason
  }

  /** The `try` block: the records, or the error that left it. */
  function Attempted(svc: Service): Result<seq<ChildData>, Thrown> {
    if !svc.readable then Failure(ReadFailure)
    else
      match WithRetry(svc.generate, DefaultRetries, DefaultDelay).result
      case Threw(e) => Failure(e)
      case Returned(response) =>
        if response.None? then Failure(MissingTextFailure)
        else
          var text := Trim(response.value);
          if text == [] then Success([])
          else
            match svc.parse(text)
            case Records(rows) => Success(rows)
            case SyntaxError(m) => Failure(Thrown(m, true))
  }

  /** `extractDataFromFile(file)`: never fails; the outcome is named after the
      document without its extension; a failed outcome has no records and
      one of the three reasons. */
  function ExtractOne(doc: Document, svc: Service): (r: ExtractedFile)
    ensures r.fileName == StripExtension(doc.name)
    ensures r.error.Some? ==> r.data == []
    ensures r.error.Some? ==> r.error.value in {GenericReason, RateLimitReason, ParseReason}
  {
    var name := StripExtension(doc.name);
    match Attempted(svc)
    case Success(rows) => ExtractedFile(name, rows, None)
    case Failure(e) => ExtractedFile(name, [], Some(Reason(e)))
  }

  /** A response that is blank after trimming is a success with no records:
      not a family card, or no children on it. */
  lemma BlankResponseIsEmptySuccess(doc: Document, svc: Service, body: string)
    requires svc.readable && WithRetry(svc.generate, DefaultRetries, DefaultDelay).result == Returned(Some(body))
    requires forall i | 0 <= i < |body| :: IsJsSpace(body[i])
    ensures ExtractOne(doc, svc) == ExtractedFile(StripExtension(doc.name), [], None)
  {
    TrimEmptyIff(body);
  }

  /** A response the parser accepts gives its records and no error. */
  lemma ParsedResponseIsSuccess(doc: Document, svc: Service, body: string, rows: seq<ChildData>)
    requires svc.readable && WithRetry(svc.generate, DefaultRetries, DefaultDelay).result == Returned(Some(body))
    requires Trim(body) != [] && svc.parse(Trim(body)) == Records(rows)
    ensures ExtractOne(doc, svc) == ExtractedFile(StripExtension(doc.name), rows, None)
  {
  }

  /** A `SyntaxError` from the parser gives the parse-failure reason, unless
      its message looks like a rate limit. */
  lemma SyntaxErrorIsParseFailure(doc: Document, svc: Service, body: string, m: string)
    requires svc.readable && WithRetry(svc.generate, DefaultRetries, DefaultDelay).result == Returned(Some(body))
    requires Trim(body) != [] && svc.parse(Trim(body)) == SyntaxError(m)
    ensures ExtractOne(doc, svc).data == []
    ensures ExtractOne(doc, svc).error == Some(if IsRateLimited(m) then RateLimitReason else ParseReason)
  {
  }

  /** A `SyntaxError` thrown by the service call itself, once the retries
      end on it, also gives the parse-failure reason. */
  lemma ServiceSyntaxErrorIsParseFailure(doc: Document, svc: Service, e: Thrown)
    requires svc.readable && WithRetry(svc.generate, DefaultRetries, DefaultDelay).result == Threw(e)
    requires e.syntax && !IsRateLimited(e.message)
    ensures ExtractOne(doc, svc) == ExtractedFile(StripExtension(doc.name), [], Some(ParseReason))
  {
  }

  /** A rate-limit error the retries end on gives the rate-limit reason,
      whether or not it is a `SyntaxError`. */
  lemma ServiceRateLimitIsRateLimit(doc: Document, svc: Service, e: Thrown)
    requires svc.readable && WithRetry(svc.generate, DefaultRetries, DefaultDelay).result == Threw(e)
    requires IsRateLimited(e.message)
    ensures ExtractOne(doc, svc) == ExtractedFile(StripExtension(doc.name), [], Some(RateLimitReason))
  {
  }

  /** The rate-limit test runs before the `SyntaxError` test. */
  lemma RateLimitCheckedBeforeSyntax(m: string)
    requires Contains(m, "429")
    ensures Reason(Thrown(m, true)) == RateLimitReason
  {
  }

  /** Four rate-limited calls in a row (the first try and three retries)
      give the rate-limit reason. */
  lemma ExhaustedRetriesAreRateLimit(doc: Document, svc: Service)
    requires svc.readable
    requires forall j | 0 <= j <= 3 :: Retryable(svc.generate(j))
    ensures ExtractOne(doc, svc) == ExtractedFile(StripExtension(doc.name), [], Some(RateLimitReason))
  {
    GivesUpWhenExhausted(svc.generate, DefaultRetries, DefaultDelay);
  }

  /** An error from the service that is neither a rate limit nor a
      `SyntaxError` gives the generic reason, and so do an unreadable file
      and a response without text. */
  lemma OtherFailuresAreGeneric(doc: Document, svc: Service)
    requires
      var result := WithRetry(svc.generate, DefaultRetries, DefaultDelay).result;
      || !svc.readable
      || (result.Threw? && !IsRateLimited(result.error.message) && !result.error.syntax)
      || result == Returned(None)
    ensures ExtractOne(doc, svc) == ExtractedFile(StripExtension(doc.name), [], Some(GenericReason))
  {
    LocalFailuresNotRateLimited();
  }
}
