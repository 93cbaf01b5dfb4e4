/** The shared helpers of the application: the authority-token helper, the
    error classifier, required-field validation and field extraction. */
module Utils {
  import opened Wrappers
  import opened JsValues
  import Constants

  // ---------------------------------------------------------------------
  // getGdxToken
  // ---------------------------------------------------------------------

  /** Cause given when the authority answers without a usable `Result`. */
  const TOKEN_EMPTY: string := "Token response is empty"

  /** Every failure is rethrown with the cause appended to NO_GDX_TOKEN. */
  function GdxTokenFailure(cause: string): string {
    Constants.NO_GDX_TOKEN + ": " + cause
  }

  /** The decision logic of the shared token helper. `url` is the configured
      authority URL (an environment variable) and `response` what the single
      GET request to it produced; the request is only made when `url` is
      truthy. A missing URL, a failed request and a falsy `Result` all fail the
      same way; a truthy `Result` is returned as it is. */
  function GetGdxToken(url: JsValue, response: HttpOutcome): (r: Result<JsValue>)
    ensures r.Ok? <==> Truthy(url) && response.Responded? && Truthy(Prop(response.data, "Result"))
    ensures r.Ok? ==> r.value == Prop(response.data, "Result") && Truthy(r.value)
    ensures r.Err? ==> Constants.NO_GDX_TOKEN + ": " <= r.message
  {
    if !Truthy(url) then
      Err(GdxTokenFailure(Constants.NO_GDX_AUTH_URL))
    else
      match response
      case Failed(cause) => Err(GdxTokenFailure(cause))
      case Responded(data) =>
        var token := Prop(data, "Result");
        if Truthy(token) then Ok(token) else Err(GdxTokenFailure(TOKEN_EMPTY))
  }

  /** A missing URL, a transport failure and an empty `Result` are three causes
      of one and the same kind of failure, and a missing URL never depends on
      what the authority would have answered. */
  lemma GetGdxTokenFailures(url: JsValue, response: HttpOutcome)
    ensures !Truthy(url) ==> GetGdxToken(url, response) == Err(GdxTokenFailure(Constants.NO_GDX_AUTH_URL))
    ensures Truthy(url) && response.Failed? ==> GetGdxToken(url, response) == Err(GdxTokenFailure(response.message))
    ensures Truthy(url) && response.Responded? && !Truthy(Prop(response.data, "Result")) ==>
              GetGdxToken(url, response) == Err(GdxTokenFailure(TOKEN_EMPTY))
  {
  }

  // ---------------------------------------------------------------------
  // handleApiError
  // ---------------------------------------------------------------------

  /** The `{ status, message }` pair the classifier returns. */
  datatype ApiErrorInfo = ApiErrorInfo(status: JsValue, message: JsValue)

  /** Classifies a caught error. Reading `error.response` throws when the error
      itself is nullish; after that only optional chaining is used. */
  function HandleApiError(error: JsValue): (r: Result<ApiErrorInfo>)
    ensures r.Err? <==> Nullish(error)
    ensures r.Ok? && Prop(Prop(error, "response"), "status") == Num(401) ==>
              r.value == ApiErrorInfo(Num(401), Str("Unauthorized"))
    ensures r.Ok? && Prop(Prop(error, "response"), "status") == Num(404) ==>
              r.value == ApiErrorInfo(Num(404), Str("Not found"))
    ensures r.Ok? && Prop(Prop(error, "response"), "status") !in {Num(401), Num(404)} ==>
              var status := Prop(Prop(error, "response"), "status");
              var dataMessage := Prop(Prop(Prop(error, "response"), "data"), "message");
              var errorMessage := Prop(error, "message");
              && (Truthy(status) ==> r.value.status == status)
              && (!Truthy(status) ==> r.value.status == Num(500))
              && (Truthy(dataMessage) ==> r.value.message == dataMessage)
              && (!Truthy(dataMessage) && Truthy(errorMessage) ==> r.value.message == errorMessage)
              && (!Truthy(dataMessage) && !Truthy(errorMessage) ==> r.value.message == Str("Unknown error"))
  {
    match Member(error, "response")
    case Err(m) => Err(m)
    case Ok(response) =>
      var status := Prop(response, "status");
      if status == Num(401) then
        Ok(ApiErrorInfo(Num(401), Str("Unauthorized")))
      else if status == Num(404) then
        Ok(ApiErrorInfo(Num(404), Str("Not found")))
      else
        Ok(ApiErrorInfo(
          Or(status, Num(500)),
          Or(Prop(Prop(response, "data"), "message"), Or(Prop(error, "message"), Str("Unknown error")))))
  }

  /** Whatever it is given (short of a nullish error), the classifier yields a
      truthy status and a truthy message, so a client always has both. */
  lemma HandleApiErrorAlwaysInformative(error: JsValue)
    requires !Nullish(error)
    ensures HandleApiError(error).Ok?
    ensures Truthy(HandleApiError(error).value.status)
    ensures Truthy(HandleApiError(error).value.message)
  {
  }

  // ---------------------------------------------------------------------
  // validateRequired
  // ---------------------------------------------------------------------

  /** The `{ valid, missing }` pair the validator returns. */
  datatype Validation = Validation(valid: bool, missing: seq<string>)

  /** `requiredFields.filter(field => !data[field])`. */
  function MissingFields(data: map<string, JsValue>, requiredFields: seq<string>): (missing: seq<string>)
    ensures forall f :: f in missing <==> f in requiredFields && !Truthy(Field(data, f))
    ensures |missing| <= |requiredFields|
  {
    if requiredFields == [] then []
    else
      (if Truthy(Field(data, requiredFields[0])) then [] else [requiredFields[0]])
        + MissingFields(data, requiredFields[1..])
  }

  /** The filter keeps the order of the required fields: filtering a
      concatenation is concatenating the filtered parts. */
  lemma {:induction false} MissingFieldsConcat(data: map<string, JsValue>, a: seq<string>, b: seq<string>)
    ensures MissingFields(data, a + b) == MissingFields(data, a) + MissingFields(data, b)
  {
    if a == [] {
      assert a + b == b;
    } else {
      assert (a + b)[1..] == a[1..] + b;
      MissingFieldsConcat(data, a[1..], b);
    }
  }

  /** A field name that is listed several times and is falsy is reported as
      often as it is listed; a truthy one is never reported. */
  lemma {:induction false} MissingFieldsCount(data: map<string, JsValue>, requiredFields: seq<string>, f: string)
    ensures multiset(MissingFields(data, requiredFields))[f] ==
              if Truthy(Field(data, f)) then 0 else multiset(requiredFields)[f]
  {
    if requiredFields != [] {
      MissingFieldsCount(data, requiredFields[1..], f);
      assert requiredFields == [requiredFields[0]] + requiredFields[1..];
    }
  }

  function ValidateRequired(data: map<string, JsValue>, requiredFields: seq<string>): (v: Validation)
    ensures v.missing == MissingFields(data, requiredFields)
    ensures v.valid <==> forall i | 0 <= i < |requiredFields| :: Truthy(Field(data, requiredFields[i]))
    ensures v.valid <==> v.missing == []
  {
    var missing := MissingFields(data, requiredFields);
    assert missing != [] ==> missing[0] in missing;
    Validation(|missing| == 0, missing)
  }

  // ---------------------------------------------------------------------
  // extractField
  // ---------------------------------------------------------------------

  /** Position `i` holds the first listed field whose value is truthy. */
  ghost predicate FirstTruthyAt(obj: JsValue, fieldNames: seq<string>, i: int) {
    && 0 <= i < |fieldNames|
    && Truthy(Prop(obj, fieldNames[i]))
    && forall j | 0 <= j < i :: !Truthy(Prop(obj, fieldNames[j]))
  }

  /** Linear search for the first listed field whose value is truthy; `""`
      when there is none (no names, a nullish object, or only falsy values). */
  method ExtractField(obj: JsValue, fieldNames: seq<string>) returns (r: JsValue)
    ensures forall i | FirstTruthyAt(obj, fieldNames, i) :: r == Prop(obj, fieldNames[i])
    ensures (forall i | 0 <= i < |fieldNames| :: !Truthy(Prop(obj, fieldNames[i]))) ==> r == Str("")
  {
    var k := 0;
    while k < |fieldNames|
      invariant 0 <= k <= |fieldNames|
      invariant forall j | 0 <= j < k :: !Truthy(Prop(obj, fieldNames[j]))
    {
      var value := Prop(obj, fieldNames[k]);
      if Truthy(value) {
        return value;
      }
      k := k + 1;
    }
    return Str("");
  }
}
