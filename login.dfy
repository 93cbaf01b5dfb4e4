/** The resolve endpoint: exchanges the caller's mobile token for the
    citizen's government profile and reconciles it with `personal_data`. */
module Login {
  import opened Wrappers
  import opened JsValues
  import opened IdentityStore
  import Utils

  /** One call the handler makes to a collaborator, in the order made. */
  datatype ExternalCall =
    | AuthorityRequest
    | ProfileRequest(appId: JsValue, mToken: JsValue, token: JsValue)
    | CreateTableStatement
    | LookupStatement(citizenId: SqlValue)

  /** The HTTP status code and the JSON body `{ status, message, data? }`. */
  datatype LoginReply = LoginReply(code: int, status: string, message: string, data: Option<map<string, JsValue>>)

  function ErrorReply(code: int, message: string): LoginReply {
    LoginReply(code, "error", message, None)
  }

  /** The endpoint's own token helper: `res.data.Result` of the authority's
      answer, read without checking that it is non-empty; reading it from a
      nullish body throws. */
  function AuthorityToken(authority: HttpOutcome): (r: Result<JsValue>)
    ensures authority.Failed? ==> r == Err(authority.message)
    ensures authority.Responded? && !Nullish(authority.data) ==> r == Ok(Prop(authority.data, "Result"))
    ensures authority.Responded? && Nullish(authority.data) ==> r == Err(TypeErrorMessage(authority.data, "Result"))
  {
    match authority
    case Failed(cause) => Err(cause)
    case Responded(data) => Member(data, "Result")
  }

  /** Where the shared helper of the utilities yields a token, this one yields
      the same token; but an empty `Result`, which the shared helper rejects,
      is handed on here as the credential. */
  lemma AuthorityTokenSkipsEmptinessCheck(url: JsValue, authority: HttpOutcome)
    ensures Utils.GetGdxToken(url, authority).Ok? ==> AuthorityToken(authority) == Utils.GetGdxToken(url, authority)
    ensures var empty := Responded(Obj(map["Result" := Str("")]));
      AuthorityToken(empty) == Ok(Str("")) && Utils.GetGdxToken(url, empty).Err?
  {
  }

  /** Cause thrown when the profile authority answers without a profile. */
  const PROFILE_NULL: string := "Deproc returned NULL"

  /** The profile `deprocRes.data.result`, which must be truthy; reading it
      from a nullish body throws. */
  function ProfileData(profile: HttpOutcome): (r: Result<JsValue>)
    ensures r.Ok? ==> Truthy(r.value) && profile.Responded? && r.value == Prop(profile.data, "result")
    ensures profile.Responded? && !Nullish(profile.data) && Truthy(Prop(profile.data, "result")) ==>
              r == Ok(Prop(profile.data, "result"))
    ensures profile.Responded? && Nullish(profile.data) ==> r == Err(TypeErrorMessage(profile.data, "result"))
    ensures profile.Responded? && !Nullish(profile.data) && !Truthy(Prop(profile.data, "result")) ==>
              r == Err(PROFILE_NULL)
    ensures profile.Failed? ==> r == Err(profile.message)
  {
    match profile
    case Failed(cause) => Err(cause)
    case Responded(data) =>
      match Member(data, "result")
      case Err(m) => Err(m)
      case Ok(pData) => if Truthy(pData) then Ok(pData) else Err(PROFILE_NULL)
  }

  /** The fields of a FOUND reply. */
  const FOUND_FIELDS: set<string> := {"userId", "citizenId", "firstName", "lastName", "mobile", "additionalInfo"}

  /** A JavaScript value is how node-postgres hands over a cell: NULL as
      `null`, text as a string, and sending it again gives the same cell. */
  predicate ReadBack(v: JsValue, c: SqlValue) {
    && ToSql(v) == c
    && (c.SqlNull? ==> v == Null)
    && (c.SqlText? ==> v == Str(c.text))
  }

  /** The FOUND reply's data: the stored row read back, with an empty string
      for a falsy additional_info. */
  function FoundData(row: Row): (d: map<string, JsValue>)
    ensures d.Keys == FOUND_FIELDS
    ensures ReadBack(d["userId"], row.userId) && ReadBack(d["citizenId"], row.citizenId)
    ensures ReadBack(d["firstName"], row.firstName) && ReadBack(d["lastName"], row.lastName)
    ensures ReadBack(d["mobile"], row.mobile)
    ensures Truthy(FromSql(row.additionalInfo)) ==> ReadBack(d["additionalInfo"], row.additionalInfo)
    ensures !Truthy(FromSql(row.additionalInfo)) ==> d["additionalInfo"] == Str("")
  {
    map[
      "userId" := FromSql(row.userId),
      "citizenId" := FromSql(row.citizenId),
      "firstName" := FromSql(row.firstName),
      "lastName" := FromSql(row.lastName),
      "mobile" := FromSql(row.mobile),
      "additionalInfo" := Or(FromSql(row.additionalInfo), Str(""))
    ]
  }

  /** The fields of a NEW_USER reply (the registration draft). */
  const DRAFT_FIELDS: set<string> :=
    {"userId", "citizenId", "firstName", "lastName", "dateOfBirthString", "email", "notification", "mobile"}

  /** The NEW_USER reply's data: the government profile's own fields, each
      passed on as it is (an absent one as `undefined`). */
  function NewUserData(profile: JsValue): (d: map<string, JsValue>)
    ensures d.Keys == DRAFT_FIELDS
    ensures forall k | k in d :: d[k] == Prop(profile, k)
  {
    map[
      "userId" := Prop(profile, "userId"),
      "citizenId" := Prop(profile, "citizenId"),
      "firstName" := Prop(profile, "firstName"),
      "lastName" := Prop(profile, "lastName"),
      "dateOfBirthString" := Prop(profile, "dateOfBirthString"),
      "email" := Prop(profile, "email"),
      "notification" := Prop(profile, "notification"),
      "mobile" := Prop(profile, "mobile")
    ]
  }

  /** The request names an application and a mobile token (both truthy). */
  predicate Admitted(req: HttpRequest) {
    req.verb == "POST" && Truthy(Field(req.body, "appId")) && Truthy(Field(req.body, "mToken"))
  }

  /** The resolve handler. `authority` and `profile` are what the two outbound
      requests produce, should they be made; `calls` lists the calls made.
      The store is only ever provisioned and read. */
  method Resolve(store: Store, req: HttpRequest, authority: HttpOutcome, profile: HttpOutcome)
    returns (reply: LoginReply, calls: seq<ExternalCall>)
    requires store.Valid()
    modifies store
    ensures store.Valid() && store.outage == old(store.outage)
    // No row is ever written; the relation may come to exist.
    ensures store.rows == old(store.rows) && store.nullCitizenRows == old(store.nullCitizenRows)
    ensures store.provisioned == (old(store.provisioned) || (CreateTableStatement in calls && store.outage.None?))
    // Method check and required input: nothing is called.
    ensures req.verb != "POST" ==> reply == ErrorReply(405, "Method Not Allowed") && calls == []
    ensures req.verb == "POST" && !Admitted(req) ==> reply == ErrorReply(400, "Missing Data") && calls == []
    // The authority is asked first; its failure ends the request.
    ensures Admitted(req) ==> |calls| >= 1 && calls[0] == AuthorityRequest
    ensures Admitted(req) && AuthorityToken(authority).Err? ==>
              reply == ErrorReply(500, AuthorityToken(authority).message) && |calls| == 1
    // The token is forwarded unchanged with the caller's identifiers.
    ensures Admitted(req) && AuthorityToken(authority).Ok? ==>
              |calls| >= 2 &&
              calls[1] == ProfileRequest(Field(req.body, "appId"), Field(req.body, "mToken"), AuthorityToken(authority).value)
    ensures Admitted(req) && AuthorityToken(authority).Ok? && ProfileData(profile).Err? ==>
              reply == ErrorReply(500, ProfileData(profile).message) && |calls| == 2
    // With a profile in hand the table is provisioned, then looked up once.
    ensures Admitted(req) && AuthorityToken(authority).Ok? && ProfileData(profile).Ok? ==>
              |calls| >= 3 && calls[2] == CreateTableStatement
    ensures Admitted(req) && AuthorityToken(authority).Ok? && ProfileData(profile).Ok? && store.outage.Some? ==>
              reply == ErrorReply(500, store.outage.value) && |calls| == 3
    ensures Admitted(req) && AuthorityToken(authority).Ok? && ProfileData(profile).Ok? && store.outage.None? ==>
              var pData := ProfileData(profile).value;
              var key := ToSql(Prop(pData, "citizenId"));
              && calls == [AuthorityRequest, calls[1], CreateTableStatement, LookupStatement(key)]
              && (Select(store.State(), None, key).Err? ==>
                    reply == ErrorReply(500, Select(store.State(), None, key).message))
              && (Select(store.State(), None, key).Ok? && Select(store.State(), None, key).value.Some? ==>
                    reply == LoginReply(200, "found", "Login complete",
                                        Some(FoundData(Select(store.State(), None, key).value.value))))
              && (Select(store.State(), None, key).Ok? && Select(store.State(), None, key).value.None? ==>
                    reply == LoginReply(200, "new_user", "Please register", Some(NewUserData(pData))))
    // A failed request never carries a record; a lookup comes only after provisioning.
    ensures reply.status != "error" ==>
              reply.code == 200 && |calls| == 4 && calls[2] == CreateTableStatement && !HasNul(calls[3].citizenId)
    ensures reply.status == "error" ==> reply.data.None? && reply.code in {400, 405, 500}
    ensures forall i | 0 <= i < |calls| && calls[i].LookupStatement? :: i == 3
  {
    calls := [];
    if req.verb != "POST" {
      return ErrorReply(405, "Method Not Allowed"), calls;
    }
    var appId, mToken := Field(req.body, "appId"), Field(req.body, "mToken");
    if !Truthy(appId) || !Truthy(mToken) {
      return ErrorReply(400, "Missing Data"), calls;
    }

    // 1. Credential and profile.
    calls := calls + [AuthorityRequest];
    var token := AuthorityToken(authority);
    if token.Err? {
      return ErrorReply(500, token.message), calls;
    }
    calls := calls + [ProfileRequest(appId, mToken, token.value)];
    var pData := ProfileData(profile);
    if pData.Err? {
      return ErrorReply(500, pData.message), calls;
    }

    // 2. Provision the table.
    calls := calls + [CreateTableStatement];
    var failure := store.CreateTableIfNotExists();
    if failure.Some? {
      return ErrorReply(500, failure.value), calls;
    }

    // 3. Look the citizen up.
    var key := ToSql(Prop(pData.value, "citizenId"));
    calls := calls + [LookupStatement(key)];
    var found := store.SelectByCitizenId(key);
    if found.Err? {
      reply := ErrorReply(500, found.message);
    } else if found.value.Some? {
      reply := LoginReply(200, "found", "Login complete", Some(FoundData(found.value.value)));
    } else {
      reply := LoginReply(200, "new_user", "Please register", Some(NewUserData(pData.value)));
    }
  }
}
