/** The registration endpoint: one atomic insert-or-update of the submitted
    record, keyed by citizen id. */
module Register {
  import opened Wrappers
  import opened JsValues
  import opened IdentityStore
  import Login

  /** The HTTP status code and the JSON body; the reply to a wrong verb
      carries no `status` field. */
  datatype RegisterReply = RegisterReply(code: int, status: Option<string>, message: string)

  /** The nine fields read from the body, each turned into a query parameter
      as it is (an absent field becomes NULL). */
  function SubmissionOf(body: map<string, JsValue>): (s: Submission)
    ensures s.userId == ToSql(Field(body, "userId"))
    ensures s.citizenId == ToSql(Field(body, "citizenId"))
    ensures s.firstName == ToSql(Field(body, "firstName"))
    ensures s.lastName == ToSql(Field(body, "lastName"))
    ensures s.dateOfBirth == ToSql(Field(body, "dateOfBirth"))
    ensures s.email == ToSql(Field(body, "email"))
    ensures s.notification == ToSql(Field(body, "notification"))
    ensures s.mobile == ToSql(Field(body, "mobile"))
    ensures s.additionalInfo == ToSql(Field(body, "additionalInfo"))
  {
    Submission(
      ToSql(Field(body, "userId")),
      ToSql(Field(body, "citizenId")),
      ToSql(Field(body, "firstName")),
      ToSql(Field(body, "lastName")),
      ToSql(Field(body, "dateOfBirth")),
      ToSql(Field(body, "email")),
      ToSql(Field(body, "notification")),
      ToSql(Field(body, "mobile")),
      ToSql(Field(body, "additionalInfo")))
  }

  /** The register handler. `now` is the database's clock when the statement
      runs. Success is reported only once the statement has taken effect; a
      failure reports the database's message and changes nothing. */
  method Register(store: Store, req: HttpRequest, now: int) returns (reply: RegisterReply)
    requires store.Valid()
    modifies store
    ensures store.Valid() && store.outage == old(store.outage)
    ensures req.verb != "POST" ==>
              reply == RegisterReply(405, None, "Method Not Allowed") && store.State() == old(store.State())
    ensures req.verb == "POST" ==>
              match Upsert(old(store.State()), store.outage, SubmissionOf(req.body), now)
              case Ok(d) => reply == RegisterReply(200, Some("success"), "Registration Complete") && store.State() == d
              case Err(m) => reply == RegisterReply(500, Some("error"), m) && store.State() == old(store.State())
    ensures reply.status == Some("success") ==>
              Upsert(old(store.State()), store.outage, SubmissionOf(req.body), now).Ok?
  {
    if req.verb != "POST" {
      return RegisterReply(405, None, "Method Not Allowed");
    }
    var failure := store.InsertOnConflictUpdate(SubmissionOf(req.body), now);
    if failure.Some? {
      return RegisterReply(500, Some("error"), failure.value);
    }
    return RegisterReply(200, Some("success"), "Registration Complete");
  }

  /** A successful registration followed by a resolution whose profile carries
      the same citizen id, one within its column's width, finds the row: the
      reply echoes the citizen id, the submitted mobile as stored (cut to 255
      characters when only spaces lie past them, a string within that width
      exactly as sent) and the additional information (as "" when falsy). */
  lemma RegisterThenResolveFinds(db: Db, body: map<string, JsValue>, now: int, pData: JsValue)
    requires Consistent(db)
    requires Truthy(Field(body, "citizenId")) && FitsWidth(ToSql(Field(body, "citizenId")), 255)
    requires ToSql(Prop(pData, "citizenId")) == ToSql(Field(body, "citizenId"))
    requires Upsert(db, None, SubmissionOf(body), now).Ok?
    ensures var after := Upsert(db, None, SubmissionOf(body), now).value;
      var found := Select(after, None, ToSql(Prop(pData, "citizenId")));
      && found.Ok? && found.value.Some?
      && var data := Login.FoundData(found.value.value);
      && ToSql(data["citizenId"]) == ToSql(Field(body, "citizenId"))
      && Cut(ToSql(Field(body, "mobile")), ToSql(data["mobile"]), 255)
      && (Field(body, "mobile").Str? && |Field(body, "mobile").s| <= 255 ==> data["mobile"] == Field(body, "mobile"))
      && (Truthy(Field(body, "additionalInfo")) && Field(body, "additionalInfo").Str? ==>
            data["additionalInfo"] == Field(body, "additionalInfo"))
      && (Nullish(Field(body, "additionalInfo")) || Field(body, "additionalInfo") == Str("") ==>
            data["additionalInfo"] == Str(""))
  {
    var s := SubmissionOf(body);
    var t := Prepared(s).value;
    assert t.citizenId == s.citizenId;
    var after := Upsert(db, None, s, now).value;
    assert after == Assign(db, t, now).value;
    assert t.citizenId in after.rows;
    var row := after.rows[t.citizenId];
    assert row.citizenId == t.citizenId && row.mobile == t.mobile && row.additionalInfo == t.additionalInfo;
  }

  /** Sending a NEW_USER draft back as a registration body stores the
      profile's identity fields and mobile as they came, but no date of birth:
      the draft names it `dateOfBirthString` while registration reads
      `dateOfBirth`. Nor does the draft carry additional information. */
  lemma DraftAsSubmission(profile: JsValue)
    ensures var s := SubmissionOf(Login.NewUserData(profile));
      && s.userId == ToSql(Prop(profile, "userId"))
      && s.citizenId == ToSql(Prop(profile, "citizenId"))
      && s.firstName == ToSql(Prop(profile, "firstName"))
      && s.lastName == ToSql(Prop(profile, "lastName"))
      && s.email == ToSql(Prop(profile, "email"))
      && s.notification == ToSql(Prop(profile, "notification"))
      && s.mobile == ToSql(Prop(profile, "mobile"))
      && s.dateOfBirth == SqlNull
      && s.additionalInfo == SqlNull
  {
  }
}
