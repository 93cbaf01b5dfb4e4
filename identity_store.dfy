/** The `personal_data` table in PostgreSQL, reached through node-postgres:
    its cells, its rows, the two uniqueness constraints, and the three
    statements the handlers issue (CREATE TABLE IF NOT EXISTS, the point
    SELECT on citizen_id, and INSERT ... ON CONFLICT (citizen_id) DO UPDATE). */
module IdentityStore {
  import opened Wrappers
  import opened JsValues

  // ---------------------------------------------------------------------
  // Cells and parameters
  // ---------------------------------------------------------------------

  /** One cell of the table. node-postgres sends an object parameter as its
      JSON text; the model keeps the object itself in place of that text. */
  datatype SqlValue = SqlNull | SqlText(text: string) | SqlObject(fields: map<string, JsValue>)

  function DigitChar(d: nat): char
    requires d < 10
  {
    "0123456789"[d]
  }

  /** Decimal text of a natural number, without leading zeros. */
  function NaturalText(n: nat): (t: string)
    ensures |t| >= 1
  {
    if n < 10 then [DigitChar(n)] else NaturalText(n / 10) + [DigitChar(n % 10)]
  }

  /** `String(n)` for an integral number. */
  function NumberText(n: int): (t: string)
    ensures |t| >= 1
  {
    if n < 0 then "-" + NaturalText(-n) else NaturalText(n)
  }

  /** How node-postgres turns a query parameter into a cell: `null` and
      `undefined` become NULL, strings go as they are, numbers and booleans
      as their text. */
  function ToSql(v: JsValue): (c: SqlValue)
    ensures c.SqlNull? <==> Nullish(v)
    ensures v.Str? ==> c == SqlText(v.s)
  {
    match v
    case Undefined => SqlNull
    case Null => SqlNull
    case Bool(b) => SqlText(if b then "true" else "false")
    case Num(n) => SqlText(NumberText(n))
    case Str(s) => SqlText(s)
    case Obj(fields) => SqlObject(fields)
  }

  /** How a cell of a text column reads back: NULL as `null`, text as a
      string. */
  function FromSql(c: SqlValue): (v: JsValue)
    ensures ToSql(v) == c
  {
    match c
    case SqlNull => Null
    case SqlText(t) => Str(t)
    case SqlObject(fields) => Obj(fields)
  }

  /** A stored value reads back with the same truthiness, except that the
      number 0 and `false` come back as the truthy strings "0" and "false". */
  lemma StoredTruthiness(v: JsValue)
    ensures Truthy(FromSql(ToSql(v))) <==> Truthy(v) || v == Num(0) || v == Bool(false)
  {
  }

  /** A cell fits a VARCHAR(width) column; the text of objects is not
      computed, so they are taken to fit. */
  predicate FitsWidth(c: SqlValue, width: nat) {
    c.SqlText? ==> |c.text| <= width
  }

  // ---------------------------------------------------------------------
  // Rows and the table
  // ---------------------------------------------------------------------

  /** One row of `personal_data`, columns in declaration order. */
  datatype Row = Row(
    userId: SqlValue,          // VARCHAR(255) PRIMARY KEY
    citizenId: SqlValue,       // VARCHAR(255) UNIQUE
    firstName: SqlValue,       // VARCHAR(255)
    lastName: SqlValue,        // VARCHAR(255)
    dateOfBirth: SqlValue,     // VARCHAR(255)
    mobile: SqlValue,          // VARCHAR(255)
    email: SqlValue,           // VARCHAR(255)
    notification: SqlValue,    // VARCHAR(50)
    additionalInfo: SqlValue,  // TEXT
    createdAt: int)            // TIMESTAMP DEFAULT CURRENT_TIMESTAMP

  /** The nine parameters of the registration INSERT, in its column order. */
  datatype Submission = Submission(
    userId: SqlValue,
    citizenId: SqlValue,
    firstName: SqlValue,
    lastName: SqlValue,
    dateOfBirth: SqlValue,
    email: SqlValue,
    notification: SqlValue,
    mobile: SqlValue,
    additionalInfo: SqlValue)

  /** The table's content. `provisioned` says whether the relation exists.
      Rows with a citizen id are keyed by it; the UNIQUE constraint admits any
      number of rows whose citizen id is NULL, and those are keyed by their
      primary key instead. */
  datatype Db = Db(provisioned: bool, rows: map<SqlValue, Row>, nullCitizenRows: map<SqlValue, Row>)

  /** The declared column types hold for a row: a non-NULL primary key and
      every VARCHAR within its width. */
  predicate RowConforms(row: Row) {
    && !row.userId.SqlNull?
    && FitsWidth(row.userId, 255)
    && FitsWidth(row.citizenId, 255)
    && FitsWidth(row.firstName, 255)
    && FitsWidth(row.lastName, 255)
    && FitsWidth(row.dateOfBirth, 255)
    && FitsWidth(row.mobile, 255)
    && FitsWidth(row.email, 255)
    && FitsWidth(row.notification, 50)
  }

  /** The table invariant: no rows before the relation exists, every row keyed
      by its own citizen id (or, when that is NULL, by its user id), column
      types respected, and user ids unique across the whole table. */
  ghost predicate Consistent(db: Db) {
    && (!db.provisioned ==> db.rows == map[] && db.nullCitizenRows == map[])
    && (forall c | c in db.rows :: !c.SqlNull? && db.rows[c].citizenId == c && RowConforms(db.rows[c]))
    && (forall u | u in db.nullCitizenRows ::
          db.nullCitizenRows[u].citizenId.SqlNull? && db.nullCitizenRows[u].userId == u
          && RowConforms(db.nullCitizenRows[u]))
    && (forall c1, c2 | c1 in db.rows && c2 in db.rows && db.rows[c1].userId == db.rows[c2].userId :: c1 == c2)
    && (forall c | c in db.rows :: db.rows[c].userId !in db.nullCitizenRows)
  }

  /** Every row of the table. */
  function AllRows(db: Db): set<Row> {
    db.rows.Values + db.nullCitizenRows.Values
  }

  function RowCount(db: Db): nat {
    |db.rows| + |db.nullCitizenRows|
  }

  /** The two uniqueness constraints as seen on the table's rows: one row per
      non-NULL citizen id, one row per user id. */
  lemma ConsistentMeansUnique(db: Db, r1: Row, r2: Row)
    requires Consistent(db)
    requires r1 in AllRows(db) && r2 in AllRows(db)
    ensures r1.citizenId == r2.citizenId && !r1.citizenId.SqlNull? ==> r1 == r2
    ensures r1.userId == r2.userId ==> r1 == r2
  {
  }

  // ---------------------------------------------------------------------
  // The three statements, as functions of the table
  // ---------------------------------------------------------------------

  const MISSING_RELATION: string := "relation \"personal_data\" does not exist"
  const NULL_USER_ID: string :=
    "null value in column \"user_id\" of relation \"personal_data\" violates not-null constraint"
  const DUPLICATE_USER_ID: string := "duplicate key value violates unique constraint \"personal_data_pkey\""

  function ValueTooLong(width: nat): string {
    "value too long for type character varying(" + NumberText(width) + ")"
  }

  /** `CREATE TABLE IF NOT EXISTS personal_data (...)`. `outage` is the
      message of the connection failure every statement meets, if any. */
  function CreateTable(db: Db, outage: Option<string>): (r: Result<Db>)
    ensures r.Err? <==> outage.Some?
    ensures r.Ok? ==> r.value.provisioned && r.value.rows == db.rows && r.value.nullCitizenRows == db.nullCitizenRows
  {
    if outage.Some? then Err(outage.value) else Ok(db.(provisioned := true))
  }

  /** Provisioning is idempotent and keeps every row: provisioning twice is
      provisioning once, and an existing table is left as it is. */
  lemma CreateTableIdempotent(db: Db, outage: Option<string>)
    requires CreateTable(db, outage).Ok?
    ensures CreateTable(CreateTable(db, outage).value, outage) == CreateTable(db, outage)
    ensures db.provisioned ==> CreateTable(db, outage) == Ok(db)
    ensures AllRows(CreateTable(db, outage).value) == AllRows(db)
  {
  }

  const NUL_IN_TEXT: string := "invalid byte sequence for encoding \"UTF8\": 0x00"

  /** A text parameter holding the character U+0000, which PostgreSQL
      refuses in any text value. */
  predicate HasNul(c: SqlValue) {
    c.SqlText? && '\0' in c.text
  }

  /** `SELECT * FROM personal_data WHERE citizen_id = $1`, with the parameter
      already turned into a cell. `citizen_id = NULL` matches no row. */
  function Select(db: Db, outage: Option<string>, key: SqlValue): (r: Result<Option<Row>>)
    ensures outage.Some? ==> r == Err(outage.value)
    ensures outage.None? && !db.provisioned ==> r == Err(MISSING_RELATION)
    ensures outage.None? && db.provisioned ==> (r.Err? <==> HasNul(key)) && (r.Err? ==> r.message == NUL_IN_TEXT)
    ensures r.Ok? && r.value.Some? ==> r.value.value.citizenId == key || !Consistent(db)
  {
    if outage.Some? then Err(outage.value)
    else if !db.provisioned then Err(MISSING_RELATION)
    else if HasNul(key) then Err(NUL_IN_TEXT)
    else if !key.SqlNull? && key in db.rows then Ok(Some(db.rows[key]))
    else Ok(None)
  }

  /** On a consistent table the lookup fails only on a key holding U+0000;
      otherwise it finds a row exactly when some row carries that (non-NULL)
      citizen id, and then it is that row. */
  lemma SelectFindsExactlyTheMatchingRow(db: Db, key: SqlValue)
    requires Consistent(db) && db.provisioned
    ensures Select(db, None, key).Ok? <==> !HasNul(key)
    ensures !HasNul(key) ==>
              (Select(db, None, key).value.Some? <==> exists r | r in AllRows(db) :: r.citizenId == key && !key.SqlNull?)
    ensures !HasNul(key) && Select(db, None, key).value.Some? ==> Select(db, None, key).value.value in AllRows(db)
  {
  }

  /** Only space characters. */
  predicate AllSpaces(t: string) {
    forall i | 0 <= i < |t| :: t[i] == ' '
  }

  /** A cell too long for a VARCHAR(width) column: a text longer than the
      width with something other than spaces past it. */
  predicate Overflows(c: SqlValue, width: nat) {
    c.SqlText? && |c.text| > width && !AllSpaces(c.text[width..])
  }

  /** `stored` is what a VARCHAR(width) column keeps of `submitted`: the value
      itself when it fits, else its first `width` characters, the rest being
      spaces. */
  predicate Cut(submitted: SqlValue, stored: SqlValue, width: nat) {
    if FitsWidth(submitted, width) then stored == submitted
    else && submitted.SqlText? && stored == SqlText(submitted.text[..width])
         && AllSpaces(submitted.text[width..])
  }

  /** Assigning a cell to a VARCHAR(width) column: a text that overflows is
      refused; one whose excess is all spaces is cut to the width; anything
      else is kept as it is. */
  function FitTo(c: SqlValue, width: nat): (r: Option<SqlValue>)
    ensures r.None? <==> Overflows(c, width)
    ensures FitsWidth(c, width) ==> r == Some(c)
    ensures r.Some? ==> FitsWidth(r.value, width) && (r.value.SqlNull? <==> c.SqlNull?) && Cut(c, r.value, width)
  {
    if c.SqlText? && |c.text| > width then
      if AllSpaces(c.text[width..]) then Some(SqlText(c.text[..width])) else None
    else Some(c)
  }

  /** Some parameter of a registration holds U+0000. */
  predicate AnyNul(s: Submission) {
    || HasNul(s.userId) || HasNul(s.citizenId) || HasNul(s.firstName) || HasNul(s.lastName)
    || HasNul(s.dateOfBirth) || HasNul(s.email) || HasNul(s.notification) || HasNul(s.mobile)
    || HasNul(s.additionalInfo)
  }

  /** The width of the first column, in declaration order, whose value
      overflows it. additional_info is TEXT and takes any length. */
  function OverflowWidth(s: Submission): Option<nat> {
    if || Overflows(s.userId, 255) || Overflows(s.citizenId, 255) || Overflows(s.firstName, 255)
       || Overflows(s.lastName, 255) || Overflows(s.dateOfBirth, 255) || Overflows(s.mobile, 255)
       || Overflows(s.email, 255)
    then Some(255)
    else if Overflows(s.notification, 50) then Some(50)
    else None
  }

  /** Every VARCHAR value of a submission is within its column's width. */
  predicate FitsColumns(s: Submission) {
    && FitsWidth(s.userId, 255) && FitsWidth(s.citizenId, 255) && FitsWidth(s.firstName, 255)
    && FitsWidth(s.lastName, 255) && FitsWidth(s.dateOfBirth, 255) && FitsWidth(s.mobile, 255)
    && FitsWidth(s.email, 255) && FitsWidth(s.notification, 50)
  }

  /** The nine values as the INSERT assigns them to the columns, or the error
      that stops it first: a text holding U+0000 is refused while the
      parameters are bound, then the first overflowing column names its
      width. */
  function Prepared(s: Submission): (r: Result<Submission>)
    ensures AnyNul(s) ==> r == Err(NUL_IN_TEXT)
    ensures !AnyNul(s) && OverflowWidth(s).Some? ==> r == Err(ValueTooLong(OverflowWidth(s).value))
    ensures !AnyNul(s) && OverflowWidth(s).None? ==> r.Ok?
    ensures !AnyNul(s) && FitsColumns(s) ==> r == Ok(s)
    ensures r.Ok? ==> FitsColumns(r.value)
    ensures r.Ok? ==>
              && Cut(s.userId, r.value.userId, 255) && Cut(s.citizenId, r.value.citizenId, 255)
              && Cut(s.firstName, r.value.firstName, 255) && Cut(s.lastName, r.value.lastName, 255)
              && Cut(s.dateOfBirth, r.value.dateOfBirth, 255) && Cut(s.email, r.value.email, 255)
              && Cut(s.notification, r.value.notification, 50) && Cut(s.mobile, r.value.mobile, 255)
              && r.value.additionalInfo == s.additionalInfo
    ensures r.Ok? ==> (r.value.userId.SqlNull? <==> s.userId.SqlNull?) && (r.value.citizenId.SqlNull? <==> s.citizenId.SqlNull?)
  {
    if AnyNul(s) then Err(NUL_IN_TEXT)
    else
      var u, c, f, l := FitTo(s.userId, 255), FitTo(s.citizenId, 255), FitTo(s.firstName, 255), FitTo(s.lastName, 255);
      var d, m, e, n := FitTo(s.dateOfBirth, 255), FitTo(s.mobile, 255), FitTo(s.email, 255), FitTo(s.notification, 50);
      if u.None? || c.None? || f.None? || l.None? || d.None? || m.None? || e.None? then Err(ValueTooLong(255))
      else if n.None? then Err(ValueTooLong(50))
      else Ok(Submission(u.value, c.value, f.value, l.value, d.value, e.value, n.value, m.value, s.additionalInfo))
  }

  /** A mobile number past its 255 characters only by spaces is stored cut
      to 255 characters, and the registration goes on with it. */
  lemma TrailingSpacesAreCut(s: Submission, digits: string, spaces: string)
    requires !AnyNul(s) && FitsColumns(s.(mobile := SqlNull))
    requires |digits| == 255 && |spaces| > 0 && AllSpaces(spaces)
    requires s.mobile == SqlText(digits + spaces)
    ensures Prepared(s) == Ok(s.(mobile := SqlText(digits)))
  {
    assert (digits + spaces)[255..] == spaces;
    assert (digits + spaces)[..255] == digits;
  }

  /** A user id already held by some row of the table. */
  predicate UserIdTaken(db: Db, userId: SqlValue) {
    || (exists c | c in db.rows :: db.rows[c].userId == userId)
    || userId in db.nullCitizenRows
  }

  /** The row a registration inserts, from the values as assigned;
      created_at takes its default, the statement's time `now`. */
  function NewRow(t: Submission, now: int): Row {
    Row(t.userId, t.citizenId, t.firstName, t.lastName, t.dateOfBirth, t.mobile, t.email,
        t.notification, t.additionalInfo, now)
  }

  /** `INSERT INTO personal_data (...) VALUES (...) ON CONFLICT (citizen_id)
      DO UPDATE SET mobile = EXCLUDED.mobile, additional_info =
      EXCLUDED.additional_info`, one atomic statement. The checks come in
      PostgreSQL's order: the relation must exist, the parameters are bound
      and assigned to the column types, the NOT NULL of the primary key is
      checked, the conflict on citizen_id is looked for with the value as
      assigned (a NULL citizen id never conflicts), and only an actual insert
      meets the primary key's uniqueness. */
  function Upsert(db: Db, outage: Option<string>, s: Submission, now: int): (r: Result<Db>)
    ensures r.Ok? ==> outage.None? && r.value.provisioned && db.provisioned && Prepared(s).Ok?
  {
    if outage.Some? then Err(outage.value)
    else if !db.provisioned then Err(MISSING_RELATION)
    else if Prepared(s).Err? then Err(Prepared(s).message)
    else Assign(db, Prepared(s).value, now)
  }

  /** The statement past binding and assignment, on the values as assigned. */
  function Assign(db: Db, t: Submission, now: int): Result<Db> {
    if t.userId.SqlNull? then Err(NULL_USER_ID)
    else if !t.citizenId.SqlNull? && t.citizenId in db.rows then
      var existing := db.rows[t.citizenId];
      Ok(db.(rows := db.rows[t.citizenId := existing.(mobile := t.mobile, additionalInfo := t.additionalInfo)]))
    else if UserIdTaken(db, t.userId) then Err(DUPLICATE_USER_ID)
    else if t.citizenId.SqlNull? then Ok(db.(nullCitizenRows := db.nullCitizenRows[t.userId := NewRow(t, now)]))
    else Ok(db.(rows := db.rows[t.citizenId := NewRow(t, now)]))
  }

  /** The table after a registration: the new content, or the old one when
      the statement failed (a failed statement changes nothing). */
  function StoreAfter(db: Db, outage: Option<string>, s: Submission, now: int): Db {
    match Upsert(db, outage, s, now)
    case Ok(d) => d
    case Err(_) => db
  }

  // ---------------------------------------------------------------------
  // What a registration guarantees
  // ---------------------------------------------------------------------

  /** When a registration succeeds: exactly when the connection is up, the
      relation exists, no text holds U+0000, no value overflows its column,
      the user id is present, and either the citizen id (as assigned) is
      already stored or the user id is free. */
  lemma UpsertSucceedsExactlyWhen(db: Db, outage: Option<string>, s: Submission, now: int)
    ensures Upsert(db, outage, s, now).Ok? <==>
              && outage.None? && db.provisioned && !AnyNul(s) && OverflowWidth(s).None? && !s.userId.SqlNull?
              && ((!s.citizenId.SqlNull? && Prepared(s).value.citizenId in db.rows)
                  || !UserIdTaken(db, Prepared(s).value.userId))
  {
  }

  /** Registration keeps the table invariant. */
  lemma UpsertKeepsConsistent(db: Db, outage: Option<string>, s: Submission, now: int)
    requires Consistent(db)
    ensures Consistent(StoreAfter(db, outage, s, now))
  {
    if Upsert(db, outage, s, now).Ok? {
      AssignKeepsConsistent(db, Prepared(s).value, now);
    }
  }

  lemma AssignKeepsConsistent(db: Db, t: Submission, now: int)
    requires Consistent(db) && db.provisioned && FitsColumns(t)
    requires Assign(db, t, now).Ok?
    ensures Consistent(Assign(db, t, now).value)
  {
  }

  /** A citizen id not yet stored: exactly one row is added, holding the nine
      values as assigned and the statement's time; every other row stays. */
  lemma UpsertInsertsNewCitizen(db: Db, outage: Option<string>, s: Submission, now: int)
    requires Upsert(db, outage, s, now).Ok?
    requires !s.citizenId.SqlNull? && Prepared(s).value.citizenId !in db.rows
    ensures var t := Prepared(s).value;
      var after := Upsert(db, outage, s, now).value;
      && Select(after, None, t.citizenId) == Ok(Some(NewRow(t, now)))
      && RowCount(after) == RowCount(db) + 1
      && AllRows(after) == AllRows(db) + {NewRow(t, now)}
  {
    var t := Prepared(s).value;
    assert Upsert(db, outage, s, now) == Assign(db, t, now);
    AssignInsertsNewCitizen(db, t, now);
  }

  lemma AssignInsertsNewCitizen(db: Db, t: Submission, now: int)
    requires Assign(db, t, now).Ok?
    requires !t.citizenId.SqlNull? && t.citizenId !in db.rows
    ensures var after := Assign(db, t, now).value;
      && after.provisioned == db.provisioned
      && after.rows == db.rows[t.citizenId := NewRow(t, now)]
      && after.nullCitizenRows == db.nullCitizenRows
      && RowCount(after) == RowCount(db) + 1
      && AllRows(after) == AllRows(db) + {NewRow(t, now)}
  {
    var row := NewRow(t, now);
    FreshKeyAddsOneValue(db.rows, t.citizenId, row);
  }

  /** A registration without a citizen id that succeeds inserts one row,
      keyed by its user id, holding the nine values as assigned and the
      statement's time; the rows with a citizen id are untouched. */
  lemma UpsertInsertsWithoutCitizen(db: Db, outage: Option<string>, s: Submission, now: int)
    requires Upsert(db, outage, s, now).Ok?
    requires s.citizenId.SqlNull?
    ensures var t := Prepared(s).value;
      var after := Upsert(db, outage, s, now).value;
      && t.citizenId.SqlNull? && t.userId !in db.nullCitizenRows
      && after.rows == db.rows
      && after.nullCitizenRows == db.nullCitizenRows[t.userId := NewRow(t, now)]
      && RowCount(after) == RowCount(db) + 1
      && AllRows(after) == AllRows(db) + {NewRow(t, now)}
  {
    var t := Prepared(s).value;
    var row := NewRow(t, now);
    assert Upsert(db, outage, s, now) == Assign(db, t, now);
    assert !UserIdTaken(db, t.userId);
    FreshKeyAddsOneValue(db.nullCitizenRows, t.userId, row);
  }

  /** Binding a key that was absent adds exactly one entry and one value. */
  lemma FreshKeyAddsOneValue<K, V>(m: map<K, V>, k: K, v: V)
    requires k !in m
    ensures |m[k := v]| == |m| + 1
    ensures m[k := v].Values == m.Values + {v}
  {
    var m' := m[k := v];
    assert m'.Keys == m.Keys + {k};
    forall x | x in m'.Values ensures x in m.Values + {v} {
      var j :| j in m' && m'[j] == x;
      if j != k {
        assert m[j] == x;
      }
    }
    forall x | x in m.Values ensures x in m'.Values {
      var j :| j in m && m[j] == x;
      assert m'[j] == x;
    }
    assert m'[k] == v;
  }

  /** A citizen id already stored: only mobile and additional_info change;
      user id, names, date of birth, email, notification and created_at are
      kept, and no row is added. Which non-NULL user id is submitted plays no
      part, not even when another row holds it. */
  lemma UpsertUpdatesExistingCitizen(db: Db, outage: Option<string>, s: Submission, now: int)
    requires Consistent(db)
    requires outage.None? && !AnyNul(s) && OverflowWidth(s).None? && !s.userId.SqlNull?
    requires !s.citizenId.SqlNull? && Prepared(s).value.citizenId in db.rows
    ensures Upsert(db, outage, s, now).Ok?
    ensures var t := Prepared(s).value;
      var before := db.rows[t.citizenId];
      var after := Upsert(db, outage, s, now).value;
      && Select(after, None, t.citizenId) ==
           Ok(Some(Row(before.userId, before.citizenId, before.firstName, before.lastName, before.dateOfBirth,
                       t.mobile, before.email, before.notification, t.additionalInfo, before.createdAt)))
      && RowCount(after) == RowCount(db)
  {
  }

  /** Rows of every other citizen id, and every row without one, are not
      touched by a registration for a citizen id already stored; a fresh
      insert adds its own row and touches no other. */
  lemma UpsertTouchesOnlyItsCitizen(db: Db, outage: Option<string>, s: Submission, now: int, key: SqlValue)
    requires Prepared(s).Ok? ==> key != Prepared(s).value.citizenId
    ensures Select(StoreAfter(db, outage, s, now), None, key) == Select(db, None, key)
    ensures forall u | u in db.nullCitizenRows ::
              u in StoreAfter(db, outage, s, now).nullCitizenRows
              && StoreAfter(db, outage, s, now).nullCitizenRows[u] == db.nullCitizenRows[u]
  {
  }

  /** Applying the same submission twice gives the same table as applying it
      once, whatever the time of the second statement. */
  lemma UpsertIdempotent(db: Db, outage: Option<string>, s: Submission, now1: int, now2: int)
    ensures StoreAfter(StoreAfter(db, outage, s, now1), outage, s, now2) == StoreAfter(db, outage, s, now1)
  {
  }

  /** Two successful submissions for one citizen id leave a single row with
      the second one's mobile and additional_info (as assigned), and the
      identity fields and created_at of the row the first one left (its own,
      if it inserted). */
  lemma UpsertLastWriterWins(db: Db, outage: Option<string>, s1: Submission, s2: Submission, now1: int, now2: int)
    requires Consistent(db)
    requires !s1.citizenId.SqlNull? && s1.citizenId == s2.citizenId
    requires Upsert(db, outage, s1, now1).Ok?
    requires Upsert(Upsert(db, outage, s1, now1).value, outage, s2, now2).Ok?
    ensures var k := Prepared(s1).value.citizenId;
      var mid := Upsert(db, outage, s1, now1).value;
      var after := Upsert(mid, outage, s2, now2).value;
      && k in mid.rows && k in after.rows
      && after.rows[k] == mid.rows[k].(mobile := Prepared(s2).value.mobile,
                                       additionalInfo := Prepared(s2).value.additionalInfo)
      && after.rows[k].createdAt == (if k in db.rows then db.rows[k].createdAt else now1)
      && RowCount(after) == RowCount(mid)
  {
  }

  /** The failures of a registration, each of which changes nothing: any
      registration before the relation exists; a text holding U+0000; a
      value overflowing its column; any registration without a user id,
      whether or not its citizen id is stored; and a new citizen id whose
      user id another row already holds. */
  lemma UpsertRejects(db: Db, outage: Option<string>, s: Submission, now: int)
    ensures Upsert(db, outage, s, now).Err? ==> StoreAfter(db, outage, s, now) == db
    ensures !db.provisioned ==> Upsert(db, outage, s, now).Err?
    ensures outage.None? && db.provisioned && AnyNul(s) ==> Upsert(db, outage, s, now) == Err(NUL_IN_TEXT)
    ensures outage.None? && db.provisioned && !AnyNul(s) && OverflowWidth(s).Some? ==>
              Upsert(db, outage, s, now) == Err(ValueTooLong(OverflowWidth(s).value))
    ensures outage.None? && db.provisioned && !AnyNul(s) && OverflowWidth(s).None? && s.userId.SqlNull? ==>
              Upsert(db, outage, s, now) == Err(NULL_USER_ID)
    ensures outage.None? && db.provisioned && !AnyNul(s) && OverflowWidth(s).None? && !s.userId.SqlNull?
            && (s.citizenId.SqlNull? || Prepared(s).value.citizenId !in db.rows)
            && UserIdTaken(db, Prepared(s).value.userId) ==>
              Upsert(db, outage, s, now) == Err(DUPLICATE_USER_ID)
  {
  }

  /** A sequence of registrations, each with its own statement time. */
  function ApplyAll(db: Db, outage: Option<string>, submissions: seq<(Submission, int)>): Db
    decreases |submissions|
  {
    if submissions == [] then db
    else ApplyAll(StoreAfter(db, outage, submissions[0].0, submissions[0].1), outage, submissions[1..])
  }

  /** After any sequence of registrations the table invariant still holds, so
      there is at most one row per citizen id and one per user id. */
  lemma {:induction false} RegistrationsKeepUniqueness(db: Db, outage: Option<string>, submissions: seq<(Submission, int)>)
    requires Consistent(db)
    ensures Consistent(ApplyAll(db, outage, submissions))
    decreases |submissions|
  {
    if submissions != [] {
      UpsertKeepsConsistent(db, outage, submissions[0].0, submissions[0].1);
      RegistrationsKeepUniqueness(StoreAfter(db, outage, submissions[0].0, submissions[0].1), outage, submissions[1..]);
    }
  }

  // ---------------------------------------------------------------------
  // The store as the handlers use it
  // ---------------------------------------------------------------------

  /** The shared connection pool and the table behind it. `outage` is the
      connection failure every statement currently meets, if any. */
  class Store {
    var provisioned: bool
    var rows: map<SqlValue, Row>
    var nullCitizenRows: map<SqlValue, Row>
    var outage: Option<string>

    function State(): Db
      reads this
    {
      Db(provisioned, rows, nullCitizenRows)
    }

    ghost predicate Valid()
      reads this
    {
      Consistent(State())
    }

    /** A database in which the relation has not been created yet. */
    constructor (outage: Option<string>)
      ensures Valid()
      ensures State() == Db(false, map[], map[]) && this.outage == outage
    {
      provisioned := false;
      rows := map[];
      nullCitizenRows := map[];
      this.outage := outage;
    }

    method CreateTableIfNotExists() returns (error: Option<string>)
      requires Valid()
      modifies this
      ensures Valid() && outage == old(outage)
      ensures match CreateTable(old(State()), outage)
        case Ok(d) => error.None? && State() == d
        case Err(m) => error == Some(m) && State() == old(State())
    {
      if outage.Some? {
        return outage;
      }
      provisioned := true;
      return None;
    }

    method SelectByCitizenId(key: SqlValue) returns (result: Result<Option<Row>>)
      requires Valid()
      ensures result == Select(State(), outage, key)
    {
      if outage.Some? {
        return Err(outage.value);
      }
      if !provisioned {
        return Err(MISSING_RELATION);
      }
      if key.SqlText? && '\0' in key.text {
        return Err(NUL_IN_TEXT);
      }
      if key != SqlNull && key in rows {
        return Ok(Some(rows[key]));
      }
      return Ok(None);
    }

    method InsertOnConflictUpdate(s: Submission, now: int) returns (error: Option<string>)
      requires Valid()
      modifies this
      ensures Valid() && outage == old(outage)
      ensures match Upsert(old(State()), outage, s, now)
        case Ok(d) => error.None? && State() == d
        case Err(m) => error == Some(m) && State() == old(State())
    {
      UpsertKeepsConsistent(State(), outage, s, now);
      if outage.Some? {
        return outage;
      }
      if !provisioned {
        return Some(MISSING_RELATION);
      }
      var prepared := Prepared(s);
      if prepared.Err? {
        return Some(prepared.message);
      }
      var t := prepared.value;
      if t.userId == SqlNull {
        return Some(NULL_USER_ID);
      }
      if t.citizenId != SqlNull && t.citizenId in rows {
        var existing := rows[t.citizenId];
        rows := rows[t.citizenId := existing.(mobile := t.mobile, additionalInfo := t.additionalInfo)];
        return None;
      }
      var taken := (exists c | c in rows :: rows[c].userId == t.userId) || t.userId in nullCitizenRows;
      if taken {
        return Some(DUPLICATE_USER_ID);
      }
      if t.citizenId == SqlNull {
        nullCitizenRows := nullCitizenRows[t.userId := NewRow(t, now)];
      } else {
        rows := rows[t.citizenId := NewRow(t, now)];
      }
      return None;
    }
  }
}
