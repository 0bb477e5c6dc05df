/**
 * The server side of the house-rules acknowledgment: the `acknowledgments`
 * table (one row per e-mail address, a SERIAL id), the `POST /api/acknowledge`
 * handler, the `GET /api/check-email/:email` lookup and the admin listing
 * `GET /api/acknowledgments`.
 */
module AckServer {
  import opened Wrappers
  import opened Email

  /** The JSON body of `POST /api/acknowledge`; a field the body lacks is None. */
  datatype Request = Request(
    name: Option<string>,
    email: Option<string>,
    dob: Option<string>,
    govtIdType: Option<string>,
    govtIdNumber: Option<string>)

  /** A row of `acknowledgments`. The dob is kept as the text submitted. */
  datatype Row = Row(
    id: nat,
    name: string,
    email: string,
    dob: string,
    govtIdType: string,
    govtIdNumber: string,
    acknowledgedAt: int)

  const AllFieldsRequired := "All fields are required"
  const InvalidEmailFormat := "Invalid email format"
  const AlreadyAcknowledged := "This email has already acknowledged the house rules"
  const FailedToRecord := "Failed to record acknowledgment"

  /** What the handler answers. */
  datatype Response =
    | Recorded(id: nat, acknowledgedAt: int)
    | BadRequest(error: string)
    | Conflict(error: string)
    | ServerError(error: string)
  {
    /** The HTTP status the handler sets. */
    function Status(): int {
      match this
      case Recorded(_, _) => 200
      case BadRequest(_) => 400
      case Conflict(_) => 409
      case ServerError(_) => 500
    }
  }

  /** A JavaScript string field is truthy when present and non-empty. */
  predicate Truthy(f: Option<string>) {
    f.Some? && f.value != ""
  }

  predicate AllPresent(req: Request) {
    Truthy(req.name) && Truthy(req.email) && Truthy(req.dob)
    && Truthy(req.govtIdType) && Truthy(req.govtIdNumber)
  }

  /** The handler's checks before it touches the table: the missing-field
      test first, then the e-mail shape. None means the request goes on to
      the insert. */
  function Validate(req: Request): (r: Option<Response>)
    ensures r == Some(BadRequest(AllFieldsRequired)) <==> !AllPresent(req)
    ensures r == Some(BadRequest(InvalidEmailFormat)) <==> AllPresent(req) && !ValidEmail(req.email.value)
    ensures r == None <==> AllPresent(req) && ValidEmail(req.email.value)
  {
    if !AllPresent(req) then Some(BadRequest(AllFieldsRequired))
    else if !ValidEmail(req.email.value) then Some(BadRequest(InvalidEmailFormat))
    else None
  }

  /** A value fits a VARCHAR(n) column when it has at most n characters or
      everything past the n-th is a space; such excess spaces are cut off,
      any other excess is refused. */
  predicate FitsWidth(v: string, n: nat) {
    |v| <= n || forall k :: n <= k < |v| ==> v[k] == ' '
  }

  /** What a VARCHAR(n) column stores of a value that fits. */
  function Truncate(v: string, n: nat): (r: string)
    ensures |r| <= n && |r| <= |v| && r == v[..|r|]
    ensures |v| <= n ==> r == v
    ensures |v| > n ==> |r| == n
    ensures FitsWidth(v, n) ==> forall k :: |r| <= k < |v| ==> v[k] == ' '
  {
    if |v| <= n then v else v[..n]
  }

  /** The widths of the text columns, in characters: name 255, email 255,
      govt_id_type 50, govt_id_number 100. */
  predicate FitsColumns(req: Request)
    requires AllPresent(req)
  {
    FitsWidth(req.name.value, 255) && FitsWidth(req.email.value, 255)
    && FitsWidth(req.govtIdType.value, 50) && FitsWidth(req.govtIdNumber.value, 100)
  }

  /** The largest value a SERIAL column's sequence hands out. */
  const MaxSerial := 2147483647

  /** Some row holds exactly this e-mail address. */
  predicate EmailTaken(rows: seq<Row>, email: string) {
    exists i :: 0 <= i < |rows| && rows[i].email == email
  }

  /** The table's rows together with the next value of its SERIAL sequence. */
  datatype Table = Table(rows: seq<Row>, nextId: nat)

  /** What the table's constraints guarantee: UNIQUE(email), and ids drawn
      from the sequence, so positive, below its next value and increasing in
      insertion order (hence distinct). */
  ghost predicate TableInvariant(t: Table) {
    (forall i, j :: 0 <= i < j < |t.rows| ==> t.rows[i].email != t.rows[j].email)
    && (forall i, j :: 0 <= i < j < |t.rows| ==> t.rows[i].id < t.rows[j].id)
    && t.nextId >= 1
    && (forall i :: 0 <= i < |t.rows| ==> 1 <= t.rows[i].id < t.nextId)
  }

  /** The table state and the answer after one submission. */
  datatype Effect = Effect(table: Table, response: Response)

  /** The row the INSERT would write for a request that passed Validate:
      the text columns cut to their widths, the dob as submitted. A valid
      address that fits is stored unchanged, since it holds no space. */
  function RowFor(req: Request, id: nat, now: int): (r: Row)
    requires AllPresent(req)
    ensures r.id == id && r.dob == req.dob.value && r.acknowledgedAt == now
    ensures r.name == Truncate(req.name.value, 255) && r.email == Truncate(req.email.value, 255)
    ensures r.govtIdType == Truncate(req.govtIdType.value, 50)
    ensures r.govtIdNumber == Truncate(req.govtIdNumber.value, 100)
    ensures ValidEmail(req.email.value) && FitsColumns(req) ==> r.email == req.email.value
  {
    ValidEmailUncut(req.email.value);
    Row(id, Truncate(req.name.value, 255), Truncate(req.email.value, 255), req.dob.value,
        Truncate(req.govtIdType.value, 50), Truncate(req.govtIdNumber.value, 100), now)
  }

  /** A valid address that fits a VARCHAR(n) column is not cut. */
  lemma ValidEmailUncut(email: string)
    ensures ValidEmail(email) && FitsWidth(email, 255) ==> Truncate(email, 255) == email
  {
    ValidEmailPlainElsewhere(email);
    if ValidEmail(email) && |email| > 255 && FitsWidth(email, 255) {
      ValidEmailRejectsWhitespace(email, |email| - 1);
    }
  }

  /** One `POST /api/acknowledge`, as one atomic step on the table. `now` is
      the clock behind CURRENT_TIMESTAMP; `storeUp` is false when the
      database cannot be reached or refuses the dob text as a DATE. A
      unique violation still consumes a value of the sequence. */
  function Accept(t: Table, req: Request, now: int, storeUp: bool): (e: Effect)
    ensures TableInvariant(t) ==> TableInvariant(e.table)
    ensures e.response.Recorded? <==>
              Validate(req) == None && storeUp && FitsColumns(req) && t.nextId <= MaxSerial
              && !EmailTaken(t.rows, req.email.value)
    ensures e.response.Recorded? ==>
              e.table.rows == t.rows + [RowFor(req, t.nextId, now)]
              && e.response == Recorded(t.nextId, now)
              && (TableInvariant(t) ==> forall i :: 0 <= i < |t.rows| ==> t.rows[i].id < e.response.id)
    ensures !e.response.Recorded? ==> e.table.rows == t.rows
    ensures e.response.Conflict? <==>
              Validate(req) == None && storeUp && FitsColumns(req) && t.nextId <= MaxSerial
              && EmailTaken(t.rows, req.email.value)
    ensures e.response.Conflict? ==> e.table.nextId == t.nextId + 1
    ensures Validate(req).Some? ==> e == Effect(t, Validate(req).value)
    ensures Validate(req) == None && !(storeUp && FitsColumns(req) && t.nextId <= MaxSerial) ==>
              e == Effect(t, ServerError(FailedToRecord))
  {
    match Validate(req)
    case Some(bad) => Effect(t, bad)
    case None =>
      if !storeUp || !FitsColumns(req) || t.nextId > MaxSerial then Effect(t, ServerError(FailedToRecord))
      else
        var row := RowFor(req, t.nextId, now);
        if EmailTaken(t.rows, row.email) then Effect(Table(t.rows, t.nextId + 1), Conflict(AlreadyAcknowledged))
        else Effect(Table(t.rows + [row], t.nextId + 1), Recorded(row.id, now))
  }

  /** Once an address is recorded, `check-email` reports it, and submitting
      it again, whatever the other fields, is answered 409 with the rows
      unchanged. */
  lemma AcknowledgeTwice(t: Table, first: Request, second: Request, now1: int, now2: int)
    requires Accept(t, first, now1, true).response.Recorded?
    requires Validate(second) == None && second.email == first.email && FitsColumns(second)
    ensures EmailTaken(Accept(t, first, now1, true).table.rows, first.email.value)
    ensures var t1 := Accept(t, first, now1, true).table;
            Accept(t1, second, now2, true).table.rows == t1.rows
    ensures var t1 := Accept(t, first, now1, true).table;
            t1.nextId <= MaxSerial ==>
              Accept(t1, second, now2, true) == Effect(Table(t1.rows, t1.nextId + 1), Conflict(AlreadyAcknowledged))
              && Accept(t1, second, now2, true).response.Status() == 409
  {
    var t1 := Accept(t, first, now1, true).table;
    assert t1.rows[|t.rows|].email == first.email.value;
  }

  /** The handler checks neither age nor identity document: with the fields
      present, a good address, fitting columns and a fresh address, any dob
      and any government id text are recorded as given. */
  lemma NoAgeOrIdCheck(t: Table, req: Request, dob: string, idType: string, idNumber: string, now: int)
    requires Validate(req) == None && dob != "" && idType != "" && idNumber != ""
    requires |idType| <= 50 && |idNumber| <= 100
    requires FitsColumns(req) && t.nextId <= MaxSerial && !EmailTaken(t.rows, req.email.value)
    ensures var other := req.(dob := Some(dob), govtIdType := Some(idType), govtIdNumber := Some(idNumber));
            Accept(t, other, now, true).response == Recorded(t.nextId, now)
            && Accept(t, other, now, true).table.rows[|t.rows|] ==
               Row(t.nextId, RowFor(req, t.nextId, now).name, req.email.value, dob, idType, idNumber, now)
  {
  }

  /** A name longer than its column only by trailing spaces is recorded,
      cut to 255 characters, rather than refused. */
  lemma ExcessSpacesCut(t: Table, req: Request, now: int)
    requires Validate(req) == None && t.nextId <= MaxSerial && !EmailTaken(t.rows, req.email.value)
    requires |req.name.value| > 255 && forall k :: 255 <= k < |req.name.value| ==> req.name.value[k] == ' '
    requires FitsWidth(req.email.value, 255) && FitsWidth(req.govtIdType.value, 50)
    requires FitsWidth(req.govtIdNumber.value, 100)
    ensures Accept(t, req, now, true).response == Recorded(t.nextId, now)
    ensures Accept(t, req, now, true).table.rows[|t.rows|].name == req.name.value[..255]
  {
  }

  /** The listing `ORDER BY acknowledged_at DESC`, taken as newest insertion
      first. */
  function NewestFirst(rows: seq<Row>): (r: seq<Row>)
    ensures |r| == |rows|
    ensures forall k :: 0 <= k < |rows| ==> r[k] == rows[|rows| - 1 - k]
  {
    if rows == [] then [] else [rows[|rows| - 1]] + NewestFirst(rows[..|rows| - 1])
  }

  /** Timestamps that never go back along insertion order. */
  predicate ClockOrdered(rows: seq<Row>) {
    forall i, j :: 0 <= i < j < |rows| ==> rows[i].acknowledgedAt <= rows[j].acknowledgedAt
  }

  /** When the clock never went back, newest-insertion-first is also what
      ORDER BY acknowledged_at DESC asks for, and ids descend strictly. */
  lemma NewestFirstIsOrdered(t: Table)
    requires TableInvariant(t)
    ensures var l := NewestFirst(t.rows);
            forall i, j :: 0 <= i < j < |l| ==> l[i].id > l[j].id
    ensures ClockOrdered(t.rows) ==>
            var l := NewestFirst(t.rows);
            forall i, j :: 0 <= i < j < |l| ==> l[i].acknowledgedAt >= l[j].acknowledgedAt
  {
  }

  /** A submission at a time no earlier than every row keeps the rows in
      clock order. */
  lemma AcceptKeepsClockOrder(t: Table, req: Request, now: int, storeUp: bool)
    requires ClockOrdered(t.rows)
    requires forall i :: 0 <= i < |t.rows| ==> t.rows[i].acknowledgedAt <= now
    ensures ClockOrdered(Accept(t, req, now, storeUp).table.rows)
  {
  }

  /** The `acknowledgments` table as the server holds it. */
  class AcknowledgmentTable {
    var rows: seq<Row>
    var nextId: nat

    function State(): Table
      reads this
    {
      Table(rows, nextId)
    }

    ghost predicate Valid()
      reads this
    {
      TableInvariant(State())
    }

    /** The table as `CREATE TABLE IF NOT EXISTS` leaves it: empty, with the
        sequence at 1. */
    constructor ()
      ensures Valid() && rows == [] && nextId == 1
    {
      rows := [];
      nextId := 1;
    }

    /** `POST /api/acknowledge`. */
    method Acknowledge(req: Request, now: int, storeUp: bool) returns (resp: Response)
      requires Valid()
      modifies this
      ensures Valid()
      ensures Effect(State(), resp) == Accept(old(State()), req, now, storeUp)
    {
      var bad := Validate(req);
      if bad.Some? {
        return bad.value;
      }
      if !storeUp || !FitsColumns(req) || nextId > MaxSerial {
        return ServerError(FailedToRecord);
      }
      var row := RowFor(req, nextId, now);
      var taken := CheckEmail(row.email);
      nextId := nextId + 1;
      if taken {
        return Conflict(AlreadyAcknowledged);
      }
      rows := rows + [row];
      resp := Recorded(row.id, now);
    }

    /** `GET /api/check-email/:email`: whether some row holds exactly this
        address. */
    method CheckEmail(email: string) returns (found: bool)
      ensures found <==> exists i :: 0 <= i < |rows| && rows[i].email == email
    {
      found := false;
      var i := 0;
      while i < |rows|
        invariant 0 <= i <= |rows|
        invariant found <==> exists k :: 0 <= k < i && rows[k].email == email
      {
        if rows[i].email == email {
          found := true;
        }
        i := i + 1;
      }
    }

    /** `GET /api/acknowledgments`: every row, newest first. */
    method ListAll() returns (list: seq<Row>)
      requires Valid()
      ensures list == NewestFirst(rows)
      ensures forall i, j :: 0 <= i < j < |list| ==> list[i].id > list[j].id
    {
      list := [];
      var i := 0;
      while i < |rows|
        invariant 0 <= i <= |rows|
        invariant list == NewestFirst(rows[..i])
      {
        assert rows[..i + 1][..i] == rows[..i];
        list := [rows[i]] + list;
        i := i + 1;
      }
      assert rows[..|rows|] == rows;
      NewestFirstIsOrdered(State());
    }
  }
}
