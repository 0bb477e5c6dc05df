/**
 * The browser side of the acknowledgment form: the field validators and the
 * submit handler, which checks the confirmations, the e-mail address, the
 * date of birth and the government ID in that order, stops at the first
 * failure and sends the request only when every check passes.
 */
module FormValidation {
  import opened Wrappers
  import opened JsText
  import opened Email
  import AckServer

  /** A calendar day as year, month and day of month. */
  datatype Date = Date(year: int, month: int, day: int)

  /** a falls on or before b: years first, then months, then days. */
  predicate OnOrBefore(a: Date, b: Date) {
    a.year < b.year || (a.year == b.year && (a.month < b.month || (a.month == b.month && a.day <= b.day)))
  }

  predicate Before(a: Date, b: Date) {
    OnOrBefore(a, b) && a != b
  }

  /** The n-th birthday of someone born on b. A 29 February birthday in a
      common year names no real day; it sorts after 28 February and before
      1 March. */
  function Birthday(b: Date, n: int): Date {
    Date(b.year + n, b.month, b.day)
  }

  /** The age in `validateDOB`: the difference of the years, less one when
      today's month and day come before those of the birth. It is the
      number of birthdays reached: the age-th is on or before today and
      the next one is not. */
  function AgeOn(birth: Date, today: Date): (age: int)
    ensures OnOrBefore(Birthday(birth, age), today)
    ensures !OnOrBefore(Birthday(birth, age + 1), today)
  {
    var age := today.year - birth.year;
    var monthDiff := today.month - birth.month;
    if monthDiff < 0 || (monthDiff == 0 && today.day < birth.day) then age - 1 else age
  }

  /** `validateDOB`: birth is the browser's reading of the date field, None
      when it yields an invalid date (then the age is NaN and the test
      fails). Accepted exactly when the 18th birthday is on or before
      today; the birth then necessarily lies before today. */
  function ValidDob(birth: Option<Date>, today: Date): (r: bool)
    ensures r <==> birth.Some? && OnOrBefore(Birthday(birth.value, 18), today)
    ensures r ==> Before(birth.value, today)
  {
    birth.Some? && AgeOn(birth.value, today) >= 18 && Before(birth.value, today)
  }

  /** Born exactly 18 years before today is accepted; a birthday one day
      later in that year (or any later month or day) is refused, and a
      29 February birth waits for 1 March in a common year. */
  lemma EighteenthBirthdayBoundary(today: Date, later: Date)
    requires later.year == today.year - 18
    requires OnOrBefore(today, Date(today.year, later.month, later.day))
    requires later.month != today.month || later.day != today.day
    ensures ValidDob(Some(Date(today.year - 18, today.month, today.day)), today)
    ensures !ValidDob(Some(later), today)
    ensures !ValidDob(Some(Date(2008, 2, 29)), Date(2026, 2, 28))
    ensures ValidDob(Some(Date(2008, 2, 29)), Date(2026, 3, 1))
  {
  }

  const Aadhar := "Aadhar"
  const DrivingLicense := "Driving License"
  const Passport := "Passport"

  /** The government ID rule (`validateGovtId`) as its comments and its
      `[A-Z0-9]` classes intend: whitespace removed, then 12 ASCII digits
      for Aadhar, 8 to 20 ASCII letters (either case) or digits for a
      driving licence, 6 to 10 for a passport, and any other type refused. */
  function ValidGovtId(idType: string, number: string): (r: bool)
    ensures r ==> idType == Aadhar || idType == DrivingLicense || idType == Passport
    ensures r ==> AllAsciiAlnum(StripWhitespace(number)) && 6 <= |StripWhitespace(number)| <= 20
  {
    var n := StripWhitespace(number);
    if idType == Aadhar then |n| == 12 && AllDigits(n)
    else if idType == DrivingLicense then 8 <= |n| <= 20 && AllAsciiAlnum(n)
    else if idType == Passport then 6 <= |n| <= 10 && AllAsciiAlnum(n)
    else false
  }

  /** `/^[A-Z0-9]{lo,hi}$/.test(s.toUpperCase())` */
  predicate UpperAlnumBetween(s: string, lo: nat, hi: nat) {
    match UpperAlnumForm(s)
    case None => false
    case Some(u) => lo <= |u| <= hi
  }

  /** `validateGovtId` as written: the letter rules test the upper-cased
      text, whose length and characters can differ from the input's. */
  function ValidGovtIdAsWritten(idType: string, number: string): (r: bool)
    ensures r ==> idType == Aadhar || idType == DrivingLicense || idType == Passport
    ensures idType == Aadhar ==> r == ValidGovtId(idType, number)
  {
    var n := StripWhitespace(number);
    if idType == Aadhar then |n| == 12 && AllDigits(n)
    else if idType == DrivingLicense then UpperAlnumBetween(n, 8, 20)
    else if idType == Passport then UpperAlnumBetween(n, 6, 10)
    else false
  }

  /** Whitespace inserted anywhere in the number, or removed from it, does
      not change either rule's verdict. */
  lemma GovtIdIgnoresWhitespace(idType: string, a: string, w: string, b: string)
    requires AllWhitespace(w)
    ensures ValidGovtId(idType, a + w + b) == ValidGovtId(idType, a + b)
    ensures ValidGovtIdAsWritten(idType, a + w + b) == ValidGovtIdAsWritten(idType, a + b)
  {
    StripIgnoresWhitespace(a, w, b);
  }

  /** Trimming the number first, as the submit handler does, changes nothing. */
  lemma GovtIdIgnoresTrim(idType: string, number: string)
    ensures ValidGovtId(idType, Trim(number)) == ValidGovtId(idType, number)
  {
    StripTrim(number);
  }

  /** Three groups of four digits separated by single spaces form a valid
      Aadhar number. */
  lemma AadharGroups(a: string, b: string, c: string)
    requires |a| == |b| == |c| == 4 && AllDigits(a + b + c)
    ensures ValidGovtId(Aadhar, a + " " + b + " " + c)
  {
    assert NoWhitespace(a + b + c);
    StripIgnoresWhitespace(a + " " + b, " ", c);
    StripIgnoresWhitespace(a, " ", b + c);
    assert a + " " + b + c == a + " " + (b + c);
    assert a + (b + c) == a + b + c;
  }

  /** A character that is neither whitespace nor a digit spoils an Aadhar
      number, wherever it stands. */
  lemma AadharRefusesNonDigit(number: string, k: nat)
    requires k < |number| && !IsWhitespace(number[k]) && !IsDigit(number[k])
    ensures !ValidGovtId(Aadhar, number)
  {
    var a, b := number[..k], number[k + 1..];
    assert number == a + [number[k]] + b;
    StripConcat(a + [number[k]], b);
    StripConcat(a, [number[k]]);
    assert StripWhitespace([number[k]]) == [number[k]];
    assert StripWhitespace(number)[|StripWhitespace(a)|] == number[k];
  }

  /** Only whitespace is removed, so "1234 5678 9012" is accepted ... */
  lemma AadharSpacedAccepted()
    ensures ValidGovtId(Aadhar, "1234 5678 9012")
  {
    var spaced := "1234 5678 9012";
    assert spaced == spaced[..4] + " " + spaced[5..9] + " " + spaced[10..];
    AadharGroups(spaced[..4], spaced[5..9], spaced[10..]);
  }

  /** ... while the dashes of "1234-5678-9012" stay and spoil it. */
  lemma AadharDashedRefused()
    ensures !ValidGovtId(Aadhar, "1234-5678-9012")
  {
    AadharRefusesNonDigit("1234-5678-9012", 4);
  }

  /** On numbers made of ASCII letters and digits the written rule and the
      intended rule agree; everything the intended rule accepts, the
      written one accepts too. */
  lemma AsWrittenAgreesOnAscii(idType: string, number: string)
    requires AllAsciiAlnum(StripWhitespace(number))
    ensures ValidGovtIdAsWritten(idType, number) == ValidGovtId(idType, number)
  {
    UpperAlnumFormAscii(StripWhitespace(number));
  }

  /** Four sharp s characters upper-case to "SSSSSSSS", which passes the
      written driving-licence rule though the number holds no ASCII
      letter; three pass the written passport rule. */
  lemma SharpSCounterexample()
    ensures ValidGovtIdAsWritten(DrivingLicense, "\U{00DF}\U{00DF}\U{00DF}\U{00DF}")
    ensures !ValidGovtId(DrivingLicense, "\U{00DF}\U{00DF}\U{00DF}\U{00DF}")
    ensures ValidGovtIdAsWritten(Passport, "\U{00DF}\U{00DF}\U{00DF}")
    ensures !ValidGovtId(Passport, "\U{00DF}\U{00DF}\U{00DF}")
  {
    var s1 := "\U{00DF}";
    var s2 := "\U{00DF}\U{00DF}";
    var s3 := "\U{00DF}\U{00DF}\U{00DF}";
    var s4 := "\U{00DF}\U{00DF}\U{00DF}\U{00DF}";
    assert s1[1..] == [] && s2[1..] == s1 && s3[1..] == s2 && s4[1..] == s3;
    assert "SS" + [] == "SS" && "SS" + "SS" == "SSSS";
    assert "SS" + "SSSS" == "SSSSSS" && "SS" + "SSSSSS" == "SSSSSSSS";
    assert UpperAlnumForm(s1) == Some("SS");
    assert UpperAlnumForm(s2) == Some("SSSS");
    assert UpperAlnumForm(s3) == Some("SSSSSS");
    assert UpperAlnumForm(s4) == Some("SSSSSSSS");
    assert NoWhitespace(s3) && NoWhitespace(s4);
    assert !IsAsciiAlnum(s4[0]) && !IsAsciiAlnum(s3[0]);
  }

  /** What the user typed and ticked. */
  datatype Form = Form(
    name: string,
    email: string,
    dob: string,
    govtIdType: string,
    govtIdNumber: string,
    confirmRead: bool,
    confirmAgree: bool)

  /** The submit handler's checks, named after the message each failure shows. */
  datatype FormError = NotConfirmed | BadEmail | BadDob | BadGovtId

  /** The position of each check in the handler. */
  function Rank(e: FormError): nat {
    match e
    case NotConfirmed => 0
    case BadEmail => 1
    case BadDob => 2
    case BadGovtId => 3
  }

  /** Whether the check named e passes on the values the handler read. */
  predicate Passes(e: FormError, data: Form, birth: Option<Date>, today: Date) {
    match e
    case NotConfirmed => data.confirmRead && data.confirmAgree
    case BadEmail => ValidEmail(data.email)
    case BadDob => ValidDob(birth, today)
    case BadGovtId => ValidGovtId(data.govtIdType, data.govtIdNumber)
  }

  /** The chain of early returns: the first check that fails, or None when
      all pass. */
  function FirstError(data: Form, birth: Option<Date>, today: Date): (r: Option<FormError>)
    ensures r == None <==> forall e :: Passes(e, data, birth, today)
    ensures r.Some? ==> !Passes(r.value, data, birth, today)
    ensures r.Some? ==> forall e :: Rank(e) < Rank(r.value) ==> Passes(e, data, birth, today)
  {
    if !(data.confirmRead && data.confirmAgree) then
      assert !Passes(NotConfirmed, data, birth, today);
      Some(NotConfirmed)
    else if !ValidEmail(data.email) then
      assert !Passes(BadEmail, data, birth, today);
      Some(BadEmail)
    else if !ValidDob(birth, today) then
      assert !Passes(BadDob, data, birth, today);
      Some(BadDob)
    else if !ValidGovtId(data.govtIdType, data.govtIdNumber) then
      assert !Passes(BadGovtId, data, birth, today);
      Some(BadGovtId)
    else None
  }

  /** What the handler sends, or the check that stopped it. */
  datatype Outcome = Blocked(error: FormError) | Sent(body: AckServer.Request)

  /** The values the handler reads: name, e-mail and ID number trimmed. */
  function ReadForm(f: Form): Form {
    f.(name := Trim(f.name), email := Trim(f.email), govtIdNumber := Trim(f.govtIdNumber))
  }

  /** The submit handler. `parse` is the browser's `new Date(dob)`, reduced
      to the calendar day, None for an invalid date. A request is sent
      exactly when every check passes, and it carries the values read. */
  function Submit(f: Form, parse: string -> Option<Date>, today: Date): (r: Outcome)
    ensures r.Sent? <==>
              f.confirmRead && f.confirmAgree && ValidEmail(Trim(f.email))
              && ValidDob(parse(f.dob), today) && ValidGovtId(f.govtIdType, f.govtIdNumber)
    ensures r.Sent? ==>
              r.body == AckServer.Request(Some(Trim(f.name)), Some(Trim(f.email)), Some(f.dob),
                                          Some(f.govtIdType), Some(Trim(f.govtIdNumber)))
    ensures r.Blocked? ==> Some(r.error) == FirstError(ReadForm(f), parse(f.dob), today)
  {
    GovtIdIgnoresTrim(f.govtIdType, f.govtIdNumber);
    var data := ReadForm(f);
    match FirstError(data, parse(data.dob), today)
    case Some(e) => Blocked(e)
    case None =>
      Sent(AckServer.Request(Some(data.name), Some(data.email), Some(data.dob),
                             Some(data.govtIdType), Some(data.govtIdNumber)))
  }

  /** A request the form lets through passes the server's own checks
      exactly when the trimmed name is non-empty: the form never tests the
      name, and its e-mail test is the server's. */
  lemma SentRequestPassesServer(f: Form, parse: string -> Option<Date>, today: Date)
    requires parse("") == None
    requires Submit(f, parse, today).Sent?
    ensures AckServer.Validate(Submit(f, parse, today).body) == None <==> Trim(f.name) != ""
  {
  }
}
