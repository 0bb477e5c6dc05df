# House-rules acknowledgment: a verified model

A guest fills in a web form (name, e-mail, date of birth, government ID type
and number, two confirmation boxes). The browser checks the form, then posts
it to the server. The server checks that every field is present and that the
e-mail has the right shape. It then inserts one row into the
`acknowledgments` table, which allows one row per e-mail address and numbers
rows from a SERIAL sequence. Two more endpoints read the table: a
check-email lookup and an admin listing, newest first.

The model has five modules:

- `Wrappers`: `Option`.
- `JsText`: the JavaScript string primitives the code relies on. These are
  the `\s` and `\d` classes, `trim`, `replace(/\s/g, '')`, and the part of
  `toUpperCase` that can yield ASCII capitals and digits.
- `Email`: the e-mail regular expression `^[^\s@]+@[^\s@]+\.[^\s@]+$`. The
  form and the server share it.
- `AckServer`: the `POST /api/acknowledge` handler and the table.
  - `Accept` is a pure step function on a `Table` value. It holds the rows
    and the next value of the sequence.
  - The class `AcknowledgmentTable` keeps the same state in fields. Its
    `Acknowledge` method is proved to do exactly what `Accept` says.
  - `CheckEmail` and `ListAll` are read-only methods with loops.
- `FormValidation`: the browser's validators and its submit handler. The
  handler is modelled as a pure first-error function plus the request it
  sends.

Clocks and parsers are parameters:

- `now` is the database's `CURRENT_TIMESTAMP`.
- `today` is the browser's current day.
- `parse` is the browser's reading of the date field.
- `storeUp` is whether the database accepts the insert at all.

## Model

| member | source | states |
|---|---|---|
| `JsText.StripWhitespace` | public/script.js:127 | the result has no whitespace, is no longer than the input, and is the input itself when that had none |
| `JsText.StripIgnoresWhitespace` | public/script.js:127 | inserting or removing a run of whitespace anywhere leaves the stripped text unchanged |
| `JsText.Trim` | public/script.js:31-35 | the trimmed text neither starts nor ends with whitespace and is no longer than the input |
| `JsText.TrimShape` | public/script.js:31-35 | the input is whitespace, then the trimmed text, then whitespace |
| `JsText.TrimUntrimmed` | public/script.js:31-35 | a text without leading or trailing whitespace is unchanged by trim |
| `JsText.StripTrim` | public/script.js:35 | trimming before removing all whitespace changes nothing |
| `JsText.UpperAlnumOf` | public/script.js:136 | the upper-case form of a character, when it is made of ASCII capitals and digits, has one to three characters; an ASCII letter or digit maps to one character, and a capital or digit to itself |
| `JsText.UpperAlnumForm` | public/script.js:136 | the upper-cased text exists exactly when every character upper-cases to ASCII capitals and digits; it is all `[A-Z0-9]` and at least as long as the input |
| `JsText.UpperAlnumFormAscii` | public/script.js:136-140 | ASCII letters and digits upper-case one character for one |
| `Email.ValidEmail` | public/script.js:108-111 | an accepted address has at least five characters |
| `Email.ValidEmailMatchesPattern` | public/script.js:109 | ValidEmail accepts exactly the strings the regular expression matches: a plain run, '@', a plain run, '.', a plain run, where plain means no whitespace and no '@' |
| `Email.ValidEmailSound` | public/script.js:109 | every accepted address matches the regular expression |
| `Email.ValidEmailComplete` | public/script.js:109 | every matching string is accepted |
| `Email.ValidEmailSplit` | server.js:64-65 | accepted iff the address is L + "@" + R: L non-empty, L and R without whitespace or '@', and R holds a '.' that is neither its first nor its last character |
| `Email.ValidEmailRejectsWhitespace` | public/script.js:109 | an address with whitespace at any position, the last included, is refused |
| `Email.ValidEmailRejectsTwoAts` | public/script.js:109 | an address with two '@' is refused |
| `AckServer.Validate` | server.js:59-67 | a request with any field missing or empty gets 400 "All fields are required", whatever its e-mail; otherwise a malformed e-mail gets 400 "Invalid email format"; otherwise it passes |
| `AckServer.Truncate` | server.js:28-32 | a VARCHAR(n) column stores a value of at most n characters unchanged and a longer one as its first n characters; for a value that fits, everything cut off is spaces |
| `AckServer.RowFor` | server.js:72-85 | the row carries the sequence's id, the name, e-mail, ID type and ID number each cut to its column width, the dob as submitted and the timestamp; a valid address that fits is stored unchanged |
| `AckServer.ValidEmailUncut` | server.js:29 | a valid address that fits the email column is never cut |
| `AckServer.Accept` | server.js:55-99 | the step keeps the table invariant (unique e-mails, increasing positive ids below the sequence). A row is recorded iff the request is valid, the store is up, the values fit the columns (any excess of a text value is spaces only), the sequence has not passed 2147483647 and the e-mail is new. Then exactly one row holding the submitted fields (text cut to the column widths) is appended, with the sequence's next id, which exceeds every existing id, and that id is returned. Every other answer leaves the rows unchanged. A 400 leaves the sequence unchanged too, and so does the 500 "Failed to record acknowledgment" answered when the store is down, a value does not fit or the sequence is exhausted. 409 is answered iff the e-mail is already present, and it consumes one sequence value |
| `AckServer.ExcessSpacesCut` | server.js:28 | a name over 255 characters whose excess is only spaces is recorded, cut to 255, not refused |
| `AckServer.AcknowledgeTwice` | server.js:93-94 | after an address is recorded, check-email finds it, and submitting it again leaves the rows unchanged and, while the sequence lasts, gets status 409 |
| `AckServer.NoAgeOrIdCheck` | server.js:56-85 | the handler records any non-empty dob and government ID text (within the column widths) exactly as given; it checks neither age nor ID format |
| `AckServer.NewestFirst` | server.js:104-107 | the listing holds every row, the last inserted first |
| `AckServer.NewestFirstIsOrdered` | server.js:105 | the listing's ids strictly descend, and when timestamps never went back it is ordered by acknowledged_at descending |
| `AckServer.AcceptKeepsClockOrder` | server.js:33 | a submission stamped no earlier than every row keeps the rows in timestamp order |
| `AckServer.AcknowledgmentTable.constructor` | server.js:26-36 | a new table is empty, satisfies the invariant and its sequence starts at 1 |
| `AckServer.AcknowledgmentTable.Acknowledge` | server.js:55-99 | keeps the invariant and leaves the table and answer that `Accept` prescribes |
| `AckServer.AcknowledgmentTable.CheckEmail` | server.js:115-126 | reports true iff some row's e-mail equals the query exactly |
| `AckServer.AcknowledgmentTable.ListAll` | server.js:102-112 | returns every row newest first, with strictly descending ids |
| `FormValidation.AgeOn` | public/script.js:116-121 | the computed age is the number of birthdays reached: that birthday is on or before today and the next one is not |
| `FormValidation.ValidDob` | public/script.js:113-124 | accepted iff the date parses and its 18th birthday is on or before today; an accepted birth is strictly before today |
| `FormValidation.EighteenthBirthdayBoundary` | public/script.js:113-124 | born exactly 18 years before today is accepted; a birthday later in that year is refused; born 29 February 2008, refused on 28 February 2026 and accepted on 1 March 2026 |
| `FormValidation.ValidGovtId` | public/script.js:126-145 | intended rule. An accepted type is Aadhar, "Driving License" or Passport, and every other type is refused. The stripped number is made of ASCII letters and digits and has 6 to 20 of them |
| `FormValidation.ValidGovtIdAsWritten` | public/script.js:126-145 | the rule as written accepts only the three types and agrees with the intended rule for Aadhar |
| `FormValidation.GovtIdIgnoresWhitespace` | public/script.js:127 | both rules give the same verdict with whitespace inserted into the number or removed from it |
| `FormValidation.GovtIdIgnoresTrim` | public/script.js:35 | trimming the number first does not change the verdict |
| `FormValidation.AadharGroups` | public/script.js:130-132 | three groups of four digits separated by spaces form a valid Aadhar number |
| `FormValidation.AadharRefusesNonDigit` | public/script.js:130-132 | any character that is neither whitespace nor a digit spoils an Aadhar number |
| `FormValidation.AadharSpacedAccepted` | public/script.js:130-132 | "1234 5678 9012" is a valid Aadhar number |
| `FormValidation.AadharDashedRefused` | public/script.js:130-132 | "1234-5678-9012" is refused as an Aadhar number |
| `FormValidation.AsWrittenAgreesOnAscii` | public/script.js:134-140 | on numbers of ASCII letters and digits, of either case, the written and intended rules agree |
| `FormValidation.SharpSCounterexample` | public/script.js:136 | "ßßßß" passes the written driving-licence rule but not the intended one; "ßßß" does the same for the passport rule |
| `FormValidation.FirstError` | public/script.js:42-63 | no error iff every check passes; otherwise the reported check fails and every check before it in the order confirmations, e-mail, date of birth, ID passes |
| `FormValidation.Submit` | public/script.js:23-77 | a request is sent iff both boxes are ticked, the trimmed e-mail is valid, the date of birth is accepted and the ID is valid. The request carries the trimmed name, e-mail and ID number, and the dob and type as entered. A blocked submission reports the first failing check of FirstError on the values read |
| `FormValidation.SentRequestPassesServer` | public/script.js:70-77 | a request the form sends passes the server's checks iff the trimmed name is non-empty (the form never checks the name) |

## Left out

- Express setup, CORS, body parsing, static files, the `/` route and `app.listen` (server.js:1-21, 50-52, 128-130) are framework plumbing.
- The `pg` pool, its SSL setting and the execution of the DDL in `initDB` (server.js:12-15, 24-47) are foreign I/O. Only the table's meaning is kept: unique e-mail, sequence ids and column widths.
- The `ip_address` column and the client-address extraction (server.js:69) are only stored and never read; rows leave them out.
- Database failures and error logging (server.js:95-97, 109-110, 123-124). A failed insert is the `storeUp = false` path: 500 with the rows unchanged. The listing and check-email have no failure path in the model.
- The dob is stored as the submitted text. PostgreSQL's parsing of that text as a DATE is not modelled; a refusal is one of the `storeUp = false` cases.
- AckServer.Accept: the counter is left unchanged on a 500. Whether PostgreSQL consumes a sequence value on an insert failure other than a unique violation is not modelled. On a unique violation it does, and the model advances the counter.
- The SERIAL column's sequence is an int4 sequence: past 2147483647 every insert fails with 500, as modelled. The order in which PostgreSQL reports a too-wide value, an exhausted sequence and an unreachable store is not modelled; all three are 500 with the rows unchanged.
- Request fields are strings or absent. Non-string JSON values, such as numbers, booleans or objects, are not modelled.
- `ORDER BY acknowledged_at DESC` is modelled as newest insertion first. The order among equal timestamps is left to the database in the source; `NewestFirstIsOrdered` states when the two orders agree.
- Concurrent inserts: `Acknowledge` is one atomic step, as the UNIQUE(email) constraint serialises them.
- DOM wiring, `fetch`, messages, button state, scrolling and the e-mail lookup on blur (public/script.js:1-21, 65-106) are UI and network.
- JavaScript `Date` (public/script.js:114-115) is not modelled:
  - its parsing is the `parse` parameter;
  - time zones and the time of day are not modelled;
  - the UTC reading of `yyyy-mm-dd` against local `getFullYear` can shift a birth date by one day west of UTC, and that shift is not modelled.
- The `dobInput.max` computation (public/script.js:148-151) is not modelled. It only limits what the date picker offers.
- JavaScript strings are UTF-16 code units. The model's characters are Unicode scalar values. For the classes used here (whitespace, '@', '.', ASCII digits and capitals) the verdicts are the same.
- JsText.UpperAlnumForm: models `toUpperCase` only as far as the `[A-Z0-9]` tests can observe. It gives the upper-case form when that form is all ASCII capitals and digits, and None otherwise.
- This version of the app has no booking dates, overlap check, cancellation or ID/DOB correction. The ID type string is "Driving License" with a space, and only whitespace is stripped from the number.
- FormValidation.FirstError: checks the ID with the corrected rule `ValidGovtId` (see Findings), so it reports `BadGovtId` for the non-ASCII numbers the code as written lets through, such as driving licence "ßßßß". On numbers of ASCII letters and digits it agrees with the code (`AsWrittenAgreesOnAscii`).
- FormValidation.Submit: through FirstError, blocks the same non-ASCII ID numbers that the code as written sends to the server.

## Findings

| source | as written | input that shows it | evidently intended | confidence | as-written member | corrected member |
|---|---|---|---|---|---|---|
| public/script.js:136-140 | the letter rules test `number.toUpperCase()` against `[A-Z0-9]{8,20}` and `[A-Z0-9]{6,10}`. `toUpperCase` turns some non-ASCII characters into ASCII capitals, and sometimes into two or three of them: ß becomes SS, ı becomes I, ſ becomes S, and the ligatures ﬀ to ﬆ become FF to ST | driving licence "ßßßß" (four characters) upper-cases to "SSSSSSSS" and is accepted; passport "ßßß" is accepted too | the number itself is 8 to 20 (or 6 to 10) ASCII letters, of either case, or digits | medium, not executed | `FormValidation.ValidGovtIdAsWritten`, shown by `FormValidation.SharpSCounterexample` | `FormValidation.ValidGovtId`, with `FormValidation.AsWrittenAgreesOnAscii`; `FirstError` and `Submit` use it |
