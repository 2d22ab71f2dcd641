/**
 * POST /api/reserve and GET /api/reserve/:id.
 *
 * The POST handler is an ordered chain of checks (required fields, email
 * shape, book lookup, the `available` flag) followed by a fixed sequence of
 * effects on the store: ledger append, copy decrement, email attempt.
 * `Screen` is the chain as a function; `Reserve` runs it against the store.
 */
module ReserveRoute {
  import opened Wrappers
  import opened Text
  import opened DataService

  /** The request body; each field may be absent. */
  datatype ReserveRequest = ReserveRequest(
    bookId: Option<string>,
    studentId: Option<string>,
    studentName: Option<string>,
    studentEmail: Option<string>)

  /**
   * The clock readings the handler takes: `Date.now()` for the id, and the
   * three `toISOString()` calls (the built record, the ledger's own stamp,
   * the reply's `reservationDate`).
   */
  datatype Clock = Clock(nowMillis: nat, builtAt: string, loggedAt: string, repliedAt: string)

  datatype EmailStatus = Sent | Failed

  /** The `details` object of a successful reply. */
  datatype Details = Details(
    bookId: string,
    bookTitle: string,
    author: string,
    location: string,
    studentId: string,
    studentName: string,
    studentEmail: string,
    reservationDate: string,
    emailStatus: EmailStatus,
    pickupNote: string)

  /** The reply: `Ok` is HTTP 200 with `success: true`, the others carry `success: false`. */
  datatype ReserveResponse =
    | Ok(reservationId: string, message: string, details: Details)
    | BadRequest(error: string)
    | NotFound(error: string)

  /** Why the chain stopped. */
  datatype Rejection = MissingFields | InvalidEmail | BookNotFound | NoCopies

  /** The outcome of the checks: the book to reserve, or the first check that failed. */
  datatype Screening = Accepted(book: Book) | Rejected(reason: Rejection)

  const StatusReserved := "reserved"
  const PickupNote := "Please pick up within 3 days at the library front desk"

  predicate AllProvided(req: ReserveRequest) {
    Provided(req.bookId) && Provided(req.studentId) && Provided(req.studentName) && Provided(req.studentEmail)
  }

  /** The email test: it must include an `@` and a `.`, anywhere. */
  predicate EmailShapeOk(email: string) {
    Includes(email, "@") && Includes(email, ".")
  }

  /** `book.available <= 0`: false when the field is absent (`undefined <= 0`). */
  predicate MarkedUnavailable(book: Book) {
    book.available.Some? && book.available.value <= 0
  }

  /** The validation chain, in the order the handler runs it. */
  function Screen(req: ReserveRequest, books: seq<Book>): (s: Screening)
    ensures s.Accepted? ==> AllProvided(req) && s.book in books && s.book.bookId == req.bookId.value
  {
    if !AllProvided(req) then Rejected(MissingFields)
    else if !EmailShapeOk(req.studentEmail.value) then Rejected(InvalidEmail)
    else match FindById(books, req.bookId.value)
      case None => Rejected(BookNotFound)
      case Some(book) => if MarkedUnavailable(book) then Rejected(NoCopies) else Accepted(book)
  }

  /** The reply for the first failed check: 404 for an unknown book, 400 for the others. */
  function ErrorResponse(reason: Rejection): (r: ReserveResponse)
    ensures !r.Ok?
    ensures r.NotFound? <==> reason == BookNotFound
  {
    match reason
    case MissingFields => BadRequest("bookId, studentId, studentName, and studentEmail are required")
    case InvalidEmail => BadRequest("Invalid email format")
    case BookNotFound => NotFound("Book not found")
    case NoCopies => BadRequest("No copies available")
  }

  /** `RES-${Date.now()}`. */
  function ReservationId(clock: Clock): (r: string)
    ensures |r| > 4 && r[..4] == "RES-"
    ensures AllDigits(r[4..]) && DecimalToNat(r[4..]) == clock.nowMillis
    ensures |r| > 5 ==> r[4] != '0'
  {
    DecimalRoundTrip(clock.nowMillis);
    assert ("RES-" + NatToDecimal(clock.nowMillis))[4..] == NatToDecimal(clock.nowMillis);
    "RES-" + NatToDecimal(clock.nowMillis)
  }

  /** The record the handler builds and hands to logReservation. */
  function ReservationFor(req: ReserveRequest, book: Book, clock: Clock): (r: Reservation)
    requires AllProvided(req)
    ensures r.reservationId == ReservationId(clock) && r.status == StatusReserved && r.title == book.title
    ensures r.bookId == req.bookId.value && r.studentId == req.studentId.value
    ensures r.studentName == req.studentName.value && r.studentEmail == req.studentEmail.value
  {
    Reservation(ReservationId(clock), req.bookId.value, book.title, req.studentId.value,
                req.studentName.value, req.studentEmail.value, clock.builtAt, StatusReserved)
  }

  /** The success reply. */
  function Confirmation(req: ReserveRequest, book: Book, clock: Clock, email: EmailStatus): (r: ReserveResponse)
    requires AllProvided(req)
    ensures r.Ok? && r.details.emailStatus == email && r.details.pickupNote == PickupNote
    ensures var entry := ReservationFor(req, book, clock);
      && r.reservationId == entry.reservationId
      && r.details.bookId == entry.bookId && r.details.bookTitle == entry.title
      && r.details.studentId == entry.studentId && r.details.studentName == entry.studentName
      && r.details.studentEmail == entry.studentEmail
  {
    Ok(ReservationId(clock),
       "Successfully reserved \"" + book.title + "\"",
       Details(req.bookId.value, book.title, book.author, book.location, req.studentId.value,
               req.studentName.value, req.studentEmail.value, clock.repliedAt, email, PickupNote))
  }

  /**
   * The success path of POST /, once the checks have passed: append to the
   * ledger, then decrement (its result ignored), then attempt the email,
   * whose outcome `emailDelivered` only sets `emailStatus`.
   */
  method Confirm(store: Store, req: ReserveRequest, book: Book, clock: Clock, emailDelivered: bool)
    returns (resp: ReserveResponse)
    requires store.Valid() && AllProvided(req)
    modifies store, store.catalog
    ensures store.Valid()
    ensures resp == Confirmation(req, book, clock, if emailDelivered then Sent else Failed)
    ensures store.reservations == old(store.reservations) + [ReservationFor(req, book, clock).(timestamp := clock.loggedAt)]
    ensures store.catalog[..] == AfterDecrement(old(store.catalog[..]), req.bookId.value)
    ensures store.effects == old(store.effects) +
      [LedgerAppend(ReservationId(clock)),
       CopyDecrement(req.bookId.value, CanDecrement(old(store.catalog[..]), req.bookId.value))]
  {
    var bookId, studentId, studentName, studentEmail :=
      req.bookId.value, req.studentId.value, req.studentName.value, req.studentEmail.value;
    var reservationId := "RES-" + NatToDecimal(clock.nowMillis);
    var reservation := Reservation(reservationId, bookId, book.title, studentId, studentName, studentEmail,
                                   clock.builtAt, StatusReserved);

    var _ := store.LogReservation(reservation, clock.loggedAt);
    var _ := store.DecrementCopy(bookId);

    var emailStatus := Sent;
    if !emailDelivered {
      emailStatus := Failed;
    }

    resp := Ok(reservationId,
               "Successfully reserved \"" + book.title + "\"",
               Details(bookId, book.title, book.author, book.location, studentId, studentName, studentEmail,
                       clock.repliedAt, emailStatus, PickupNote));
  }

  /**
   * POST /: run the checks in order, returning the first failure's reply;
   * a request that passes them all goes on to `Confirm`.
   */
  method Reserve(store: Store, req: ReserveRequest, clock: Clock, emailDelivered: bool) returns (resp: ReserveResponse)
    requires store.Valid()
    modifies store, store.catalog
    ensures store.Valid()
    ensures resp.Ok? <==> Screen(req, old(store.catalog[..])).Accepted?
    ensures match Screen(req, old(store.catalog[..]))
      case Rejected(reason) =>
        && resp == ErrorResponse(reason)
        && store.catalog[..] == old(store.catalog[..])
        && store.reservations == old(store.reservations)
        && store.effects == old(store.effects)
      case Accepted(book) =>
        && resp == Confirmation(req, book, clock, if emailDelivered then Sent else Failed)
        && store.reservations == old(store.reservations) + [ReservationFor(req, book, clock).(timestamp := clock.loggedAt)]
        && store.catalog[..] == AfterDecrement(old(store.catalog[..]), req.bookId.value)
        && store.effects == old(store.effects) +
             [LedgerAppend(ReservationId(clock)),
              CopyDecrement(req.bookId.value, CanDecrement(old(store.catalog[..]), req.bookId.value))]
  {
    if !Provided(req.bookId) || !Provided(req.studentId) || !Provided(req.studentName) || !Provided(req.studentEmail) {
      return BadRequest("bookId, studentId, studentName, and studentEmail are required");
    }
    var bookId, studentEmail := req.bookId.value, req.studentEmail.value;

    if !Includes(studentEmail, "@") || !Includes(studentEmail, ".") {
      return BadRequest("Invalid email format");
    }

    var books := store.ReadBooks();
    var found := FindById(books[..], bookId);
    if found.None? {
      return NotFound("Book not found");
    }
    var book := found.value;

    if book.available.Some? && book.available.value <= 0 {
      return BadRequest("No copies available");
    }

    resp := Confirm(store, req, book, clock, emailDelivered);
  }

  /** The reply of GET /:id. */
  datatype LookupResponse = LookupResponse(success: bool, reservationId: string, status: string, message: string)

  /** GET /:id: echoes the id as a reserved reservation, without consulting the ledger. */
  method GetReservation(store: Store, id: string) returns (r: LookupResponse)
    ensures r.success && r.reservationId == id && r.status == StatusReserved
  {
    r := LookupResponse(true, id, StatusReserved, "Reservation details would be fetched from database");
  }

  // ---------------------------------------------------------------------
  // Properties of the chain

  /** A missing or empty field is rejected first, and only then. */
  lemma MissingFieldsFirst(req: ReserveRequest, books: seq<Book>)
    ensures Screen(req, books) == Rejected(MissingFields) <==>
      req.bookId.None? || req.bookId.value == "" || req.studentId.None? || req.studentId.value == "" ||
      req.studentName.None? || req.studentName.value == "" || req.studentEmail.None? || req.studentEmail.value == ""
  {
  }

  /** The email check runs after the presence check and rejects an address lacking `@` or `.`. */
  lemma EmailCheckedSecond(req: ReserveRequest, books: seq<Book>)
    ensures Screen(req, books) == Rejected(InvalidEmail) <==>
      AllProvided(req) && !('@' in req.studentEmail.value && '.' in req.studentEmail.value)
  {
    if AllProvided(req) {
      IncludesChar(req.studentEmail.value, '@');
      IncludesChar(req.studentEmail.value, '.');
    }
  }

  /** An unknown id is rejected with NotFound once the fields and email pass. */
  lemma UnknownBookThird(req: ReserveRequest, books: seq<Book>)
    ensures Screen(req, books) == Rejected(BookNotFound) <==>
      AllProvided(req) && EmailShapeOk(req.studentEmail.value) &&
      forall b :: b in books ==> b.bookId != req.bookId.value
  {
  }

  /** Only a record's `available` field can stop a reservation; its copy count never does. */
  lemma OnlyAvailableFieldBlocks(req: ReserveRequest, books: seq<Book>)
    ensures Screen(req, books) == Rejected(NoCopies) <==>
      AllProvided(req) && EmailShapeOk(req.studentEmail.value) &&
      FindById(books, req.bookId.value).Some? && MarkedUnavailable(FindById(books, req.bookId.value).value)
    ensures LacksAvailableField(books) ==> Screen(req, books) != Rejected(NoCopies)
  {
    if LacksAvailableField(books) && AllProvided(req) && FindById(books, req.bookId.value).Some? {
      var b := FindById(books, req.bookId.value).value;
      var i :| 0 <= i < |books| && books[i] == b;
    }
  }

  /** An accepted request names a known book and a well-shaped email: the chain's checks all held. */
  lemma AcceptedMeansChecked(req: ReserveRequest, books: seq<Book>)
    requires Screen(req, books).Accepted?
    ensures var email := req.studentEmail.value;
      && AllProvided(req) && '@' in email && '.' in email
      && FindById(books, req.bookId.value) == Some(Screen(req, books).book)
      && !MarkedUnavailable(Screen(req, books).book)
  {
    IncludesChar(req.studentEmail.value, '@');
    IncludesChar(req.studentEmail.value, '.');
  }

  /**
   * Decrements never change whether a request is accepted: a request that
   * passes the chain keeps passing after any number of reservations, even
   * once the record has no copies left.
   */
  lemma AcceptanceIgnoresStock(req: ReserveRequest, books: seq<Book>, id: string)
    ensures Screen(req, AfterDecrement(books, id)).Accepted? == Screen(req, books).Accepted?
  {
    var r := AfterDecrement(books, id);
    DecrementKeepsInvariants(books, id);
    if AllProvided(req) {
      var key := req.bookId.value;
      DecrementKeepsIndex(books, id, key);
      var idx := IndexOfId(books, key);
      if idx.Some? {
        assert FindById(r, key) == Some(r[idx.value]) && FindById(books, key) == Some(books[idx.value]);
        assert r[idx.value].available == books[idx.value].available;
      }
    }
  }

  /** A reservation of a record with no copies left is accepted, and its decrement changes nothing. */
  lemma ZeroCopiesStillAccepted(req: ReserveRequest, books: seq<Book>)
    requires LacksAvailableField(books) && AllProvided(req) && EmailShapeOk(req.studentEmail.value)
    requires FindById(books, req.bookId.value).Some?
    requires FindById(books, req.bookId.value).value.copiesAvailable <= 0
    ensures Screen(req, books).Accepted?
    ensures !CanDecrement(books, req.bookId.value)
    ensures AfterDecrement(books, req.bookId.value) == books
  {
    OnlyAvailableFieldBlocks(req, books);
  }

  /**
   * Two requests in a row for a record with one copy left: both are
   * accepted; the first takes the copy, the second's decrement is refused
   * and leaves the count at zero.
   */
  lemma LastCopyReservedTwice(req: ReserveRequest, books: seq<Book>)
    requires Screen(req, books).Accepted?
    requires Screen(req, books).book.copiesAvailable == 1
    ensures var id := req.bookId.value;
      var after1 := AfterDecrement(books, id);
      && CanDecrement(books, id)
      && Screen(req, after1).Accepted?
      && !CanDecrement(after1, id)
      && AfterDecrement(after1, id) == after1
      && after1[IndexOfId(books, id).value].copiesAvailable == 0
  {
    var id := req.bookId.value;
    AcceptanceIgnoresStock(req, books, id);
    DecrementLowersByOne(books, id);
    DecrementKeepsIndex(books, id, id);
  }

  /** Reservations stamped in different milliseconds get different ids; the same millisecond gives the same id. */
  lemma ReservationIdsFollowClock(c1: Clock, c2: Clock)
    ensures ReservationId(c1) == ReservationId(c2) <==> c1.nowMillis == c2.nowMillis
  {
    if ReservationId(c1) == ReservationId(c2) {
      assert ReservationId(c1)[4..] == NatToDecimal(c1.nowMillis);
      assert ReservationId(c2)[4..] == NatToDecimal(c2.nowMillis);
      DecimalInjective(c1.nowMillis, c2.nowMillis);
    }
  }
}
