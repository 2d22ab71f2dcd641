/**
 * The intent flags of the chat reply: keyword detection on the message,
 * the student-info completeness test, and the reply object built from them.
 * The message, the student, the assistant's reply text, the department and
 * the clock reading are parameters.
 */
module ChatRoute {
  import opened Wrappers
  import opened Text

  const ReservationKeywords: seq<string> := ["reserve", "borrow", "check out", "book me", "i want to reserve"]

  /** The `student` object of the request body; each field may be absent. */
  datatype Student = Student(studentId: Option<string>, name: Option<string>, email: Option<string>)

  datatype ActionType = Reservation | Information

  datatype ChatResponse = ChatResponse(
    success: bool,
    reply: string,
    department: string,
    timestamp: string,
    reservationIntent: bool,
    requiresStudentInfo: bool,
    requiresAction: bool,
    actionType: ActionType,
    student: Option<Student>)

  /** `keywords.some(k => text.includes(k))`. */
  function SomeKeywordIn(text: string, keywords: seq<string>): (r: bool)
    ensures r <==> exists k :: k in keywords && Includes(text, k)
  {
    if keywords == [] then false
    else if Includes(text, keywords[0]) then
      assert keywords[0] in keywords;
      true
    else
      assert forall k :: k in keywords <==> k == keywords[0] || k in keywords[1..];
      SomeKeywordIn(text, keywords[1..])
  }

  /** The reservation-intent test on the lowered message. */
  function ShouldReserve(message: string): (r: bool)
    ensures r <==> exists k :: k in ReservationKeywords && Includes(Lower(message), k)
    ensures Includes(Lower(message), "reserve") ==> r
  {
    assert ReservationKeywords[0] == "reserve";
    SomeKeywordIn(Lower(message), ReservationKeywords)
  }

  /** The completeness test: a student with an id, a name and an email that includes `@`. */
  function HasCompleteStudentInfo(student: Option<Student>): (r: bool)
    ensures r <==> (student.Some? && Provided(student.value.studentId) && Provided(student.value.name) &&
      Provided(student.value.email) && '@' in student.value.email.value)
  {
    var complete :=
      && student.Some?
      && Provided(student.value.studentId)
      && Provided(student.value.name)
      && Provided(student.value.email)
      && Includes(student.value.email.value, "@");
    if student.Some? && student.value.email.Some? then
      IncludesChar(student.value.email.value, '@');
      complete
    else
      complete
  }

  /** The reply object; `student` is copied in exactly when one was supplied. */
  function BuildResponse(message: string, student: Option<Student>, aiReply: string, department: string, now: string): (r: ChatResponse)
    ensures r.success && r.reply == aiReply && r.department == department && r.timestamp == now
    ensures r.reservationIntent == ShouldReserve(message)
    ensures r.requiresStudentInfo == !HasCompleteStudentInfo(student)
    ensures r.requiresAction <==> r.reservationIntent && !r.requiresStudentInfo
    ensures r.actionType == Reservation <==> r.reservationIntent
    ensures r.student == student
  {
    var shouldReserve := ShouldReserve(message);
    var complete := HasCompleteStudentInfo(student);
    ChatResponse(true, aiReply, department, now, shouldReserve, !complete, shouldReserve && complete,
                 if shouldReserve then Reservation else Information, student)
  }

  // ---------------------------------------------------------------------
  // Properties of the intent test

  /** `"i want to reserve"` contains `"reserve"`, so the last keyword never changes the outcome. */
  lemma LastKeywordRedundant(message: string)
    ensures ShouldReserve(message) == SomeKeywordIn(Lower(message), ReservationKeywords[..4])
  {
    var text := Lower(message);
    if Includes(text, "i want to reserve") {
      assert "i want to reserve"[10..17] == "reserve";
      assert OccursAt("i want to reserve", "reserve", 10);
      IncludesThrough(text, "i want to reserve", "reserve", 10);
      assert ReservationKeywords[..4][0] == "reserve";
    }
    assert ReservationKeywords == ReservationKeywords[..4] + ["i want to reserve"];
  }

  /** The test reads the message only through its lowered form. */
  lemma ShouldReserveIgnoresCase(message: string)
    ensures ShouldReserve(Lower(message)) == ShouldReserve(message)
  {
    LowerIdempotent(message);
  }

  /** Every keyword is already lower-case. */
  lemma KeywordsAreLowercase()
    ensures forall k :: k in ReservationKeywords ==> Lower(k) == k
  {
    forall k | k in ReservationKeywords ensures Lower(k) == k {
      LowerKeepsLowercase(k);
    }
  }

  /** A keyword written in any mix of cases inside the message is detected. */
  lemma KeywordInAnyCaseDetected(message: string, written: string)
    requires Lower(written) in ReservationKeywords
    requires Includes(message, written)
    ensures ShouldReserve(message)
  {
    var i :| OccursAt(message, written, i);
    OccursAtLower(message, written, i);
    assert Includes(Lower(message), Lower(written));
  }

  /** Consequences for the flags: an action needs both the intent and complete student info. */
  lemma ActionNeedsIntentAndStudent(message: string, student: Option<Student>, aiReply: string, department: string, now: string)
    ensures var r := BuildResponse(message, student, aiReply, department, now);
      && (r.requiresAction ==> r.reservationIntent && !r.requiresStudentInfo)
      && (student.None? ==> r.requiresStudentInfo && !r.requiresAction)
  {
  }

  /** "I want to reserve Programming in C" contains the keyword "reserve". */
  lemma ScenarioMentionsKeyword(message: string)
    requires message == "I want to reserve Programming in C"
    ensures Includes(message, "reserve")
  {
    assert message == "I want to " + "reserve" + " Programming in C";
    OccursBetween("I want to ", "reserve", " Programming in C");
  }

  /** "I want to reserve Programming in C" shows reservation intent. */
  lemma ScenarioMessageShowsIntent(message: string)
    requires message == "I want to reserve Programming in C"
    ensures ShouldReserve(message)
  {
    ScenarioMentionsKeyword(message);
    LowerKeepsLowercase("reserve");
    assert ReservationKeywords[0] == "reserve";
    KeywordInAnyCaseDetected(message, "reserve");
  }

  /** The same message without a student: student info required, no action. */
  lemma ReserveWithoutStudentScenario(message: string, aiReply: string, department: string, now: string)
    requires message == "I want to reserve Programming in C"
    ensures var r := BuildResponse(message, None, aiReply, department, now);
      r.reservationIntent && r.requiresStudentInfo && !r.requiresAction && r.actionType == Reservation
  {
    ScenarioMessageShowsIntent(message);
  }
}
