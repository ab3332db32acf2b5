/**
 * ExceptionMapper: how a failure that escapes a resource method becomes an
 * HTTP status and a JSON-looking error body.  The framework picks the
 * mapper of the most specific exception type, so a RuntimeException that
 * wraps another failure, a storage fault and a NonUniqueResultException all
 * fall to the generic 500 handler.
 */
module ExceptionMapper {
  import opened Wrappers
  import opened Failures
  import opened Text

  /** A status code and the body sent with it. */
  datatype Response = Response(status: int, body: string)

  const ErrorOpen: string := "{\"Error\":\" "
  const ErrorClose: string := "\"}"

  /** buildErrorMessage: the message between `{"Error":" ` and `"}`, nothing escaped. */
  function BuildErrorMessage(message: string): (r: string)
    ensures StartsWith(r, ErrorOpen) && EndsWith(r, ErrorClose)
    ensures |r| == |ErrorOpen| + |message| + |ErrorClose|
  {
    ErrorOpen + message + ErrorClose
  }

  /** What a client reads back out of an error body. */
  function ErrorText(body: string): (r: Option<string>)
    ensures r.Some? ==> |body| >= |ErrorOpen| + |ErrorClose|
  {
    if |body| >= |ErrorOpen| + |ErrorClose| && StartsWith(body, ErrorOpen) && EndsWith(body, ErrorClose)
    then Some(body[|ErrorOpen|..|body| - |ErrorClose|])
    else None
  }

  /** The body gives its message back, whatever characters the message holds. */
  lemma ErrorTextOfBuild(message: string)
    ensures ErrorText(BuildErrorMessage(message)) == Some(message)
  {
    var body := BuildErrorMessage(message);
    assert body[|ErrorOpen|..|body| - |ErrorClose|] == message;
  }

  /** Messages that differ give bodies that differ. */
  lemma BuildErrorMessageInjective(m: string, n: string)
    requires BuildErrorMessage(m) == BuildErrorMessage(n)
    ensures m == n
  {
    ErrorTextOfBuild(m);
    ErrorTextOfBuild(n);
  }

  /** The status each mapper answers with, for every failure but a CompletionException. */
  function Status(f: Failure): (r: int)
    requires !f.Completion?
    ensures r == 404 <==> f in {UserNotFound, GroupNotFound, UserNotInGroup, MembersNotFound, FileSharingNotFound}
    ensures r == 403 <==> f == Forbidden
    ensures r == 400 <==> f == IllegalArgument
    ensures r == 409 <==> f == DuplicateResource
    ensures r == 500 <==> f.NonUniqueResult? || f.Storage? || f.Wrapped? || f.TokenFailure?
  {
    match f
    case UserNotFound => 404
    case GroupNotFound => 404
    case UserNotInGroup => 404
    case MembersNotFound => 404
    case FileSharingNotFound => 404
    case Forbidden => 403
    case IllegalArgument => 400
    case DuplicateResource => 409
    case _ => 500
  }

  /** The text each mapper puts before the exception's message. */
  function Lead(f: Failure): string
    requires !f.Completion?
  {
    match f
    case UserNotFound => ""
    case Forbidden => "Unauthorized action: "
    case IllegalArgument => "Invalid argument - "
    case GroupNotFound => "Group not found - "
    case UserNotInGroup => "User not found in group - "
    case DuplicateResource => "Duplicate resource - "
    case MembersNotFound => "Empty group - "
    case FileSharingNotFound => "File sharing not found - "
    case _ => "Internal server error: "
  }

  // ---------------------------------------------------------------------
  // CompletionException
  // ---------------------------------------------------------------------

  const StatusLabel: string := "Status Code: "

  /** The pattern `Status Code: (\d+)` matches at position i. */
  predicate StatusAt(s: string, i: int) {
    OccursAt(s, StatusLabel, i) && i + |StatusLabel| < |s| && IsDigit(s[i + |StatusLabel|])
  }

  /** Matcher.find from position `from`: the first position where the pattern matches. */
  function FindStatus(s: string, from: nat): (r: Option<nat>)
    ensures r.Some? ==> from <= r.value && StatusAt(s, r.value)
    ensures r.Some? ==> forall k :: from <= k < r.value ==> !StatusAt(s, k)
    ensures r.None? ==> forall k :: from <= k ==> !StatusAt(s, k)
    decreases |s| - from
  {
    if from + |StatusLabel| >= |s| then None
    else if StatusAt(s, from) then Some(from)
    else FindStatus(s, from + 1)
  }

  /** The longest run of digits starting at position i (the greedy `\d+`). */
  function DigitRun(s: string, i: nat): (r: string)
    requires i <= |s|
    ensures AllDigits(r) && StartsWith(s[i..], r)
    ensures i + |r| < |s| ==> !IsDigit(s[i + |r|])
    decreases |s| - i
  {
    if i < |s| && IsDigit(s[i]) then
      var rest := DigitRun(s, i + 1);
      assert s[i..] == [s[i]] + s[i + 1..];
      [s[i]] + rest
    else []
  }

  /** The largest value Integer.parseInt accepts. */
  const MaxInt: int := 0x7fff_ffff

  /**
   * The status text the pattern captures, parsed with Integer.parseInt:
   * "500" when nothing matches, None when the captured digits overflow an int.
   */
  function CompletionStatus(message: string): (r: Option<int>)
    ensures FindStatus(message, 0).None? ==> r == Some(500)
    ensures FindStatus(message, 0).Some? ==>
      var digits := DigitRun(message, FindStatus(message, 0).value + |StatusLabel|);
      digits != [] && (r.Some? <==> DigitsValue(digits) <= MaxInt)
      && (r.Some? ==> r.value == DigitsValue(digits))
  {
    match FindStatus(message, 0)
    case None => Some(500)
    case Some(i) =>
      var digits := DigitRun(message, i + |StatusLabel|);
      if DigitsValue(digits) <= MaxInt then Some(DigitsValue(digits)) else None
  }

  /** The run found is exactly the digits written there. */
  lemma {:induction false} DigitRunOf(s: string, i: nat, digits: string, tail: string)
    requires i <= |s| && s[i..] == digits + tail && AllDigits(digits)
    requires tail == [] || !IsDigit(tail[0])
    ensures DigitRun(s, i) == digits
    decreases |digits|
  {
    if digits != [] {
      assert s[i] == digits[0];
      assert s[i + 1..] == digits[1..] + tail;
      DigitRunOf(s, i + 1, digits[1..], tail);
    } else if i < |s| {
      assert s[i] == tail[0];
    }
  }

  /** A status written after the label, and ended by a non-digit, is the status read back. */
  lemma CompletionStatusOfLabel(code: nat, tail: string)
    requires code <= MaxInt && (tail == [] || !IsDigit(tail[0]))
    ensures CompletionStatus(StatusLabel + Digits(code) + tail) == Some(code)
  {
    LabelAtStart(StatusLabel + Digits(code) + tail, Digits(code), tail);
    DigitsValueOfDigits(code);
  }

  lemma LabelAtStart(m: string, digits: string, tail: string)
    requires m == StatusLabel + digits + tail && digits != [] && AllDigits(digits)
    requires tail == [] || !IsDigit(tail[0])
    ensures FindStatus(m, 0) == Some(0) && DigitRun(m, |StatusLabel|) == digits
  {
    assert m[..|StatusLabel|] == StatusLabel;
    assert m[|StatusLabel|] == digits[0];
    assert StatusAt(m, 0);
    assert m[|StatusLabel|..] == digits + tail;
    DigitRunOf(m, |StatusLabel|, digits, tail);
  }

  const ServiceMark: string := "(Service"

  /** The string is one or more copies of "(Service" and nothing else. */
  predicate OnlyServiceMarks(s: string)
    decreases |s|
  {
    StartsWith(s, ServiceMark) && (|s| == |ServiceMark| || OnlyServiceMarks(s[|ServiceMark|..]))
  }

  /**
   * split("\\(Service")[0].trim(): the trimmed text before the first
   * "(Service".  When the message is nothing but such marks, Java's split
   * drops every (empty) piece and indexing the empty array throws: None.
   */
  function CutMessage(message: string): (r: Option<string>)
    ensures r.None? <==> OnlyServiceMarks(message)
    ensures IndexOf(message, ServiceMark).None? ==> r == Some(JavaTrim(message))
    ensures IndexOf(message, ServiceMark).Some? && r.Some? ==>
      r.value == JavaTrim(message[..IndexOf(message, ServiceMark).value])
  {
    match IndexOf(message, ServiceMark)
    case None =>
      assert !OnlyServiceMarks(message) by { assert !OccursAt(message, ServiceMark, 0); }
      Some(JavaTrim(message))
    case Some(i) =>
      if OnlyServiceMarks(message) then
        assert i == 0 by { assert OccursAt(message, ServiceMark, 0); }
        None
      else Some(JavaTrim(message[..i]))
  }

  /** The text kept from a message never holds the mark it was cut at. */
  lemma CutHasNoMark(message: string)
    requires CutMessage(message).Some?
    ensures IndexOf(CutMessage(message).value, ServiceMark).None?
  {
    var before := if IndexOf(message, ServiceMark).None? then message else message[..IndexOf(message, ServiceMark).value];
    PrefixBeforeMark(message, before);
    TrimHasNoMark(before);
    assert CutMessage(message).value == JavaTrim(before);
  }

  lemma TrimHasNoMark(s: string)
    requires forall k :: 0 <= k ==> !OccursAt(s, ServiceMark, k)
    ensures IndexOf(JavaTrim(s), ServiceMark).None?
  {
    var a, b :| 0 <= a <= b <= |s| && JavaTrim(s) == s[a..b];
    NoMarkInSlice(s, a, b);
  }

  /** Nothing before the first mark is a mark. */
  lemma PrefixBeforeMark(message: string, before: string)
    requires before == if IndexOf(message, ServiceMark).None? then message else message[..IndexOf(message, ServiceMark).value]
    ensures forall k :: 0 <= k ==> !OccursAt(before, ServiceMark, k)
  {
    forall k | 0 <= k ensures !OccursAt(before, ServiceMark, k) {
      if OccursAt(before, ServiceMark, k) {
        SliceOfSlice(message, 0, |before|, k, k + |ServiceMark|);
        assert OccursAt(message, ServiceMark, k);
      }
    }
  }

  /** A slice of a string without the mark has no mark either. */
  lemma NoMarkInSlice(s: string, a: int, b: int)
    requires 0 <= a <= b <= |s|
    requires forall k :: 0 <= k ==> !OccursAt(s, ServiceMark, k)
    ensures forall k :: 0 <= k ==> !OccursAt(s[a..b], ServiceMark, k)
  {
    forall k | 0 <= k ensures !OccursAt(s[a..b], ServiceMark, k) {
      if OccursAt(s[a..b], ServiceMark, k) {
        SliceOfSlice(s, a, b, k, k + |ServiceMark|);
        assert OccursAt(s, ServiceMark, a + k);
      }
    }
  }

  lemma SliceOfSlice(s: string, a: int, b: int, i: int, j: int)
    requires 0 <= a <= b <= |s| && 0 <= i <= j <= b - a
    ensures s[a..b][i..j] == s[a + i..a + j]
  {
    var t := s[a..b];
    assert forall n :: 0 <= n < j - i ==> t[i..j][n] == t[i + n] == s[a + i + n];
  }

  /**
   * Response.Status.fromStatusCode finds a constant for the code exactly
   * when it is one of the codes Response.Status lists in Jakarta RESTful Web
   * Services 3.1; for any other code it answers null, and
   * RestResponse.status(null, ...) throws.
   */
  predicate KnownStatus(code: int) {
    || (200 <= code <= 206 && code != 203)
    || (301 <= code <= 308 && code != 306)
    || 400 <= code <= 417
    || code == 428 || code == 429 || code == 431 || code == 451
    || 500 <= code <= 505
    || code == 511
  }

  /**
   * mapCompletionException: the status parsed from the message, the message
   * cut before "(Service" and trimmed.  A null message keeps 500 and prints
   * as "null".  None when the mapper itself throws: the cut finds no piece,
   * the digits overflow an int, or no Response.Status has that code.
   */
  function MapCompletion(message: Option<string>): (r: Option<Response>)
    ensures message.None? ==> r == Some(Response(500, BuildErrorMessage("null")))
    ensures message.Some? ==>
      (r.Some? <==> CompletionStatus(message.value).Some? && KnownStatus(CompletionStatus(message.value).value)
                    && CutMessage(message.value).Some?)
    ensures message.Some? && r.Some? ==>
      r.value == Response(CompletionStatus(message.value).value, BuildErrorMessage(CutMessage(message.value).value))
    ensures r.Some? ==> KnownStatus(r.value.status)
  {
    match message
    case None => Some(Response(500, BuildErrorMessage("null")))
    case Some(m) =>
      match CompletionStatus(m)
      case None => None
      case Some(status) =>
        match CutMessage(m)
        case None => None
        case Some(text) => if KnownStatus(status) then Some(Response(status, BuildErrorMessage(text))) else None
  }

  /**
   * The response for a failure whose exception message is `message`
   * (a CompletionException carries its own message).
   */
  function ToResponse(f: Failure, message: string): (r: Option<Response>)
    ensures !f.Completion? ==> r.Some? && r.value.status == Status(f)
    ensures !f.Completion? ==> ErrorText(r.value.body) == Some(Lead(f) + message)
    ensures f.Completion? ==> r == MapCompletion(f.message)
  {
    if f.Completion? then MapCompletion(f.message)
    else
      ErrorTextOfBuild(Lead(f) + message);
      Some(Response(Status(f), BuildErrorMessage(Lead(f) + message)))
  }

  /** A store status that Response.Status has no constant for makes the mapper itself fail. */
  lemma UnknownStatusFails()
    ensures MapCompletion(Some(StatusLabel + "999")) == None
  {
    assert Digits(999) == "999";
    assert StatusLabel + Digits(999) + "" == StatusLabel + "999";
    CompletionStatusOfLabel(999, "");
    var m := StatusLabel + "999";
    assert m[0] != ServiceMark[0];
    assert !OnlyServiceMarks(m);
  }

  /** A message that is only the mark makes the mapper itself fail. */
  lemma BareMarkFails()
    ensures MapCompletion(Some("(Service")) == None
  {
    assert !StatusAt("(Service", 0);
    assert OccursAt("(Service", ServiceMark, 0);
  }
}
