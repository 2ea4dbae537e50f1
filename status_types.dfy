/** The native status vocabulary the casters work on: the canonical status
    codes, a status (code and message), a value-or-error result, and the
    textual rendering a status shows on the Python side ("OK" or
    "<CODE>: <message>"), together with its inverse. */
module StatusTypes {

  datatype Option<+T> = None | Some(value: T)

  /** The canonical status codes. Their integer values are not modelled;
      only their identity and their names matter here. */
  datatype StatusCode =
    | Ok | Cancelled | Unknown | InvalidArgument | DeadlineExceeded
    | NotFound | AlreadyExists | PermissionDenied | ResourceExhausted
    | FailedPrecondition | Aborted | OutOfRange | Unimplemented | Internal
    | Unavailable | DataLoss | Unauthenticated

  /** Every status code, each exactly once. */
  const AllCodes: seq<StatusCode> :=
    [Ok, Cancelled, Unknown, InvalidArgument, DeadlineExceeded,
     NotFound, AlreadyExists, PermissionDenied, ResourceExhausted,
     FailedPrecondition, Aborted, OutOfRange, Unimplemented, Internal,
     Unavailable, DataLoss, Unauthenticated]

  lemma AllCodesComplete(c: StatusCode)
    ensures c in AllCodes
  {
    match c
    case Ok => assert AllCodes[0] == c;
    case Cancelled => assert AllCodes[1] == c;
    case Unknown => assert AllCodes[2] == c;
    case InvalidArgument => assert AllCodes[3] == c;
    case DeadlineExceeded => assert AllCodes[4] == c;
    case NotFound => assert AllCodes[5] == c;
    case AlreadyExists => assert AllCodes[6] == c;
    case PermissionDenied => assert AllCodes[7] == c;
    case ResourceExhausted => assert AllCodes[8] == c;
    case FailedPrecondition => assert AllCodes[9] == c;
    case Aborted => assert AllCodes[10] == c;
    case OutOfRange => assert AllCodes[11] == c;
    case Unimplemented => assert AllCodes[12] == c;
    case Internal => assert AllCodes[13] == c;
    case Unavailable => assert AllCodes[14] == c;
    case DataLoss => assert AllCodes[15] == c;
    case Unauthenticated => assert AllCodes[16] == c;
  }

  /** The name under which a code is rendered; the same names label the
      Python `StatusCode` enumeration. A name is never empty and never
      contains a colon, which is what makes a rendered status readable back. */
  function CodeName(c: StatusCode): (name: string)
    ensures |name| > 0 && ':' !in name
    ensures name == "OK" <==> c == Ok
  {
    match c
    case Ok => "OK"
    case Cancelled => "CANCELLED"
    case Unknown => "UNKNOWN"
    case InvalidArgument => "INVALID_ARGUMENT"
    case DeadlineExceeded => "DEADLINE_EXCEEDED"
    case NotFound => "NOT_FOUND"
    case AlreadyExists => "ALREADY_EXISTS"
    case PermissionDenied => "PERMISSION_DENIED"
    case ResourceExhausted => "RESOURCE_EXHAUSTED"
    case FailedPrecondition => "FAILED_PRECONDITION"
    case Aborted => "ABORTED"
    case OutOfRange => "OUT_OF_RANGE"
    case Unimplemented => "UNIMPLEMENTED"
    case Internal => "INTERNAL"
    case Unavailable => "UNAVAILABLE"
    case DataLoss => "DATA_LOSS"
    case Unauthenticated => "UNAUTHENTICATED"
  }

  /** The first code among `codes` whose name is `name`, if any. */
  function CodeNamedIn(name: string, codes: seq<StatusCode>): (r: Option<StatusCode>)
    ensures r.Some? ==> r.value in codes && CodeName(r.value) == name
    ensures r.None? ==> forall c :: c in codes ==> CodeName(c) != name
  {
    if codes == [] then None
    else if CodeName(codes[0]) == name then Some(codes[0])
    else CodeNamedIn(name, codes[1..])
  }

  /** The code a name stands for: the inverse of CodeName. */
  function CodeNamed(name: string): (r: Option<StatusCode>)
    ensures r.Some? ==> CodeName(r.value) == name
  {
    CodeNamedIn(name, AllCodes)
  }

  /** Two codes never share a name. */
  lemma CodeNameInjective(c1: StatusCode, c2: StatusCode)
    requires CodeName(c1) == CodeName(c2)
    ensures c1 == c2
  {
    var n1, n2 := CodeName(c1), CodeName(c2);
    assert |n1| == |n2| && n1[0] == n2[0];
  }

  lemma {:induction false} CodeNamedOfName(c: StatusCode)
    ensures CodeNamed(CodeName(c)) == Some(c)
  {
    AllCodesComplete(c);
    var r := CodeNamed(CodeName(c));
    assert r.Some?;
    CodeNameInjective(r.value, c);
  }

  /** A status: a code and a message. It is ok exactly when its code is OK. */
  datatype Status = Status(code: StatusCode, message: string) {
    predicate IsOk() { code == Ok }
  }

  const OkStatus: Status := Status(Ok, "")

  /** A status as the native library hands it out: an ok status never
      keeps a message (the library drops a message given with code OK). */
  predicate Canonical(s: Status) {
    s.IsOk() ==> s.message == ""
  }

  /** The only kind of status a failed StatusOr can hold. */
  type ErrorStatus = s: Status | !s.IsOk() witness Status(Cancelled, "")

  /** A value of type P, or the non-ok status that explains its absence. */
  datatype StatusOr<+P> = Value(value: P) | Error(err: ErrorStatus) {

    /** The status of the result: OK when a value is present. */
    function GetStatus(): (s: Status)
      ensures s.IsOk() <==> Value?
      ensures Canonical(s)
      ensures Error? ==> s == err
    {
      if Value? then OkStatus else err
    }

    /** A payload is present exactly when the result is ok. */
    predicate IsOk()
      ensures IsOk() <==> Value?
    {
      GetStatus().IsOk()
    }
  }

  /** The string form of a status: "OK", or the code's name, a colon, a
      space and the message. The colon and space are kept when the message
      is empty. */
  function StatusToString(s: Status): (r: string)
    ensures |r| > 0
    ensures s.IsOk() <==> r == "OK"
    ensures !s.IsOk() ==> |r| == |CodeName(s.code)| + 2 + |s.message|
    ensures !s.IsOk() ==> r[..|CodeName(s.code)|] == CodeName(s.code)
    ensures !s.IsOk() ==> r[|r| - |s.message|..] == s.message
  {
    if s.IsOk() then "OK" else CodeName(s.code) + ": " + s.message
  }

  /** The renderings the Python tests look for; an empty message still
      leaves the colon and space. */
  lemma StatusToStringExamples()
    ensures StatusToString(OkStatus) == "OK"
    ensures StatusToString(Status(Aborted, "test")) == "ABORTED: test"
    ensures StatusToString(Status(Cancelled, "")) == "CANCELLED: "
    ensures StatusToString(Status(NotFound, "")) == "NOT_FOUND: "
  {
  }

  /** Index of the first colon in `s`, or |s| when there is none. */
  function ColonIndex(s: string): (i: nat)
    ensures i <= |s|
    ensures ':' !in s[..i]
    ensures i < |s| ==> s[i] == ':'
  {
    if s == [] then 0
    else if s[0] == ':' then 0
    else
      var j := ColonIndex(s[1..]);
      assert s[1..][..j] == s[1..j + 1];
      assert s[..j + 1] == [s[0]] + s[1..j + 1];
      1 + j
  }

  lemma ColonIndexOfJoin(a: string, b: string)
    requires ':' !in a && |b| > 0 && b[0] == ':'
    ensures ColonIndex(a + b) == |a|
  {
    var s := a + b;
    var i := ColonIndex(s);
    assert forall k :: 0 <= k < |a| ==> s[k] == a[k] && s[k] in a;
    assert forall j :: |a| < j <= |s| ==> s[..j][|a|] == ':';
  }

  /** Reads a rendered status back: the inverse of StatusToString. */
  function ParseStatus(text: string): (r: Option<Status>)
    ensures r.Some? ==> Canonical(r.value)
  {
    if text == "OK" then Some(OkStatus)
    else
      var i := ColonIndex(text);
      if i + 2 <= |text| && text[i + 1] == ' ' then
        match CodeNamed(text[..i])
        case Some(c) =>
          if c == Ok then None else Some(Status(c, text[i + 2..]))
        case None => None
      else None
  }

  /** Rendering loses nothing: code and message are recovered from the
      string, for every status the library can produce. */
  lemma {:induction false} ParseStatusToString(s: Status)
    requires Canonical(s)
    ensures ParseStatus(StatusToString(s)) == Some(s)
  {
    var text := StatusToString(s);
    if !s.IsOk() {
      var name := CodeName(s.code);
      assert text == name + (": " + s.message);
      ColonIndexOfJoin(name, ": " + s.message);
      assert ColonIndex(text) == |name|;
      assert text[..|name|] == name;
      assert text[|name| + 2..] == s.message;
      CodeNamedOfName(s.code);
    }
  }

  /** Two statuses the library can produce render alike only when they
      are equal. */
  lemma StatusToStringInjective(s1: Status, s2: Status)
    requires Canonical(s1) && Canonical(s2)
    requires StatusToString(s1) == StatusToString(s2)
    ensures s1 == s2
  {
    ParseStatusToString(s1);
    ParseStatusToString(s2);
  }
}
