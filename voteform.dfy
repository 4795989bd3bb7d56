/** The voting page of vote.js: the e-mail check, the guard that decides
    whether a ballot is sent at all, and the notice shown for each kind of
    reply from cast_vote. */
module VoteForm {
  import opened Text
  import opened Php
  import opened Tables

  /** JavaScript's white space and line terminators: the characters `\s`
      matches and String.prototype.trim removes. */
  predicate IsJsSpace(c: char) {
    || c == '\t' || c == '\n' || c == '\U{B}' || c == '\U{C}' || c == '\r' || c == ' '
    || c == '\U{A0}' || c == '\U{1680}' || ('\U{2000}' <= c <= '\U{200A}')
    || c == '\U{2028}' || c == '\U{2029}' || c == '\U{202F}' || c == '\U{205F}'
    || c == '\U{3000}' || c == '\U{FEFF}'
  }

  /** `s.trim()`. */
  function JsTrim(s: string): (r: string)
    ensures |r| <= |s|
    ensures r == [] || (!IsJsSpace(r[0]) && !IsJsSpace(r[|r| - 1]))
  {
    Trim(s, IsJsSpace)
  }

  // ---------------------------------------------------------------------
  // validateEmail: /^[^\s@]+@[^\s@]+\.[^\s@]+$/

  /** The class `[^\s@]`. */
  predicate IsWordChar(c: char) {
    !IsJsSpace(c) && c != '@'
  }

  /** `[^\s@]+` matches all of `s`. */
  predicate WordRun(s: string) {
    |s| >= 1 && All(s, IsWordChar)
  }

  /** The regular expression read literally: the string splits at an `@`
      at index `i` and a `.` at index `j` into three non-empty runs of
      `[^\s@]`. The middle run may itself contain dots. */
  predicate ValidateEmail(e: string) {
    exists i, j :: 0 <= i < j < |e| && e[i] == '@' && e[j] == '.'
      && WordRun(e[..i]) && WordRun(e[i + 1..j]) && WordRun(e[j + 1..])
  }

  /** The domain has a dot with at least one character on each side. */
  predicate HasInnerDot(d: string) {
    exists p :: 1 <= p < |d| - 1 && d[p] == '.'
  }

  /** The e-mail check in plain terms: no white space, exactly one `@`, a
      non-empty part before it, and a dot inside the part after it. */
  predicate WellFormedEmail(e: string) {
    && (forall k :: 0 <= k < |e| ==> !IsJsSpace(e[k]))
    && (exists i :: 0 < i < |e| && e[i] == '@'
          && (forall k :: 0 <= k < |e| && k != i ==> e[k] != '@')
          && HasInnerDot(e[i + 1..]))
  }

  lemma ValidImpliesWellFormed(e: string, i: int, j: int)
    requires 0 <= i < j < |e| && e[i] == '@' && e[j] == '.'
    requires WordRun(e[..i]) && WordRun(e[i + 1..j]) && WordRun(e[j + 1..])
    ensures WellFormedEmail(e)
  {
    forall k | 0 <= k < |e| && k != i
      ensures IsWordChar(e[k])
    {
      if k < i {
        assert e[..i][k] == e[k];
      } else if k < j {
        assert e[i + 1..j][k - i - 1] == e[k];
      } else if k > j {
        assert e[j + 1..][k - j - 1] == e[k];
      }
    }
    var d := e[i + 1..];
    assert d[j - i - 1] == '.';
  }

  lemma WellFormedImpliesValid(e: string, i: int, p: int)
    requires forall k :: 0 <= k < |e| ==> !IsJsSpace(e[k])
    requires 0 < i < |e| && e[i] == '@'
    requires forall k :: 0 <= k < |e| && k != i ==> e[k] != '@'
    requires 1 <= p < |e[i + 1..]| - 1 && e[i + 1..][p] == '.'
    ensures ValidateEmail(e)
  {
    var j := i + 1 + p;
    assert e[j] == '.';
    assert forall k :: 0 <= k < i ==> e[..i][k] == e[k];
    assert forall k :: i + 1 <= k < j ==> e[i + 1..j][k - i - 1] == e[k];
    assert forall k :: j + 1 <= k < |e| ==> e[j + 1..][k - j - 1] == e[k];
    assert WordRun(e[..i]) && WordRun(e[i + 1..j]) && WordRun(e[j + 1..]);
  }

  /** validateEmail accepts exactly the well-formed addresses. */
  lemma ValidateEmailCharacterised(e: string)
    ensures ValidateEmail(e) <==> WellFormedEmail(e)
  {
    if ValidateEmail(e) {
      var i, j :| 0 <= i < j < |e| && e[i] == '@' && e[j] == '.'
        && WordRun(e[..i]) && WordRun(e[i + 1..j]) && WordRun(e[j + 1..]);
      ValidImpliesWellFormed(e, i, j);
    }
    if WellFormedEmail(e) {
      var i :| 0 < i < |e| && e[i] == '@'
        && (forall k :: 0 <= k < |e| && k != i ==> e[k] != '@')
        && HasInnerDot(e[i + 1..]);
      var p :| 1 <= p < |e[i + 1..]| - 1 && e[i + 1..][p] == '.';
      WellFormedImpliesValid(e, i, p);
    }
  }

  /** A domain may start with a dot: the first `[^\s@]+` takes it. */
  lemma AcceptsLeadingDotDomain()
    ensures ValidateEmail("a@..c")
  {
    var t := "a@..c";
    assert t[1] == '@' && t[3] == '.';
    assert t[..1] == "a" && t[2..3] == "." && t[4..] == "c";
    assert IsWordChar('a') && IsWordChar('.') && IsWordChar('c');
    assert WordRun(t[..1]) && WordRun(t[2..3]) && WordRun(t[4..]);
  }

  /** The dot must have a character of the domain on each side. */
  lemma RejectsDotRightAfterAt()
    ensures !ValidateEmail("a@.c")
  {
    ValidateEmailCharacterised("a@.c");
  }

  /** A second `@` is refused. */
  lemma RejectsTwoAts()
    ensures !ValidateEmail("a@b@c.d")
  {
    ValidateEmailCharacterised("a@b@c.d");
    assert "a@b@c.d"[1] == '@' && "a@b@c.d"[3] == '@';
  }

  // ---------------------------------------------------------------------
  // onVote: the guard before the request

  /** `Number(value)` of a select box: NaN or a finite number. */
  datatype JsNumber = NaN | Num(value: real)

  /** `!n` is false exactly for NaN and zero. */
  predicate Truthy(n: JsNumber) {
    n.Num? && n.value != 0.0
  }

  const MSG_INCOMPLETE := "Please provide your registered email, election, and candidate."

  /** What onVote does with the form: refuse it with a message, or post
      the trimmed e-mail and the two numbers as JSON. */
  datatype Submission = Blocked(message: string) | Send(email: string, electionId: real, candidateId: real)

  function GuardVote(emailField: string, election: JsNumber, candidate: JsNumber): (r: Submission)
    ensures r.Send? <==> ValidateEmail(JsTrim(emailField)) && Truthy(election) && Truthy(candidate)
    ensures r.Blocked? ==> r.message == MSG_INCOMPLETE
    ensures r.Send? ==>
      && r.email == JsTrim(emailField)
      && r.electionId == election.value && r.candidateId == candidate.value
      && r.electionId != 0.0 && r.candidateId != 0.0
  {
    var email := JsTrim(emailField);
    if !ValidateEmail(email) || !Truthy(election) || !Truthy(candidate) then Blocked(MSG_INCOMPLETE)
    else Send(email, election.value, candidate.value)
  }

  /** A string with an `@` in it keeps it through PHP's trim(), so it is
      not falsy afterwards. */
  lemma AtSurvivesPhpTrim(s: string, i: int)
    requires 0 <= i < |s| && s[i] == '@'
    ensures !Falsy(PhpTrim(s))
  {
    var trimmed := PhpTrim(s);
    var at := i - (|s| - |TrimStart(s, IsTrimChar)|);
    assert 0 <= at < |trimmed| && trimmed[at] == '@' by {
      TrimKeeps(s, IsTrimChar, i);
    }
  }

  /** An address the page accepts is not empty for the server either. */
  lemma ValidEmailSurvivesPhpTrim(email: string)
    requires ValidateEmail(email)
    ensures !Falsy(PhpTrim(email))
  {
    var i, j :| 0 <= i < j < |email| && email[i] == '@' && email[j] == '.'
      && WordRun(email[..i]) && WordRun(email[i + 1..j]) && WordRun(email[j + 1..]);
    AtSurvivesPhpTrim(email, i);
  }

  /** A ballot the page lets through passes the server's own validation:
      the e-mail keeps its `@` after PHP's trim, so it is not falsy, and
      both ids are non-zero. */
  lemma SentBallotIsComplete(emailField: string, election: JsNumber, candidate: JsNumber,
                             electionId: Int64, candidateId: Int64)
    requires GuardVote(emailField, election, candidate).Send?
    requires election == Num(electionId as real) && candidate == Num(candidateId as real)
    ensures Complete(ReadBallot(BallotForm(JsTrim(emailField), electionId, candidateId)))
  {
    ReadBallotForm(JsTrim(emailField), electionId, candidateId);
    ValidEmailSurvivesPhpTrim(JsTrim(emailField));
  }

  // ---------------------------------------------------------------------
  // onVote: the reply

  /** What the page gets back: the fetch or the JSON decoding failed, or a
      status with the body's `error` field (None when absent or null). */
  datatype Response = NetworkFailure | Replied(status: int, error: Option<string>)

  /** The message line after the reply: its text, whether it is styled as
      an error, and whether the form is reset. */
  datatype Notice = Notice(text: string, isError: bool, resetForm: bool)

  const MSG_CAST_OK := "Vote cast successfully — thank you!"
  const MSG_DUPLICATE_FALLBACK := "You have already voted in this election."
  const MSG_FAILED_FALLBACK := "Failed to cast vote."
  const MSG_NETWORK := "Network error — try again."

  /** `j.error || fallback`. */
  function ErrorText(error: Option<string>, fallback: string): (t: string)
    ensures error.Some? && error.value != "" ==> t == error.value
    ensures error.None? || error.value == "" ==> t == fallback
  {
    if error.Some? && error.value != "" then error.value else fallback
  }

  /** `res.ok` is a status from 200 to 299. */
  predicate IsOk(status: int) {
    200 <= status <= 299
  }

  function ShowReply(r: Response): (n: Notice)
    ensures n.resetForm <==> r.Replied? && IsOk(r.status)
    ensures n.isError <==> !n.resetForm
    ensures r.NetworkFailure? ==> n.text == MSG_NETWORK
    ensures r.Replied? && IsOk(r.status) ==> n.text == MSG_CAST_OK
    ensures r.Replied? && r.status == 409 ==> n.text == ErrorText(r.error, MSG_DUPLICATE_FALLBACK)
    ensures r.Replied? && !IsOk(r.status) && r.status != 409 ==> n.text == ErrorText(r.error, MSG_FAILED_FALLBACK)
  {
    match r
    case NetworkFailure => Notice(MSG_NETWORK, true, false)
    case Replied(status, error) =>
      if IsOk(status) then Notice(MSG_CAST_OK, false, true)
      else if status == 409 then Notice(ErrorText(error, MSG_DUPLICATE_FALLBACK), true, false)
      else Notice(ErrorText(error, MSG_FAILED_FALLBACK), true, false)
  }

  /** The response json_response sends for a cast_vote reply. */
  function Respond(reply: CastReply): (r: Response)
    ensures r.Replied?
    ensures reply.VoteCast? ==> r.status == 200 && r.error.None?
    ensures reply.CastError? ==> r.status == reply.status && r.error == Some(reply.error)
  {
    match reply
    case VoteCast(_) => Replied(200, None)
    case CastError(status, error) => Replied(status, Some(error))
  }

  /** Against this server the page resets the form exactly when a vote was
      recorded, and a repeat vote shows the server's own message, so the
      page's fallback text for 409 is never displayed. */
  lemma ShowCastReply(db: Database, b: Ballot, now: int, fault: Option<string>)
    ensures var (reply, _) := CastVote(db, b, now, fault);
      var n := ShowReply(Respond(reply));
      && (n.resetForm <==> reply.VoteCast?)
      && (reply.CastError? && reply.status == 409 ==> n.text == MSG_ALREADY_VOTED && n.isError)
      && (reply.CastError? && reply.status == 400 ==> n.text == reply.error && n.isError)
  {
  }
}
