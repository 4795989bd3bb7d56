/** The vote ledger of api.php over an in-memory copy of its four tables.
    Each handler is a pure function from the tables before the request to
    the reply and the tables after it; the class in ledger.dfy runs the
    same steps imperatively and is proved equal to these functions.

    The schema is not part of the source; the model takes what the
    handlers' error handling implies: a unique key on voters.email, a
    unique key on votes(voter_id, election_id), and auto-increment ids
    starting at 1. */
module Tables {
  import opened Text
  import opened Php

  datatype Voter = Voter(voterId: int, fullName: string, email: string)

  /** A null bound leaves the window open on that side. Times are
      instants on one clock; the source compares fixed-width
      'Y-m-d H:i:s' strings, which orders them the same way. */
  datatype Election = Election(title: string, startsAt: Option<int>, endsAt: Option<int>)

  datatype Candidate = Candidate(candidateId: int, electionId: int, name: string, party: Option<string>)

  datatype Vote = Vote(voteId: int, voterId: int, electionId: int, candidateId: int)

  /** The four tables and the next value of each auto-increment counter
      the ledger draws from. Elections are keyed by election_id. */
  datatype Database = Database(
    voters: seq<Voter>,
    elections: map<int, Election>,
    candidates: seq<Candidate>,
    votes: seq<Vote>,
    nextVoterId: int,
    nextVoteId: int)

  predicate DistinctCandidateIds(cands: seq<Candidate>) {
    forall i, j :: 0 <= i < j < |cands| ==> cands[i].candidateId != cands[j].candidateId
  }

  predicate IsVoterId(voters: seq<Voter>, id: int) {
    exists v :: v in voters && v.voterId == id
  }

  /** What the schema's keys and the handlers together keep true. */
  predicate Consistent(db: Database) {
    && 1 <= db.nextVoterId && 1 <= db.nextVoteId
    // voters: auto-increment primary key, unique email
    && (forall i :: 0 <= i < |db.voters| ==> 1 <= db.voters[i].voterId < db.nextVoterId)
    && (forall i, j :: 0 <= i < j < |db.voters| ==>
          db.voters[i].voterId != db.voters[j].voterId && db.voters[i].email != db.voters[j].email)
    // votes: auto-increment primary key, references to a voter and an election
    && (forall i :: 0 <= i < |db.votes| ==>
          && 1 <= db.votes[i].voteId < db.nextVoteId
          && IsVoterId(db.voters, db.votes[i].voterId)
          && db.votes[i].electionId in db.elections)
    // votes: unique (voter_id, election_id)
    && (forall i, j :: 0 <= i < j < |db.votes| ==>
          && db.votes[i].voteId != db.votes[j].voteId
          && (db.votes[i].voterId != db.votes[j].voterId || db.votes[i].electionId != db.votes[j].electionId))
    // candidates: primary key
    && DistinctCandidateIds(db.candidates)
  }

  // ---------------------------------------------------------------------
  // Queries the handlers issue

  /** `SELECT voter_id FROM voters WHERE email = ?`, an exact match. */
  function FindVoter(voters: seq<Voter>, email: string): (r: Option<Voter>)
    ensures r.Some? ==> r.value in voters && r.value.email == email
    ensures r.None? ==> forall v :: v in voters ==> v.email != email
  {
    if voters == [] then None
    else if voters[0].email == email then Some(voters[0])
    else FindVoter(voters[1..], email)
  }

  /** The window test of cast_vote: closed when a start is set and now is
      before it, or an end is set and now is after it. */
  predicate IsOpen(e: Election, now: int) {
    !((e.startsAt.Some? && now < e.startsAt.value) || (e.endsAt.Some? && now > e.endsAt.value))
  }

  /** The window is the closed interval between the bounds that are set. */
  lemma WindowIsClosedInterval(e: Election, now: int)
    ensures IsOpen(e, now) <==>
      (e.startsAt.None? || e.startsAt.value <= now) && (e.endsAt.None? || now <= e.endsAt.value)
    ensures e.startsAt.Some? && (e.endsAt.None? || e.startsAt.value <= e.endsAt.value) ==>
      IsOpen(e, e.startsAt.value)
    ensures e.endsAt.Some? && (e.startsAt.None? || e.startsAt.value <= e.endsAt.value) ==>
      IsOpen(e, e.endsAt.value)
    ensures e.startsAt.None? && e.endsAt.None? ==> IsOpen(e, now)
  {
  }

  predicate HasVoted(votes: seq<Vote>, voterId: int, electionId: int) {
    exists v :: v in votes && v.voterId == voterId && v.electionId == electionId
  }

  // ---------------------------------------------------------------------
  // The storage layer's atomic inserts

  /** One INSERT: it either adds the row, is refused by a unique key
      (MySQL errno 1062), or fails for another reason reported by the
      storage engine (`fault`). The unique key is checked first. */
  datatype InsertOutcome = Inserted(id: int) | Duplicate | OtherError(message: string)

  /** `INSERT INTO votes (voter_id, election_id, candidate_id)`. */
  function InsertVoteRow(db: Database, voterId: int, electionId: int, candidateId: int, fault: Option<string>)
    : (r: (InsertOutcome, Database))
    ensures r.0.Duplicate? <==> HasVoted(db.votes, voterId, electionId)
    ensures r.0.OtherError? <==> !HasVoted(db.votes, voterId, electionId) && fault.Some?
    ensures r.0.OtherError? ==> r.0.message == fault.value
    ensures !r.0.Inserted? ==> r.1 == db
    // the new row is appended under the next id, and nothing else changes
    ensures r.0.Inserted? ==>
      && r.0.id == db.nextVoteId
      && r.1 == db.(votes := db.votes + [Vote(db.nextVoteId, voterId, electionId, candidateId)],
                    nextVoteId := db.nextVoteId + 1)
  {
    if HasVoted(db.votes, voterId, electionId) then (Duplicate, db)
    else if fault.Some? then (OtherError(fault.value), db)
    else
      var vote := Vote(db.nextVoteId, voterId, electionId, candidateId);
      (Inserted(db.nextVoteId), db.(votes := db.votes + [vote], nextVoteId := db.nextVoteId + 1))
  }

  /** `INSERT INTO voters (full_name, email)`. */
  function InsertVoterRow(db: Database, fullName: string, email: string, fault: Option<string>)
    : (r: (InsertOutcome, Database))
    ensures r.0.Duplicate? <==> FindVoter(db.voters, email).Some?
    ensures r.0.OtherError? <==> FindVoter(db.voters, email).None? && fault.Some?
    ensures r.0.OtherError? ==> r.0.message == fault.value
    ensures !r.0.Inserted? ==> r.1 == db
    // the new row is appended under the next id, and nothing else changes
    ensures r.0.Inserted? ==>
      && r.0.id == db.nextVoterId
      && r.1 == db.(voters := db.voters + [Voter(db.nextVoterId, fullName, email)],
                    nextVoterId := db.nextVoterId + 1)
  {
    if FindVoter(db.voters, email).Some? then (Duplicate, db)
    else if fault.Some? then (OtherError(fault.value), db)
    else
      var voter := Voter(db.nextVoterId, fullName, email);
      (Inserted(db.nextVoterId), db.(voters := db.voters + [voter], nextVoterId := db.nextVoterId + 1))
  }

  // ---------------------------------------------------------------------
  // cast_vote

  const MSG_VOTE_FIELDS := "email, election_id and candidate_id required"
  const MSG_NOT_REGISTERED := "voter not registered"
  const MSG_INVALID_ELECTION := "invalid election"
  const MSG_NOT_OPEN := "election not open"
  const MSG_ALREADY_VOTED := "voter has already voted in this election"

  datatype CastReply = VoteCast(voteId: int) | CastError(status: int, error: string)

  /** The three fields cast_vote reads: the email trimmed, the two ids
      through intval(). */
  datatype Ballot = Ballot(email: string, electionId: int, candidateId: int)

  function ReadBallot(req: Request): (b: Ballot)
    // a missing or null field reads as the empty email or the id 0
    ensures ("email" !in req || req["email"].Null?) ==> b.email == ""
    ensures ("election_id" !in req || req["election_id"].Null?) ==> b.electionId == 0
    ensures ("candidate_id" !in req || req["candidate_id"].Null?) ==> b.candidateId == 0
    // a string email is read trimmed; an integer id is taken as it is and a
    // string id through intval()
    ensures "email" in req && req["email"].Str? ==> b.email == PhpTrim(req["email"].s)
    ensures "election_id" in req && req["election_id"].Int? ==> b.electionId == req["election_id"].i
    ensures "election_id" in req && req["election_id"].Str? ==> b.electionId == StringToInt(req["election_id"].s)
    ensures "candidate_id" in req && req["candidate_id"].Int? ==> b.candidateId == req["candidate_id"].i
    ensures "candidate_id" in req && req["candidate_id"].Str? ==> b.candidateId == StringToInt(req["candidate_id"].s)
    // the email never starts or ends with a character trim() strips
    ensures b.email == [] || (!IsTrimChar(b.email[0]) && !IsTrimChar(b.email[|b.email| - 1]))
    // both ids are 64-bit integers
    ensures INT64_MIN <= b.electionId <= INT64_MAX && INT64_MIN <= b.candidateId <= INT64_MAX
  {
    var email := TrimParam(req, "email");
    var electionId := IntParam(req, "election_id");
    var candidateId := IntParam(req, "candidate_id");
    // the three field names are distinct keys
    assert "email" != "election_id" && "email" != "candidate_id" && "election_id" != "candidate_id";
    Ballot(email, electionId, candidateId)
  }

  /** The JSON body the voting page posts to cast_vote, for whole-number
      ids. */
  function BallotForm(email: string, electionId: Int64, candidateId: Int64): Request {
    map["email" := Str(email), "election_id" := Int(electionId), "candidate_id" := Int(candidateId)]
  }

  /** cast_vote reads back the e-mail trimmed and the two ids as sent. */
  lemma ReadBallotForm(email: string, electionId: Int64, candidateId: Int64)
    ensures ReadBallot(BallotForm(email, electionId, candidateId)) == Ballot(PhpTrim(email), electionId, candidateId)
  {
    var req := BallotForm(email, electionId, candidateId);
    assert Coalesce(req, "email", Str("")) == Str(email);
    assert Coalesce(req, "election_id", Int(0)) == Int(electionId);
    assert Coalesce(req, "candidate_id", Int(0)) == Int(candidateId);
  }

  /** The validation of cast_vote: `!$email || !$election_id || !$candidate_id`. */
  predicate Complete(b: Ballot) {
    !Falsy(b.email) && b.electionId != 0 && b.candidateId != 0
  }

  /** The checks of cast_vote, in the order the handler runs them; a
      ballot that passes all four reaches the insert. */
  function CastVote(db: Database, b: Ballot, now: int, fault: Option<string>): (r: (CastReply, Database))
    // a rejected ballot changes no table
    ensures r.0.CastError? ==> r.1 == db
    ensures r.0.CastError? ==> r.0.status == 400 || r.0.status == 409 || r.0.status == 500
    // a cast appends one vote, for the resolved voter, with a fresh id, and nothing else
    ensures r.0.VoteCast? ==>
      && FindVoter(db.voters, b.email).Some?
      && r.0.voteId == db.nextVoteId
      && var vote := Vote(r.0.voteId, FindVoter(db.voters, b.email).value.voterId, b.electionId, b.candidateId);
      && r.1 == db.(votes := db.votes + [vote], nextVoteId := db.nextVoteId + 1)
  {
    if !Complete(b) then (CastError(400, MSG_VOTE_FIELDS), db)
    else match FindVoter(db.voters, b.email)
      case None => (CastError(400, MSG_NOT_REGISTERED), db)
      case Some(v) =>
        if b.electionId !in db.elections then (CastError(400, MSG_INVALID_ELECTION), db)
        else if !IsOpen(db.elections[b.electionId], now) then (CastError(400, MSG_NOT_OPEN), db)
        else match InsertVoteRow(db, v.voterId, b.electionId, b.candidateId, fault)
          case (Inserted(id), after) => (VoteCast(id), after)
          case (Duplicate, _) => (CastError(409, MSG_ALREADY_VOTED), db)
          case (OtherError(message), _) => (CastError(500, message), db)
  }

  /** Which check rejects a ballot: validation first, then the voter,
      then the election, then the window. An unregistered email is
      reported as such whatever the election. */
  lemma CastCheckOrder(db: Database, b: Ballot, now: int, fault: Option<string>)
    ensures var reply := CastVote(db, b, now, fault).0;
      var voter := FindVoter(db.voters, b.email);
      && (!Complete(b) ==> reply == CastError(400, MSG_VOTE_FIELDS))
      && (Complete(b) && voter.None? ==> reply == CastError(400, MSG_NOT_REGISTERED))
      && (Complete(b) && voter.Some? && b.electionId !in db.elections ==>
            reply == CastError(400, MSG_INVALID_ELECTION))
      && ((Complete(b) && voter.Some? && b.electionId in db.elections &&
           !IsOpen(db.elections[b.electionId], now)) ==> reply == CastError(400, MSG_NOT_OPEN))
  {
  }

  /** A vote is cast exactly when the ballot is complete, the email is
      registered, the election exists and is open, the voter has not voted
      in it, and storage does not fail. Nothing relates the candidate to the
      election: any non-zero candidate_id is accepted. */
  lemma CastSucceedsIff(db: Database, b: Ballot, now: int, fault: Option<string>)
    ensures var voter := FindVoter(db.voters, b.email);
      CastVote(db, b, now, fault).0.VoteCast? <==>
        && Complete(b)
        && voter.Some?
        && b.electionId in db.elections
        && IsOpen(db.elections[b.electionId], now)
        && !HasVoted(db.votes, voter.value.voterId, b.electionId)
        && fault.None?
  {
  }

  /** Past the four checks the insert decides: 409 comes from the unique
      key alone, and 500 from a storage failure alone, carrying its
      message. */
  lemma CastFailureIff(db: Database, b: Ballot, now: int, fault: Option<string>)
    ensures var r := CastVote(db, b, now, fault).0;
      var voter := FindVoter(db.voters, b.email);
      var passes := Complete(b) && voter.Some? && b.electionId in db.elections
        && IsOpen(db.elections[b.electionId], now);
      && (r.CastError? && r.status == 409 <==>
            passes && HasVoted(db.votes, voter.value.voterId, b.electionId))
      && (r.CastError? && r.status == 500 <==>
            passes && !HasVoted(db.votes, voter.value.voterId, b.electionId) && fault.Some?)
      && (r.CastError? && r.status == 500 ==> r.error == fault.value)
  {
  }

  /** Once a voter has voted in an election, every later ballot of that
      voter for that election that reaches the insert answers 409, whatever
      the candidate, and leaves the tables as they were. */
  lemma RepeatVoteConflicts(db: Database, b: Ballot, now: int, fault: Option<string>)
    requires Complete(b)
    requires FindVoter(db.voters, b.email).Some?
    requires b.electionId in db.elections && IsOpen(db.elections[b.electionId], now)
    requires HasVoted(db.votes, FindVoter(db.voters, b.email).value.voterId, b.electionId)
    ensures CastVote(db, b, now, fault) == (CastError(409, MSG_ALREADY_VOTED), db)
  {
  }

  /** A successful cast followed by a second complete ballot with the same
      email and election, for any candidate, answers 409 while the election
      is still open, and does not change the tables. */
  lemma SecondCastConflicts(db: Database, first: Ballot, second: Ballot, now1: int, now2: int,
                            fault1: Option<string>, fault2: Option<string>)
    requires CastVote(db, first, now1, fault1).0.VoteCast?
    requires second.email == first.email && second.electionId == first.electionId
    requires second.candidateId != 0
    requires IsOpen(db.elections[first.electionId], now2)
    ensures var after := CastVote(db, first, now1, fault1).1;
      CastVote(after, second, now2, fault2) == (CastError(409, MSG_ALREADY_VOTED), after)
  {
    var (reply, after) := CastVote(db, first, now1, fault1);
    var v := FindVoter(db.voters, first.email).value;
    var vote := Vote(reply.voteId, v.voterId, first.electionId, first.candidateId);
    assert vote in after.votes;
    RepeatVoteConflicts(after, second, now2, fault2);
  }

  /** cast_vote keeps the tables consistent; in particular it never lets a
      second vote for a (voter, election) pair in. */
  lemma CastPreservesConsistency(db: Database, b: Ballot, now: int, fault: Option<string>)
    requires Consistent(db)
    ensures Consistent(CastVote(db, b, now, fault).1)
  {
    var (reply, after) := CastVote(db, b, now, fault);
    if reply.VoteCast? {
      var v := FindVoter(db.voters, b.email).value;
      assert !HasVoted(db.votes, v.voterId, b.electionId);
      var n := |db.votes|;
      assert after.votes[n].voterId == v.voterId && after.votes[n].electionId == b.electionId;
      forall i | 0 <= i < n
        ensures after.votes[i].voterId != v.voterId || after.votes[i].electionId != b.electionId
      {
        assert after.votes[i] in db.votes;
      }
      assert IsVoterId(after.voters, v.voterId);
    }
  }

  // ---------------------------------------------------------------------
  // create_voter (and its alias register_voter)

  const MSG_VOTER_FIELDS := "full_name and email required"

  /** `note: already_registered` is carried by `alreadyRegistered`. */
  datatype RegisterReply = Registered(voterId: int, alreadyRegistered: bool) | RegisterError(status: int, error: string)

  /** The two fields create_voter reads, both trimmed. */
  datatype Registration = Registration(fullName: string, email: string)

  function ReadRegistration(req: Request): (g: Registration)
    // a missing or null field reads as the empty string
    ensures ("full_name" !in req || req["full_name"].Null?) ==> g.fullName == ""
    ensures ("email" !in req || req["email"].Null?) ==> g.email == ""
    // a string field is read trimmed
    ensures "full_name" in req && req["full_name"].Str? ==> g.fullName == PhpTrim(req["full_name"].s)
    ensures "email" in req && req["email"].Str? ==> g.email == PhpTrim(req["email"].s)
  {
    Registration(TrimParam(req, "full_name"), TrimParam(req, "email"))
  }

  function CreateVoter(db: Database, g: Registration, fault: Option<string>): (r: (RegisterReply, Database))
    // an empty (or "0") name or email is refused with 400
    ensures Falsy(g.fullName) || Falsy(g.email) ==> r == (RegisterError(400, MSG_VOTER_FIELDS), db)
    // a registered email answers success with the existing id and changes nothing
    ensures !Falsy(g.fullName) && !Falsy(g.email) && FindVoter(db.voters, g.email).Some? ==>
      r == (Registered(FindVoter(db.voters, g.email).value.voterId, true), db)
    // an unknown email is inserted: the next id, or the storage failure with 500
    ensures !Falsy(g.fullName) && !Falsy(g.email) && FindVoter(db.voters, g.email).None? ==>
      r.0 == (if fault.None? then Registered(db.nextVoterId, false) else RegisterError(500, fault.value))
    // a new voter gets the next id and is the only change
    ensures r.0.Registered? && !r.0.alreadyRegistered ==>
      && r.0.voterId == db.nextVoterId
      && r.1 == db.(voters := db.voters + [Voter(db.nextVoterId, g.fullName, g.email)],
                    nextVoterId := db.nextVoterId + 1)
    ensures r.0.RegisterError? ==> r.1 == db
  {
    if Falsy(g.fullName) || Falsy(g.email) then (RegisterError(400, MSG_VOTER_FIELDS), db)
    else
      var (outcome, after) := InsertVoterRow(db, g.fullName, g.email, fault);
      match outcome
      case Inserted(id) => (Registered(id, false), after)
      // errno 1062: answer with the id already stored under this email
      case Duplicate => (Registered(FindVoter(db.voters, g.email).value.voterId, true), db)
      case OtherError(message) => (RegisterError(500, message), db)
  }

  /** create_voter keeps the tables consistent. */
  lemma CreateVoterPreservesConsistency(db: Database, g: Registration, fault: Option<string>)
    requires Consistent(db)
    ensures Consistent(CreateVoter(db, g, fault).1)
  {
    var (reply, after) := CreateVoter(db, g, fault);
    if reply.Registered? && !reply.alreadyRegistered {
      var email := g.email;
      assert FindVoter(db.voters, email).None?;
      var n := |db.voters|;
      forall i | 0 <= i < n
        ensures after.voters[i].email != email && after.voters[i].voterId != after.voters[n].voterId
      {
        assert after.voters[i] in db.voters;
      }
      forall i | 0 <= i < |after.votes|
        ensures IsVoterId(after.voters, after.votes[i].voterId)
      {
        var w :| w in db.voters && w.voterId == db.votes[i].voterId;
        assert w in after.voters;
      }
    }
  }

  /** Registering an email that a successful registration has just added
      answers the same id, marked already_registered. */
  lemma ReRegisterReturnsSameId(db: Database, first: Registration, second: Registration,
                                fault1: Option<string>, fault2: Option<string>)
    requires Consistent(db)
    requires CreateVoter(db, first, fault1).0.Registered?
    requires second.email == first.email && !Falsy(second.fullName)
    ensures var (reply, after) := CreateVoter(db, first, fault1);
      CreateVoter(after, second, fault2) == (Registered(reply.voterId, true), after)
  {
    var (reply, after) := CreateVoter(db, first, fault1);
    var email := first.email;
    CreateVoterPreservesConsistency(db, first, fault1);
    var found := FindVoter(after.voters, email);
    if !reply.alreadyRegistered {
      var n := |db.voters|;
      assert after.voters[n].email == email;
      assert after.voters[n] in after.voters;
      UniqueEmailLookup(after.voters, n);
    } else {
      var v := FindVoter(db.voters, email).value;
      assert after == db;
    }
  }

  /** With unique emails, looking a voter's email up finds that voter. */
  lemma {:induction false} UniqueEmailLookup(voters: seq<Voter>, k: nat)
    requires k < |voters|
    requires forall i, j :: 0 <= i < j < |voters| ==> voters[i].email != voters[j].email
    ensures FindVoter(voters, voters[k].email) == Some(voters[k])
  {
    if k > 0 {
      assert voters[0].email != voters[k].email;
      UniqueEmailLookup(voters[1..], k - 1);
    }
  }

  /** A registered voter can be found by email afterwards. */
  lemma RegisteredVoterIsFound(db: Database, g: Registration, fault: Option<string>)
    requires Consistent(db)
    requires CreateVoter(db, g, fault).0.Registered?
    ensures var (reply, after) := CreateVoter(db, g, fault);
      && FindVoter(after.voters, g.email).Some?
      && FindVoter(after.voters, g.email).value.voterId == reply.voterId
  {
    var (reply, after) := CreateVoter(db, g, fault);
    CreateVoterPreservesConsistency(db, g, fault);
    if !reply.alreadyRegistered {
      UniqueEmailLookup(after.voters, |db.voters|);
    }
  }

  // ---------------------------------------------------------------------
  // The per-pair state machine: NoVote -> Voted, never back

  /** Neither handler ever takes a (voter, election) pair from Voted back
      to NoVote. */
  lemma VotedIsPermanent(db: Database, b: Ballot, g: Registration, now: int, fault: Option<string>,
                         voterId: int, electionId: int)
    requires HasVoted(db.votes, voterId, electionId)
    ensures HasVoted(CastVote(db, b, now, fault).1.votes, voterId, electionId)
    ensures HasVoted(CreateVoter(db, g, fault).1.votes, voterId, electionId)
  {
    var w :| w in db.votes && w.voterId == voterId && w.electionId == electionId;
    assert w in CastVote(db, b, now, fault).1.votes;
  }
}
