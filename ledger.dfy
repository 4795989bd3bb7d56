/** The vote ledger as api.php runs it: one object holding the four tables
    and the two auto-increment counters, whose handler methods go through
    the same steps as the handlers of api.php and update the tables in
    place. Each handler is proved to produce exactly the reply and the
    tables that the functions of module Tables describe, and to keep the
    tables consistent. */
module Ledger {
  import opened Text
  import opened Php
  import opened Tables
  import opened ResultsQuery

  class Ledger {
    var voters: seq<Voter>
    var elections: map<int, Election>
    var candidates: seq<Candidate>
    var votes: seq<Vote>
    var nextVoterId: int
    var nextVoteId: int

    /** The tables as a value. */
    function Snapshot(): Database
      reads this
    {
      Database(voters, elections, candidates, votes, nextVoterId, nextVoteId)
    }

    ghost predicate Valid()
      reads this
    {
      Consistent(Snapshot())
    }

    /** A ledger with no voters and no votes over elections and candidates
        created elsewhere. */
    constructor (elections: map<int, Election>, candidates: seq<Candidate>)
      requires DistinctCandidateIds(candidates)
      ensures Valid()
      ensures Snapshot() == Database([], elections, candidates, [], 1, 1)
    {
      this.voters := [];
      this.elections := elections;
      this.candidates := candidates;
      this.votes := [];
      this.nextVoterId := 1;
      this.nextVoteId := 1;
    }

    // -------------------------------------------------------------------
    // The storage layer

    /** `SELECT voter_id FROM voters WHERE email = ?`: a scan for the first
        row whose email equals `email` exactly. */
    method FindVoterId(email: string) returns (id: Option<int>)
      ensures id.None? <==> FindVoter(voters, email).None?
      ensures id.Some? ==> id.value == FindVoter(voters, email).value.voterId
    {
      var i := 0;
      while i < |voters|
        invariant 0 <= i <= |voters|
        invariant FindVoter(voters[i..], email) == FindVoter(voters, email)
      {
        if voters[i].email == email {
          return Some(voters[i].voterId);
        }
        assert voters[i..][1..] == voters[i + 1..];
        i := i + 1;
      }
      return None;
    }

    /** The unique key on votes(voter_id, election_id): whether a vote of
        this voter in this election is already stored. */
    method AlreadyVoted(voterId: int, electionId: int) returns (found: bool)
      ensures found <==> HasVoted(votes, voterId, electionId)
    {
      found := false;
      var i := 0;
      while i < |votes|
        invariant 0 <= i <= |votes|
        invariant found <==> exists k :: 0 <= k < i && votes[k].voterId == voterId && votes[k].electionId == electionId
      {
        if votes[i].voterId == voterId && votes[i].electionId == electionId {
          found := true;
        }
        i := i + 1;
      }
      if HasVoted(votes, voterId, electionId) {
        ghost var v :| v in votes && v.voterId == voterId && v.electionId == electionId;
        ghost var k :| 0 <= k < |votes| && votes[k] == v;
      }
    }

    /** `INSERT INTO votes`: one atomic call that adds the row or reports
        the unique-key violation or another storage failure. */
    method InsertVote(voterId: int, electionId: int, candidateId: int, fault: Option<string>)
      returns (outcome: InsertOutcome)
      modifies this
      ensures (outcome, Snapshot()) == InsertVoteRow(old(Snapshot()), voterId, electionId, candidateId, fault)
    {
      var taken := AlreadyVoted(voterId, electionId);
      if taken {
        return Duplicate;
      }
      if fault.Some? {
        return OtherError(fault.value);
      }
      votes := votes + [Vote(nextVoteId, voterId, electionId, candidateId)];
      outcome := Inserted(nextVoteId);
      nextVoteId := nextVoteId + 1;
    }

    /** `INSERT INTO voters`: one atomic call that adds the row or reports
        the unique-email violation or another storage failure. */
    method InsertVoter(fullName: string, email: string, fault: Option<string>)
      returns (outcome: InsertOutcome)
      modifies this
      ensures (outcome, Snapshot()) == InsertVoterRow(old(Snapshot()), fullName, email, fault)
    {
      var existing := FindVoterId(email);
      if existing.Some? {
        return Duplicate;
      }
      if fault.Some? {
        return OtherError(fault.value);
      }
      voters := voters + [Voter(nextVoterId, fullName, email)];
      outcome := Inserted(nextVoterId);
      nextVoterId := nextVoterId + 1;
    }

    // -------------------------------------------------------------------
    // The handlers

    /** create_voter (and its alias register_voter). */
    method CreateVoter(req: Request, fault: Option<string>) returns (reply: RegisterReply)
      requires Valid()
      modifies this
      ensures Valid()
      ensures (reply, Snapshot()) == Tables.CreateVoter(old(Snapshot()), ReadRegistration(req), fault)
    {
      var g := Registration(TrimParam(req, "full_name"), TrimParam(req, "email"));
      CreateVoterPreservesConsistency(Snapshot(), g, fault);
      reply := Register(g, fault);
    }

    /** The body of create_voter once both fields are read and trimmed. */
    method Register(g: Registration, fault: Option<string>) returns (reply: RegisterReply)
      modifies this
      ensures (reply, Snapshot()) == Tables.CreateVoter(old(Snapshot()), g, fault)
    {
      if Falsy(g.fullName) || Falsy(g.email) {
        return RegisterError(400, MSG_VOTER_FIELDS);
      }
      var outcome := InsertVoter(g.fullName, g.email, fault);
      match outcome
      case Inserted(id) =>
        reply := Registered(id, false);
      case Duplicate =>
        // errno 1062: look the existing row up by email
        var existing := FindVoterId(g.email);
        reply := Registered(existing.value, true);
      case OtherError(message) =>
        reply := RegisterError(500, message);
    }

    /** cast_vote: validation, voter lookup, election lookup, window check,
        then one atomic insert whose outcome decides the reply. */
    method CastVote(req: Request, now: int, fault: Option<string>) returns (reply: CastReply)
      requires Valid()
      modifies this
      ensures Valid()
      ensures (reply, Snapshot()) == Tables.CastVote(old(Snapshot()), ReadBallot(req), now, fault)
    {
      var b := Ballot(TrimParam(req, "email"), IntParam(req, "election_id"), IntParam(req, "candidate_id"));
      CastPreservesConsistency(Snapshot(), b, now, fault);
      reply := Cast(b, now, fault);
    }

    /** The body of cast_vote once the three fields are read. */
    method Cast(b: Ballot, now: int, fault: Option<string>) returns (reply: CastReply)
      modifies this
      ensures (reply, Snapshot()) == Tables.CastVote(old(Snapshot()), b, now, fault)
    {
      if Falsy(b.email) || b.electionId == 0 || b.candidateId == 0 {
        return CastError(400, MSG_VOTE_FIELDS);
      }
      var voterId := FindVoterId(b.email);
      if voterId.None? {
        return CastError(400, MSG_NOT_REGISTERED);
      }
      if b.electionId !in elections {
        return CastError(400, MSG_INVALID_ELECTION);
      }
      if !IsOpen(elections[b.electionId], now) {
        return CastError(400, MSG_NOT_OPEN);
      }
      var outcome := InsertVote(voterId.value, b.electionId, b.candidateId, fault);
      match outcome
      case Inserted(id) =>
        reply := VoteCast(id);
      case Duplicate =>
        reply := CastError(409, MSG_ALREADY_VOTED);
      case OtherError(message) =>
        reply := CastError(500, message);
    }

    /** results: election_id through intval(), 0 refused with 400, otherwise
        the candidates of the election with their counts, most votes first
        and ties by name. Reading the results changes nothing. */
    function Results(query: Request): (r: ResultsReply)
      reads this
      ensures IntParam(query, "election_id") == 0 <==> r == ResultsError(400, MSG_ELECTION_REQUIRED)
      ensures IntParam(query, "election_id") != 0 ==> r.Rows?
      ensures r.Rows? ==>
        && Ordered(r.rows)
        && multiset(r.rows) == multiset(CandidateRows(candidates, votes, IntParam(query, "election_id")))
    {
      var e := IntParam(query, "election_id");
      if e == 0 then ResultsError(400, MSG_ELECTION_REQUIRED) else Rows(Tally(Snapshot(), e))
    }
  }

  // ---------------------------------------------------------------------
  // A session: a voter registers, votes once, and is refused twice

  /** E1 is open at all times; E2 ended at time 100. A and B stand in E1,
      C in E2. */
  function Fresh(): Database {
    Database([],
      map[1 := Election("E1", None, None), 2 := Election("E2", None, Some(100))],
      [Candidate(1, 1, "A", None), Candidate(2, 1, "B", None), Candidate(3, 2, "C", None)],
      [], 1, 1)
  }

  lemma FreshCandidatesDistinct()
    ensures DistinctCandidateIds(Fresh().candidates)
  {
    var cands := Fresh().candidates;
    forall i, j | 0 <= i < j < |cands|
      ensures cands[i].candidateId != cands[j].candidateId
    {
      assert cands[i].candidateId == i + 1 && cands[j].candidateId == j + 1;
    }
  }

  function WithVoter(name: string, email: string): Database {
    Fresh().(voters := [Voter(1, name, email)], nextVoterId := 2)
  }

  function AfterFirstVote(name: string, email: string): Database {
    WithVoter(name, email).(votes := [Vote(1, 1, 1, 1)], nextVoteId := 2)
  }

  lemma RegisterFirst(name: string, email: string)
    requires !Falsy(name) && !Falsy(email)
    ensures Tables.CreateVoter(Fresh(), Registration(name, email), None) == (Registered(1, false), WithVoter(name, email))
  {
    assert FindVoter(Fresh().voters, email).None?;
    assert Fresh().voters + [Voter(1, name, email)] == WithVoter(name, email).voters;
  }

  lemma CastForA(name: string, email: string)
    requires !Falsy(email)
    ensures Tables.CastVote(WithVoter(name, email), Ballot(email, 1, 1), 200, None) == (VoteCast(1), AfterFirstVote(name, email))
  {
    var db := WithVoter(name, email);
    assert FindVoter(db.voters, email) == Some(Voter(1, name, email));
    assert !HasVoted(db.votes, 1, 1);
    assert db.votes + [Vote(1, 1, 1, 1)] == AfterFirstVote(name, email).votes;
  }

  lemma CastAgainForB(name: string, email: string)
    requires !Falsy(email)
    ensures Tables.CastVote(AfterFirstVote(name, email), Ballot(email, 1, 2), 200, None)
      == (CastError(409, MSG_ALREADY_VOTED), AfterFirstVote(name, email))
  {
    var db := AfterFirstVote(name, email);
    assert FindVoter(db.voters, email) == Some(Voter(1, name, email));
    assert db.votes[0] in db.votes;
  }

  lemma CastAfterE2Ended(name: string, email: string)
    requires !Falsy(email)
    ensures Tables.CastVote(AfterFirstVote(name, email), Ballot(email, 2, 3), 200, None)
      == (CastError(400, MSG_NOT_OPEN), AfterFirstVote(name, email))
  {
    var db := AfterFirstVote(name, email);
    assert FindVoter(db.voters, email) == Some(Voter(1, name, email));
  }

  lemma TallyAfterFirstVote(name: string, email: string)
    ensures Tally(AfterFirstVote(name, email), 1) == [Row(1, "A", None, 1), Row(2, "B", None, 0)]
  {
    var db := AfterFirstVote(name, email);
    var cands := db.candidates;
    assert CountFor(db.votes, 1) == 1 && CountFor(db.votes, 2) == 0;
    assert cands[1..][1..] == [cands[2]] && cands[1..][1..][1..] == [];
    assert CandidateRows(cands[1..][1..], db.votes, 1) == [];
    assert CandidateRows(cands[1..], db.votes, 1) == [Row(2, "B", None, 0)];
    var rows := CandidateRows(cands, db.votes, 1);
    assert rows == [Row(1, "A", None, 1), Row(2, "B", None, 0)];
    assert rows[1..] == [rows[1]] && rows[1..][1..] == [];
    assert SortRows(rows[1..]) == [rows[1]];
    assert Precedes(rows[0], rows[1]);
  }

  /** The form a client posts to create_voter. */
  function RegistrationForm(fullName: string, email: string): Request {
    map["full_name" := Str(fullName), "email" := Str(email)]
  }

  /** The query string the results page sends: `$_GET` holds the id as
      its decimal spelling. */
  function ResultsForm(electionId: Int64): Request {
    map["election_id" := Str(IntString(electionId))]
  }

  lemma ReadRegistrationForm(fullName: string, email: string)
    ensures ReadRegistration(RegistrationForm(fullName, email)) == Registration(PhpTrim(fullName), PhpTrim(email))
  {
    var form := RegistrationForm(fullName, email);
    assert Coalesce(form, "full_name", Str("")) == Str(fullName);
    assert Coalesce(form, "email", Str("")) == Str(email);
  }

  lemma ReadResultsForm(electionId: Int64)
    ensures IntParam(ResultsForm(electionId), "election_id") == electionId
  {
    assert Coalesce(ResultsForm(electionId), "election_id", Int(0)) == Str(IntString(electionId));
    IntStringRoundTrip(electionId);
  }

  /** A fresh ledger in which one voter has registered through
      create_voter. */
  method LedgerWithVoter(name: string, email: string) returns (ledger: Ledger)
    requires PhpTrim(name) == name && PhpTrim(email) == email
    requires !Falsy(name) && !Falsy(email)
    ensures fresh(ledger) && ledger.Valid()
    ensures ledger.Snapshot() == WithVoter(name, email)
  {
    ReadRegistrationForm(name, email);
    RegisterFirst(name, email);
    FreshCandidatesDistinct();
    ledger := new Ledger(Fresh().elections, Fresh().candidates);
    var registered := ledger.CreateVoter(RegistrationForm(name, email), None);
  }

  /** One request of each handler against a fresh ledger: a voter
      registers, votes for A in the open election E1, is refused a second
      vote for B with 409, the results of E1 list A with one vote before B
      with none, and a vote in E2, which ended at time 100, is refused at
      time 200 with 400. */
  method VoterVotesOnce(name: string, email: string)
    returns (first: CastReply, second: CastReply, results: ResultsReply, late: CastReply)
    requires PhpTrim(name) == name && PhpTrim(email) == email
    requires !Falsy(name) && !Falsy(email)
    ensures first == VoteCast(1)
    ensures second == CastError(409, MSG_ALREADY_VOTED)
    ensures results == Rows([Row(1, "A", None, 1), Row(2, "B", None, 0)])
    ensures late == CastError(400, MSG_NOT_OPEN)
  {
    var ledger := LedgerWithVoter(name, email);
    ReadBallotForm(email, 1, 1);
    CastForA(name, email);
    first := ledger.CastVote(BallotForm(email, 1, 1), 200, None);
    ReadBallotForm(email, 1, 2);
    CastAgainForB(name, email);
    second := ledger.CastVote(BallotForm(email, 1, 2), 200, None);
    ReadResultsForm(1);
    TallyAfterFirstVote(name, email);
    results := ledger.Results(ResultsForm(1));
    ReadBallotForm(email, 2, 3);
    CastAfterE2Ended(name, email);
    late := ledger.CastVote(BallotForm(email, 2, 3), 200, None);
  }
}
