/** The `results` query of api.php: every candidate of the election, left
    joined with the votes that name it, counted, and ordered by count
    descending and then by name. */
module ResultsQuery {
  import opened Text
  import opened Tables

  /** One result row: candidate_id, name, party and votes. */
  datatype Row = Row(candidateId: int, name: string, party: Option<string>, votes: nat)

  /** COUNT(v.vote_id) for one candidate: the join is on candidate_id
      alone, so every vote naming the candidate counts, whatever election
      the vote was cast in. */
  function CountFor(votes: seq<Vote>, candidateId: int): (n: nat)
    ensures n <= |votes|
  {
    if votes == [] then 0
    else
      var last := votes[|votes| - 1];
      CountFor(votes[..|votes| - 1], candidateId) + (if last.candidateId == candidateId then 1 else 0)
  }

  function RowOf(c: Candidate, votes: seq<Vote>): Row {
    Row(c.candidateId, c.name, c.party, CountFor(votes, c.candidateId))
  }

  /** The grouped rows before ordering, in table order: one per candidate
      of election `e`, including candidates with no votes. */
  function CandidateRows(cands: seq<Candidate>, votes: seq<Vote>, e: int): (rows: seq<Row>)
    ensures forall row :: row in rows <==> exists c :: c in cands && c.electionId == e && row == RowOf(c, votes)
  {
    if cands == [] then []
    else
      var rest := CandidateRows(cands[1..], votes, e);
      var head := if cands[0].electionId == e then [RowOf(cands[0], votes)] else [];
      assert forall c :: c in cands ==> c == cands[0] || c in cands[1..];
      head + rest
  }

  // ---------------------------------------------------------------------
  // ORDER BY votes DESC, c.name

  /** The name order: lexicographic by character code, standing in for the
      database collation. */
  predicate NameLeq(a: string, b: string) {
    a == [] || (b != [] && (a[0] < b[0] || (a[0] == b[0] && NameLeq(a[1..], b[1..]))))
  }

  lemma {:induction false} NameLeqTotal(a: string, b: string)
    ensures NameLeq(a, b) || NameLeq(b, a)
  {
    if a != [] && b != [] && a[0] == b[0] {
      NameLeqTotal(a[1..], b[1..]);
    }
  }

  lemma {:induction false} NameLeqTransitive(a: string, b: string, c: string)
    requires NameLeq(a, b) && NameLeq(b, c)
    ensures NameLeq(a, c)
  {
    if a != [] && a[0] == b[0] && b[0] == c[0] {
      NameLeqTransitive(a[1..], b[1..], c[1..]);
    }
  }

  /** Row `x` may be listed before row `y`. */
  predicate Precedes(x: Row, y: Row) {
    x.votes > y.votes || (x.votes == y.votes && NameLeq(x.name, y.name))
  }

  lemma PrecedesTotal(x: Row, y: Row)
    ensures Precedes(x, y) || Precedes(y, x)
  {
    NameLeqTotal(x.name, y.name);
  }

  lemma PrecedesTransitive(x: Row, y: Row, z: Row)
    requires Precedes(x, y) && Precedes(y, z)
    ensures Precedes(x, z)
  {
    if x.votes == y.votes == z.votes {
      NameLeqTransitive(x.name, y.name, z.name);
    }
  }

  predicate Ordered(rows: seq<Row>) {
    forall i, j :: 0 <= i < j < |rows| ==> Precedes(rows[i], rows[j])
  }

  /** Inserts `r` into a sequence of rows before the first row it may
      precede. */
  function InsertRow(r: Row, rows: seq<Row>): (s: seq<Row>)
    ensures multiset(s) == multiset(rows) + multiset{r}
  {
    if rows == [] || Precedes(r, rows[0]) then [r] + rows
    else
      assert rows == [rows[0]] + rows[1..];
      [rows[0]] + InsertRow(r, rows[1..])
  }

  /** A row that precedes every row of an ordered list can head it. */
  lemma PrependOrdered(x: Row, rows: seq<Row>)
    requires Ordered(rows)
    requires forall k :: 0 <= k < |rows| ==> Precedes(x, rows[k])
    ensures Ordered([x] + rows)
  {
    var s := [x] + rows;
    forall i, j | 0 <= i < j < |s|
      ensures Precedes(s[i], s[j])
    {
      assert s[j] == rows[j - 1];
      if i > 0 { assert s[i] == rows[i - 1]; }
    }
  }

  /** Inserting into the tail keeps the head first when the new row does
      not precede it. */
  lemma HeadPrecedesInserted(r: Row, rows: seq<Row>)
    requires rows != [] && Ordered(rows) && Precedes(rows[0], r)
    ensures forall k :: 0 <= k < |InsertRow(r, rows[1..])| ==> Precedes(rows[0], InsertRow(r, rows[1..])[k])
  {
    var tail := InsertRow(r, rows[1..]);
    forall k | 0 <= k < |tail|
      ensures Precedes(rows[0], tail[k])
    {
      var x := tail[k];
      assert x in multiset(tail);
      if x != r {
        assert x in multiset(rows[1..]);
        var m :| 0 <= m < |rows[1..]| && rows[1..][m] == x;
        assert rows[m + 1] == x;
      }
    }
  }

  lemma {:induction false} InsertRowOrdered(r: Row, rows: seq<Row>)
    requires Ordered(rows)
    ensures Ordered(InsertRow(r, rows))
  {
    if rows == [] {
    } else if Precedes(r, rows[0]) {
      forall j | 0 <= j < |rows|
        ensures Precedes(r, rows[j])
      {
        if j > 0 { PrecedesTransitive(r, rows[0], rows[j]); }
      }
      PrependOrdered(r, rows);
    } else {
      assert Ordered(rows[1..]) by {
        forall i, j | 0 <= i < j < |rows[1..]|
          ensures Precedes(rows[1..][i], rows[1..][j])
        {
          assert rows[1..][i] == rows[i + 1] && rows[1..][j] == rows[j + 1];
        }
      }
      InsertRowOrdered(r, rows[1..]);
      PrecedesTotal(r, rows[0]);
      HeadPrecedesInserted(r, rows);
      PrependOrdered(rows[0], InsertRow(r, rows[1..]));
    }
  }

  /** A permutation of `rows` in result order. */
  function SortRows(rows: seq<Row>): (s: seq<Row>)
    ensures multiset(s) == multiset(rows)
    ensures Ordered(s)
  {
    if rows == [] then []
    else
      assert rows == [rows[0]] + rows[1..];
      InsertRowOrdered(rows[0], SortRows(rows[1..]));
      InsertRow(rows[0], SortRows(rows[1..]))
  }

  /** The rows the results query returns for election `e`. */
  function Tally(db: Database, e: int): (rows: seq<Row>)
    ensures Ordered(rows)
    ensures multiset(rows) == multiset(CandidateRows(db.candidates, db.votes, e))
  {
    SortRows(CandidateRows(db.candidates, db.votes, e))
  }

  // ---------------------------------------------------------------------
  // What the tally contains

  /** Each candidate of the election appears exactly once, with the number
      of votes naming it (zero when there are none), and nothing else
      appears. */
  lemma TallyListsEachCandidateOnce(db: Database, e: int)
    requires DistinctCandidateIds(db.candidates)
    ensures forall c :: c in db.candidates && c.electionId == e ==>
      multiset(Tally(db, e))[RowOf(c, db.votes)] == 1
    ensures forall row :: row in Tally(db, e) <==>
      exists c :: c in db.candidates && c.electionId == e && row == RowOf(c, db.votes)
  {
    var rows := CandidateRows(db.candidates, db.votes, e);
    forall c | c in db.candidates && c.electionId == e
      ensures multiset(rows)[RowOf(c, db.votes)] == 1
    {
      CandidateRowsOnce(db.candidates, db.votes, e, c);
    }
    forall row
      ensures row in Tally(db, e) <==> row in rows
    {
      assert row in Tally(db, e) <==> row in multiset(Tally(db, e));
    }
  }

  lemma {:induction false} CandidateRowsOnce(cands: seq<Candidate>, votes: seq<Vote>, e: int, c: Candidate)
    requires DistinctCandidateIds(cands)
    requires c in cands && c.electionId == e
    ensures multiset(CandidateRows(cands, votes, e))[RowOf(c, votes)] == 1
  {
    var rest := CandidateRows(cands[1..], votes, e);
    var head := if cands[0].electionId == e then [RowOf(cands[0], votes)] else [];
    assert CandidateRows(cands, votes, e) == head + rest;
    assert DistinctCandidateIds(cands[1..]) by {
      forall i, j | 0 <= i < j < |cands| - 1
        ensures cands[1..][i].candidateId != cands[1..][j].candidateId
      {
        assert cands[i + 1].candidateId != cands[j + 1].candidateId;
      }
    }
    if c == cands[0] {
      assert RowOf(c, votes) !in rest;
    } else {
      var k :| 0 <= k < |cands| && cands[k] == c;
      assert k > 0;
      assert cands[0].candidateId != cands[k].candidateId;
      CandidateRowsOnce(cands[1..], votes, e, c);
    }
  }

  lemma {:induction false} CountForNone(votes: seq<Vote>, x: int)
    requires forall v :: v in votes ==> v.candidateId != x
    ensures CountFor(votes, x) == 0
  {
    if votes != [] {
      assert votes[|votes| - 1] in votes;
      CountForNone(votes[..|votes| - 1], x);
    }
  }

  /** An election nobody has voted for still lists every one of its
      candidates, each with zero votes. */
  lemma TallyWithoutVotes(db: Database, e: int)
    requires DistinctCandidateIds(db.candidates)
    requires forall v :: v in db.votes ==> v.candidateId !in IdsOf(db.candidates, e)
    ensures forall row :: row in Tally(db, e) ==> row.votes == 0
    ensures forall c :: c in db.candidates && c.electionId == e ==>
      Row(c.candidateId, c.name, c.party, 0) in Tally(db, e)
  {
    TallyListsEachCandidateOnce(db, e);
    forall c | c in db.candidates && c.electionId == e
      ensures CountFor(db.votes, c.candidateId) == 0
    {
      CountForNone(db.votes, c.candidateId);
    }
  }

  // ---------------------------------------------------------------------
  // Sums

  function SumVotes(rows: seq<Row>): (n: nat) {
    if rows == [] then 0 else rows[0].votes + SumVotes(rows[1..])
  }

  lemma {:induction false} SumInsertRow(r: Row, rows: seq<Row>)
    ensures SumVotes(InsertRow(r, rows)) == r.votes + SumVotes(rows)
  {
    if rows != [] && !Precedes(r, rows[0]) {
      SumInsertRow(r, rows[1..]);
      assert (InsertRow(r, rows))[1..] == InsertRow(r, rows[1..]);
    }
  }

  lemma {:induction false} SumSortRows(rows: seq<Row>)
    ensures SumVotes(SortRows(rows)) == SumVotes(rows)
  {
    if rows != [] {
      SumSortRows(rows[1..]);
      SumInsertRow(rows[0], SortRows(rows[1..]));
    }
  }

  /** The ids of the candidates of election `e`. */
  function IdsOf(cands: seq<Candidate>, e: int): (ids: set<int>)
    ensures forall x :: x in ids <==> exists c :: c in cands && c.electionId == e && c.candidateId == x
  {
    if cands == [] then {}
    else
      assert forall c :: c in cands ==> c == cands[0] || c in cands[1..];
      (if cands[0].electionId == e then {cands[0].candidateId} else {}) + IdsOf(cands[1..], e)
  }

  /** The votes whose candidate_id is in `ids`. */
  function CountNaming(votes: seq<Vote>, ids: set<int>): (n: nat)
    ensures n <= |votes|
  {
    if votes == [] then 0
    else
      var last := votes[|votes| - 1];
      CountNaming(votes[..|votes| - 1], ids) + (if last.candidateId in ids then 1 else 0)
  }

  /** The votes cast in election `e`. */
  function CountInElection(votes: seq<Vote>, e: int): (n: nat)
    ensures n <= |votes|
  {
    if votes == [] then 0
    else
      var last := votes[|votes| - 1];
      CountInElection(votes[..|votes| - 1], e) + (if last.electionId == e then 1 else 0)
  }

  lemma {:induction false} CountNamingAdd(votes: seq<Vote>, ids: set<int>, x: int)
    requires x !in ids
    ensures CountNaming(votes, ids + {x}) == CountNaming(votes, ids) + CountFor(votes, x)
  {
    if votes != [] {
      CountNamingAdd(votes[..|votes| - 1], ids, x);
    }
  }

  lemma {:induction false} CountNamingNone(votes: seq<Vote>)
    ensures CountNaming(votes, {}) == 0
  {
    if votes != [] {
      CountNamingNone(votes[..|votes| - 1]);
    }
  }

  lemma {:induction false} SumCandidateRows(cands: seq<Candidate>, votes: seq<Vote>, e: int)
    requires DistinctCandidateIds(cands)
    ensures SumVotes(CandidateRows(cands, votes, e)) == CountNaming(votes, IdsOf(cands, e))
  {
    if cands == [] {
      CountNamingNone(votes);
    } else {
      var c := cands[0];
      assert DistinctCandidateIds(cands[1..]) by {
        forall i, j | 0 <= i < j < |cands| - 1
          ensures cands[1..][i].candidateId != cands[1..][j].candidateId
        {
          assert cands[i + 1].candidateId != cands[j + 1].candidateId;
        }
      }
      SumCandidateRows(cands[1..], votes, e);
      var rest := CandidateRows(cands[1..], votes, e);
      if c.electionId == e {
        assert c.candidateId !in IdsOf(cands[1..], e);
        CountNamingAdd(votes, IdsOf(cands[1..], e), c.candidateId);
        assert IdsOf(cands, e) == IdsOf(cands[1..], e) + {c.candidateId};
        assert CandidateRows(cands, votes, e) == [RowOf(c, votes)] + rest;
      } else {
        assert IdsOf(cands, e) == IdsOf(cands[1..], e);
        assert CandidateRows(cands, votes, e) == rest;
      }
    }
  }

  /** The votes in the tally of `e` add up to the number of votes naming a
      candidate of `e`, whatever election those votes were cast in. */
  lemma TallySumCountsVotesNamingItsCandidates(db: Database, e: int)
    requires DistinctCandidateIds(db.candidates)
    ensures SumVotes(Tally(db, e)) == CountNaming(db.votes, IdsOf(db.candidates, e))
  {
    SumSortRows(CandidateRows(db.candidates, db.votes, e));
    SumCandidateRows(db.candidates, db.votes, e);
  }

  /** Every vote names a candidate of the election it was cast in. The
      ledger does not enforce this; see CandidateOfAnotherElectionCounts. */
  predicate VotesNameOwnCandidates(db: Database) {
    forall v :: v in db.votes ==>
      exists c :: c in db.candidates && c.candidateId == v.candidateId && c.electionId == v.electionId
  }

  lemma {:induction false} CountNamingIsCountInElection(votes: seq<Vote>, ids: set<int>, e: int)
    requires forall v :: v in votes ==> (v.candidateId in ids <==> v.electionId == e)
    ensures CountNaming(votes, ids) == CountInElection(votes, e)
  {
    if votes != [] {
      assert votes[|votes| - 1] in votes;
      CountNamingIsCountInElection(votes[..|votes| - 1], ids, e);
    }
  }

  /** When every vote names a candidate of its own election, the tally of
      `e` adds up to the number of votes cast in `e`. */
  lemma TallySumMatchesElectionVotes(db: Database, e: int)
    requires DistinctCandidateIds(db.candidates)
    requires VotesNameOwnCandidates(db)
    ensures SumVotes(Tally(db, e)) == CountInElection(db.votes, e)
  {
    var ids := IdsOf(db.candidates, e);
    forall v | v in db.votes
      ensures v.candidateId in ids <==> v.electionId == e
    {
      var c :| c in db.candidates && c.candidateId == v.candidateId && c.electionId == v.electionId;
      if v.candidateId in ids {
        var d :| d in db.candidates && d.electionId == e && d.candidateId == v.candidateId;
        var i :| 0 <= i < |db.candidates| && db.candidates[i] == c;
        var j :| 0 <= j < |db.candidates| && db.candidates[j] == d;
        assert i == j;
      }
    }
    TallySumCountsVotesNamingItsCandidates(db, e);
    CountNamingIsCountInElection(db.votes, ids, e);
  }

  // ---------------------------------------------------------------------
  // The tally and cast_vote

  /** A successful cast adds one to the count of the ballot's candidate
      and leaves every other count as it was. */
  lemma CastAddsOneToItsCandidate(db: Database, b: Ballot, now: int, fault: Option<string>, x: int)
    requires CastVote(db, b, now, fault).0.VoteCast?
    ensures CountFor(CastVote(db, b, now, fault).1.votes, x) ==
      CountFor(db.votes, x) + (if x == b.candidateId then 1 else 0)
  {
    var after := CastVote(db, b, now, fault).1;
    assert after.votes[..|after.votes| - 1] == db.votes;
  }

  /** A refused cast leaves every tally as it was. */
  lemma RefusedCastKeepsTally(db: Database, b: Ballot, now: int, fault: Option<string>, e: int)
    requires CastVote(db, b, now, fault).0.CastError?
    ensures Tally(CastVote(db, b, now, fault).1, e) == Tally(db, e)
  {
  }

  /** The grouped rows depend only on the counts of the election's own
      candidates. */
  lemma {:induction false} CandidateRowsSameCounts(cands: seq<Candidate>, before: seq<Vote>, after: seq<Vote>, e: int)
    requires forall c :: c in cands && c.electionId == e ==>
      CountFor(after, c.candidateId) == CountFor(before, c.candidateId)
    ensures CandidateRows(cands, after, e) == CandidateRows(cands, before, e)
  {
    if cands != [] {
      assert forall c :: c in cands[1..] ==> c in cands;
      CandidateRowsSameCounts(cands[1..], before, after, e);
      assert cands[0] in cands;
    }
  }

  /** A successful cast changes the results of exactly those elections
      that own the ballot's candidate, which need not be the election the
      ballot was cast in: every other election's results stay as they
      were. */
  lemma CastChangesOnlyTheCandidatesElection(db: Database, b: Ballot, now: int, fault: Option<string>, e: int)
    requires CastVote(db, b, now, fault).0.VoteCast?
    requires b.candidateId !in IdsOf(db.candidates, e)
    ensures Tally(CastVote(db, b, now, fault).1, e) == Tally(db, e)
  {
    var after := CastVote(db, b, now, fault).1;
    forall c | c in db.candidates && c.electionId == e
      ensures CountFor(after.votes, c.candidateId) == CountFor(db.votes, c.candidateId)
    {
      CastAddsOneToItsCandidate(db, b, now, fault, c.candidateId);
    }
    CandidateRowsSameCounts(db.candidates, db.votes, after.votes, e);
  }

  /** Two open elections with one candidate each, and one registered voter
      who has not voted. */
  function TwoElections(): Database {
    Database(
      [Voter(1, "Ann", "ann@x.io")],
      map[1 := Election("E1", None, None), 2 := Election("E2", None, None)],
      [Candidate(10, 1, "A", None), Candidate(20, 2, "B", None)],
      [], 2, 1)
  }

  /** A vote cast in election 1 for the candidate of election 2 is
      accepted, counted as a vote of election 1, and shows up in the
      results of election 2 only. */
  lemma CandidateOfAnotherElectionCounts()
    ensures var (reply, after) := CastVote(TwoElections(), Ballot("ann@x.io", 1, 20), 0, None);
      && reply == VoteCast(1)
      && CountInElection(after.votes, 1) == 1
      && Tally(after, 1) == [Row(10, "A", None, 0)]
      && Tally(after, 2) == [Row(20, "B", None, 1)]
  {
    var db := TwoElections();
    assert FindVoter(db.voters, "ann@x.io") == Some(Voter(1, "Ann", "ann@x.io"));
    assert IsOpen(db.elections[1], 0);
    assert Complete(Ballot("ann@x.io", 1, 20));
    assert !HasVoted(db.votes, 1, 1);
    var after := db.(votes := [Vote(1, 1, 1, 20)], nextVoteId := 2);
    assert db.votes + [Vote(1, 1, 1, 20)] == after.votes;
    assert InsertVoteRow(db, 1, 1, 20, None) == (Inserted(1), after);
    assert CastVote(db, Ballot("ann@x.io", 1, 20), 0, None) == (VoteCast(1), after);
    assert CountFor(after.votes, 10) == 0 && CountFor(after.votes, 20) == 1;
    var cands := after.candidates;
    assert cands[1..] == [Candidate(20, 2, "B", None)] && cands[1..][1..] == [];
    assert CandidateRows(cands, after.votes, 1) == [Row(10, "A", None, 0)];
    assert CandidateRows(cands, after.votes, 2) == [Row(20, "B", None, 1)];
  }

  // ---------------------------------------------------------------------
  // The results handler

  const MSG_ELECTION_REQUIRED := "election_id required"

  datatype ResultsReply = Rows(rows: seq<Row>) | ResultsError(status: int, error: string)
}
