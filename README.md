# Online voting: a verified model of the vote ledger

This project models the core of a small PHP/MySQL online-voting
application.

- The **vote ledger** of `api.php`:
  - `create_voter` and its alias `register_voter`;
  - `cast_vote`, with its ordered checks and one guarded insert;
  - the read-only `results` tally.
- The **result escaping** of `results.js`: `escapeHtml`.
- The **voting page** of `vote.js`:
  - the `validateEmail` regular expression;
  - the guard that decides whether a ballot is sent;
  - the notice shown for each kind of reply.

The ledger's tables live in memory:
- voters;
- elections with optional start and end bounds;
- candidates;
- votes;
- the two auto-increment counters.

Each handler is described twice. Module `Tables` gives it as a pure
function from the tables before a request to the reply and the tables
after it, and proves the handler's promises about that function. Class
`Ledger.Ledger` holds the tables as fields and runs the handler step by
step: lookups as loops, then an insert. Each of its methods is proved to
produce exactly what the function describes, and to keep the tables
consistent.

The schema is not part of the source. The model takes what the handlers'
error handling implies:
- a unique key on `voters.email`;
- a unique key on `votes(voter_id, election_id)`;
- auto-increment ids that start at 1 and are drawn only by successful
  inserts (see "## Left out").

Each INSERT is one atomic call. It either adds the row, reports the
unique-key violation, or reports another storage failure. The other
failure arrives as a `fault` parameter, the way the storage engine would
report it.

Files:
- `text.dfy`: Option and whitespace trimming over a character class.
- `php.dfy`: covers:
  - request values;
  - PHP's `trim`, `intval` and string truthiness;
  - the trimming loop of `get_request_data`;
  - action routing.
- `tables.dfy`: the entities, the consistency invariant, and `cast_vote`
  and `create_voter` as functions.
- `tally.dfy`: the `results` query, meaning the left-join count, the
  ordering, and the sums.
- `ledger.dfy`: the `Ledger` class, and a session run through it.
- `escape.dfy`: `escapeHtml`, and a decoder of the five character
  references it emits.
- `voteform.dfy`: `validateEmail`, the `onVote` guard, and the reply
  notice.

A behaviour of the source that the model makes explicit: `cast_vote` never
checks that the candidate belongs to the election. The results query joins
votes to candidates on `candidate_id` alone. So a ballot for election 1
naming a candidate of election 2 is accepted. It is stored as a vote of
election 1, but it is counted in the results of election 2 only
(`ResultsQuery.CastChangesOnlyTheCandidatesElection`, with a worked
example in `ResultsQuery.CandidateOfAnotherElectionCounts`). When every vote names a
candidate of its own election, the results of an election add up to the
votes cast in it (`ResultsQuery.TallySumMatchesElectionVotes`).

## Model

| member | source | states |
|---|---|---|
| Text.Trim | online_voting/online_voting/api.php:46 | trim drops exactly the leading and trailing run of trimmed characters and keeps the slice between them |
| Text.TrimIdempotent | online_voting/online_voting/api.php:77-78 | trimming an already trimmed value changes nothing |
| Text.TrimKeeps | online_voting/online_voting/api.php:46 | a character outside the trimmed class survives trimming at its shifted position |
| Php.Coalesce | online_voting/online_voting/api.php:219-221 | `??` yields the default for a missing key or an explicit null, and the stored value otherwise |
| Php.PhpTrim | online_voting/online_voting/api.php:77-78 | PHP's trim() result is no longer than its input and neither starts nor ends with one of its six characters |
| Php.TrimParam | online_voting/online_voting/api.php:219 | `trim($data[key] ?? '')` is empty for a missing or null field, the trimmed string for a string field, and never starts or ends with a trimmed character |
| Php.IntParam | online_voting/online_voting/api.php:220-221 | `intval($data[key] ?? 0)` is an int64; it is 0 for a missing or null field, the integer itself for an integer field, and intval of the string for a string field |
| Php.TrimValue | online_voting/online_voting/api.php:46-47 | the request loop trims a string value and copies any other value unchanged; a value stays a string iff it was one |
| Php.StringToInt | online_voting/online_voting/api.php:253 | intval of a string: skip leading white space, read an optional sign and the decimal digits after it, clamp to int64; its properties are stated by Php.IntStringRoundTrip and Php.NoDigitsReadsZero |
| Php.NoDigitsReadsZero | online_voting/online_voting/api.php:220-222 | intval of a string with no digit at all is 0, so such an id is refused as missing |
| Php.MissingFieldIsFalsy | online_voting/online_voting/api.php:219-222 | a missing, null or all-whitespace field reads as the empty string |
| Php.IntStringRoundTrip | online_voting/online_voting/api.php:220-221 | intval of the decimal spelling of any int64 gives that int64 back |
| Php.IntStringFalsy | online_voting/online_voting/api.php:222 | the string form of an integer is falsy exactly when the integer is 0 |
| Php.NormalizeForm | online_voting/online_voting/api.php:43-48 | the foreach keeps every posted key, stores each string value trimmed and copies other values |
| Php.NormalizedTrimParam | online_voting/online_voting/api.php:43-48 | a handler that trims a field again after the loop sees the same value it would have seen without the loop |
| Php.RouteOf | online_voting/online_voting/api.php:64-66 | `register_voter` and `create_voter` reach the same handler with POST; cast_vote needs POST, results needs GET |
| Tables.FindVoter | online_voting/online_voting/api.php:225-229 | the lookup returns a stored voter with that exact email, or none exists |
| Tables.WindowIsClosedInterval | online_voting/online_voting/api.php:239 | an election is open iff each bound that is set is respected; both boundary instants are open; no bounds means always open |
| Tables.InsertVoteRow | online_voting/online_voting/api.php:244-249 | the vote insert reports Duplicate iff the pair has voted and OtherError (with the fault's message) iff it has not and storage fails; a refused insert adds no row; otherwise exactly the new vote is appended under the next id |
| Tables.InsertVoterRow | online_voting/online_voting/api.php:81-88 | the voter insert reports Duplicate iff the email is stored and OtherError (with the fault's message) iff it is not and storage fails; a refused insert adds no row; otherwise exactly the new voter is appended under the next id |
| Tables.ReadBallotForm | online_voting/online_voting/api.php:219-221 | cast_vote reads the posted email trimmed and the two posted ids unchanged |
| Tables.Complete | online_voting/online_voting/api.php:222 | the validation of cast_vote: a non-falsy trimmed email and two non-zero ids; Tables.CastCheckOrder and VoteForm.SentBallotIsComplete state its role |
| Tables.IsOpen | online_voting/online_voting/api.php:239 | the window test of cast_vote; Tables.WindowIsClosedInterval states what it decides |
| Tables.CastVote | online_voting/online_voting/api.php:217-250 | a rejected ballot changes no table and answers 400, 409 or 500 (which of them is stated by Tables.CastFailureIff); a cast appends exactly one vote for the looked-up voter with the next id and changes nothing else |
| Tables.ReadBallot | online_voting/online_voting/api.php:219-221 | a missing or null field reads as the empty email or the id 0; the email never starts or ends with a character trim() strips; both ids are 64-bit integers |
| Tables.CastCheckOrder | online_voting/online_voting/api.php:222-241 | rejections come in the order validation, voter, election, window, with the source's messages |
| Tables.CastSucceedsIff | online_voting/online_voting/api.php:222-249 | a vote is cast iff the ballot is complete, the voter exists, the election exists and is open, the pair has not voted and storage does not fail |
| Tables.CastFailureIff | online_voting/online_voting/api.php:246-249 | past the four checks, 409 is answered iff the voter has already voted in that election (the unique key), and 500 iff they have not and storage fails, carrying the failure's message |
| Tables.RepeatVoteConflicts | online_voting/online_voting/api.php:247-248 | a ballot of a voter who already voted in the election answers 409 whatever the candidate and changes nothing |
| Tables.SecondCastConflicts | online_voting/online_voting/api.php:244-248 | after a successful cast, a second complete ballot with the same email and election answers 409 and changes nothing |
| Tables.CastPreservesConsistency | online_voting/online_voting/api.php:244-248 | cast_vote keeps the invariant: unique ids, unique emails, at most one vote per (voter, election), and each vote's voter and election exist |
| Tables.CreateVoter | online_voting/online_voting/api.php:75-98 | a falsy name or email answers 400; a known email answers the stored id marked already_registered and changes nothing; an unknown email answers the next id, or 500 with the storage failure's message; a new voter is the only change |
| Tables.ReadRegistration | online_voting/online_voting/api.php:77-78 | a missing or null name or email reads as the empty string, and a string field is read trimmed |
| Tables.CreateVoterPreservesConsistency | online_voting/online_voting/api.php:81-88 | create_voter keeps the invariant, in particular unique emails |
| Tables.ReRegisterReturnsSameId | online_voting/online_voting/api.php:86-94 | registering an email again returns the id of the first registration, marked already_registered, and changes nothing |
| Tables.UniqueEmailLookup | online_voting/online_voting/api.php:90-93 | with unique emails, the lookup by a voter's email finds that voter |
| Tables.RegisteredVoterIsFound | online_voting/online_voting/api.php:84-94 | after a successful registration the email looks up to the returned id |
| Tables.VotedIsPermanent | online_voting/online_voting/api.php:244-248 | no handler takes a (voter, election) pair from voted back to not voted |
| ResultsQuery.CountFor | online_voting/online_voting/api.php:256-258 | a candidate's count is at most the number of votes |
| ResultsQuery.CandidateRows | online_voting/online_voting/api.php:255-260 | the grouped rows are exactly the rows of the candidates of the election, each with its count |
| ResultsQuery.NameLeqTotal | online_voting/online_voting/api.php:261 | any two names are comparable in the name order |
| ResultsQuery.NameLeqTransitive | online_voting/online_voting/api.php:261 | the name order is transitive |
| ResultsQuery.PrecedesTotal | online_voting/online_voting/api.php:261 | any two rows are comparable under "more votes first, then by name" |
| ResultsQuery.PrecedesTransitive | online_voting/online_voting/api.php:261 | that row order is transitive |
| ResultsQuery.InsertRow | online_voting/online_voting/api.php:261 | inserting a row adds exactly that row to the multiset |
| ResultsQuery.InsertRowOrdered | online_voting/online_voting/api.php:261 | inserting into an ordered list keeps it ordered |
| ResultsQuery.SortRows | online_voting/online_voting/api.php:261 | the sorted rows are a permutation of the input, in result order |
| ResultsQuery.Tally | online_voting/online_voting/api.php:255-261 | the query's rows are in result order and are a permutation of the grouped rows of the election |
| ResultsQuery.TallyListsEachCandidateOnce | online_voting/online_voting/api.php:255-261 | each candidate of the election appears exactly once with its count, and nothing else appears |
| ResultsQuery.CandidateRowsOnce | online_voting/online_voting/api.php:258-260 | with distinct candidate ids, the grouping yields each candidate's row exactly once |
| ResultsQuery.CountForNone | online_voting/online_voting/api.php:256-258 | a candidate no vote names counts zero |
| ResultsQuery.TallyWithoutVotes | online_voting/online_voting/api.php:256-258 | the left join lists every candidate of an election without votes, each with zero |
| ResultsQuery.SumInsertRow | online_voting/online_voting/api.php:261 | inserting a row adds its votes to the total |
| ResultsQuery.SumSortRows | online_voting/online_voting/api.php:261 | ordering the rows does not change the total |
| ResultsQuery.IdsOf | online_voting/online_voting/api.php:259 | the id set holds exactly the ids of the election's candidates |
| ResultsQuery.SumCandidateRows | online_voting/online_voting/api.php:256-260 | the grouped counts add up to the votes naming a candidate of the election |
| ResultsQuery.TallySumCountsVotesNamingItsCandidates | online_voting/online_voting/api.php:256-261 | the results of an election add up to the votes naming its candidates, whatever election they were cast in |
| ResultsQuery.TallySumMatchesElectionVotes | online_voting/online_voting/api.php:256-259 | when every vote names a candidate of its own election, the results add up to the votes cast in the election |
| ResultsQuery.CastAddsOneToItsCandidate | online_voting/online_voting/api.php:244-246 | a successful cast adds one to the count of the ballot's candidate and leaves every other count alone |
| ResultsQuery.RefusedCastKeepsTally | online_voting/online_voting/api.php:222-249 | a refused cast leaves every election's results as they were |
| ResultsQuery.CandidateRowsSameCounts | online_voting/online_voting/api.php:256-260 | the grouped rows of an election depend only on the counts of its own candidates |
| ResultsQuery.CastChangesOnlyTheCandidatesElection | online_voting/online_voting/api.php:244-258 | after a successful cast, the results of every election that does not own the ballot's candidate are unchanged, whatever election the ballot named |
| ResultsQuery.CandidateOfAnotherElectionCounts | online_voting/online_voting/api.php:244-245 | an example: on a ledger with two open elections, a ballot for election 1 naming election 2's candidate is accepted, stored as a vote of election 1, and counted only in election 2's results |
| Ledger.Ledger.FindVoterId | online_voting/online_voting/api.php:225-228 | the scan finds an id iff a voter with that email is stored, and returns the first such voter's id |
| Ledger.Ledger.AlreadyVoted | online_voting/online_voting/api.php:247-248 | the scan reports true iff the pair already has a vote |
| Ledger.Ledger.InsertVote | online_voting/online_voting/api.php:244-249 | the in-place insert yields the outcome and tables of the vote insert |
| Ledger.Ledger.InsertVoter | online_voting/online_voting/api.php:81-88 | the in-place insert yields the outcome and tables of the voter insert |
| Ledger.Ledger.CreateVoter | online_voting/online_voting/api.php:75-98 | the handler keeps the ledger consistent and produces exactly the reply and tables of Tables.CreateVoter for the request |
| Ledger.Ledger.Register | online_voting/online_voting/api.php:79-97 | validation, insert and duplicate lookup produce the reply and tables of Tables.CreateVoter |
| Ledger.Ledger.CastVote | online_voting/online_voting/api.php:217-250 | the handler keeps the ledger consistent and produces exactly the reply and tables of Tables.CastVote for the request |
| Ledger.Ledger.Cast | online_voting/online_voting/api.php:222-249 | the four checks and the insert, run in place, produce the reply and tables of Tables.CastVote |
| Ledger.Ledger.Results | online_voting/online_voting/api.php:252-267 | election_id 0 after intval, and only that, answers 400; otherwise the rows are ordered and are a permutation of the election's candidate rows |
| Ledger.ReadRegistrationForm | online_voting/online_voting/api.php:77-78 | create_voter reads the posted name and email trimmed |
| Ledger.ReadResultsForm | online_voting/online_voting/api.php:253 | results reads back, through intval, the id the page sends as a decimal string in the query |
| Ledger.RegisterFirst | online_voting/online_voting/api.php:81-84 | the first registration in a fresh ledger gets id 1 |
| Ledger.CastForA | online_voting/online_voting/api.php:244-246 | the voter's first ballot in an open election is stored as vote 1 |
| Ledger.CastAgainForB | online_voting/online_voting/api.php:247-248 | a second ballot in the same election, for another candidate, answers 409 |
| Ledger.CastAfterE2Ended | online_voting/online_voting/api.php:239-240 | a ballot after an election's end answers 400 "election not open" |
| Ledger.TallyAfterFirstVote | online_voting/online_voting/api.php:255-261 | after one vote for A, the results list A with 1 before B with 0 |
| Ledger.LedgerWithVoter | online_voting/online_voting/api.php:75-98 | a fresh ledger after one create_voter request holds exactly that voter |
| Ledger.VoterVotesOnce | online_voting/online_voting/api.php:217-267 | through the class: vote 1 is cast, the repeat answers 409, the results show A 1 and B 0, and a late ballot answers 400 |
| HtmlEscape.Entity | online_voting/online_voting/results.js:44 | each replacement is a character reference starting with `&` and ending with `;`, with no special character after its `&` |
| HtmlEscape.EscapeChar | online_voting/online_voting/results.js:44 | a non-special character is copied unchanged |
| HtmlEscape.Escape | online_voting/online_voting/results.js:44 | the output is at least as long as the input and holds none of `<`, `>`, `"`, `'` |
| HtmlEscape.EscapeHtml | online_voting/online_voting/results.js:44 | a missing value renders as `''`; the output holds no markup character; decoding it gives the input back |
| HtmlEscape.UnescapeAfter | online_voting/online_voting/results.js:44 | decoding one escaped character followed by any text yields that character and then the decoded text |
| HtmlEscape.UnescapeEscape | online_voting/online_voting/results.js:44 | decoding the five references undoes escaping exactly |
| HtmlEscape.EscapeAppend | online_voting/online_voting/results.js:44 | escaping works character by character, in order: it distributes over concatenation |
| HtmlEscape.AmpersandOpensReference | online_voting/online_voting/results.js:44 | every `&` in the output opens one of the five references |
| HtmlEscape.EscapeChangesOnlySpecials | online_voting/online_voting/results.js:44 | the output equals the input iff the input has no special character; otherwise it is strictly longer |
| VoteForm.JsTrim | online_voting/online_voting/vote.js:57 | `trim()` result is no longer than its input and neither starts nor ends with JavaScript white space |
| VoteForm.ValidateEmail | online_voting/online_voting/vote.js:84 | the regular expression read literally; VoteForm.ValidateEmailCharacterised states what it accepts |
| VoteForm.ValidImpliesWellFormed | online_voting/online_voting/vote.js:84 | an accepted address has no white space, exactly one `@` with something before it, and a dot strictly inside the domain |
| VoteForm.WellFormedImpliesValid | online_voting/online_voting/vote.js:84 | every address with those properties is accepted |
| VoteForm.ValidateEmailCharacterised | online_voting/online_voting/vote.js:84 | the regular expression accepts exactly the well-formed addresses |
| VoteForm.AcceptsLeadingDotDomain | online_voting/online_voting/vote.js:84 | `a@..c` is accepted: the domain may start with a dot |
| VoteForm.RejectsDotRightAfterAt | online_voting/online_voting/vote.js:84 | `a@.c` is refused |
| VoteForm.RejectsTwoAts | online_voting/online_voting/vote.js:84 | `a@b@c.d` is refused |
| VoteForm.GuardVote | online_voting/online_voting/vote.js:57-62 | a ballot is sent iff the trimmed email validates and both numbers are non-zero and not NaN; otherwise the fixed message is shown |
| VoteForm.ValidEmailSurvivesPhpTrim | online_voting/online_voting/vote.js:57-60 | an address the page accepts is not falsy after the server's trim |
| VoteForm.SentBallotIsComplete | online_voting/online_voting/vote.js:57-67 | a ballot the page sends with whole-number ids passes cast_vote's validation |
| VoteForm.ErrorText | online_voting/online_voting/vote.js:75-77 | `j.error` is shown when present and non-empty, otherwise the fallback |
| VoteForm.ShowReply | online_voting/online_voting/vote.js:70-81 | the form is reset iff the status is 2xx; 409 shows the already-voted text; other failures show the failure text; a network or JSON failure shows the network message |
| VoteForm.ShowCastReply | online_voting/online_voting/vote.js:70-78 | against cast_vote the form is reset iff a vote was cast, a repeat shows the server's already-voted message, and a 400 shows the server's error |
| VoteForm.Respond | online_voting/online_voting/api.php:246-249 | a cast answers 200 with no error; a refusal answers its own status with its message as `error` |

## Left out

- db.php and its connection handling: pure I/O. Each handler works on the in-memory tables of one ledger.
- The HTML pages, register.js, and the DOM and fetch code of vote.js and results.js (loading the elections and candidates, building the results table): markup and DOM updates.
- CORS headers, the OPTIONS preflight, `json_response` and `exit`: HTTP transport. A reply is a datatype value.
- The JSON and `parse_str` branches of `get_request_data`: they call library parsers. A request is an already-decoded map from field names to values, which holds a string, a 64-bit integer or null. JSON floats, booleans and arrays are not modelled.
- The list, update and delete handlers, `create_election` and `create_candidate`: single SQL calls whose effects depend on a schema that is not shown. Elections and candidates are passed to the ledger's constructor.
- Concurrency: requests run one at a time. The ledger's scan-then-append stands in for the storage engine's atomic insert with its unique key, and the pure function describes that insert as a single step.
- The clock: `now` is a parameter. Times are integers, standing in for the fixed-width `Y-m-d H:i:s` strings the source compares.
- `created_at`, `cast_at`, an election's description and a candidate's bio: no handler in the model reads them.
- The mysqli error-reporting mode: db.php does not set it. The model follows the handlers' errno branches, which run when `execute()` returns false. Where mysqli throws instead (PHP 8.1 and later by default), a duplicate key is answered by the generic catch at api.php:270-272 with status 500, not with 409 or already_registered.
- The catch-all exception handler (api.php:270-272) for other failures: a storage failure arrives as the `fault` parameter and answers 500 with its message.
- Ledger.Ledger.CreateVoter: returns the existing voter id as an integer. mysqli may deliver it as a string in the JSON reply.
- Tables.FindVoter: matches emails exactly. Under MySQL's default case-insensitive collation, emails differing only in letter case or trailing spaces would also match, both in the lookup and in the unique key.
- ResultsQuery.NameLeq: orders names by character code, standing in for the collation of `ORDER BY c.name`. Rows with equal counts and equal names come in an unspecified order: Ledger.Ledger.Results promises only an ordered permutation.
- Php.StringToInt: reads an optional sign and decimal digits after leading white space, saturating at the int64 bounds. Exponent and other numeric forms that intval also accepts are not modelled.
- VoteForm.GuardVote: takes `Number(...)` of the two select boxes as a parameter, either NaN or a finite number. The string-to-number conversion itself is not modelled.
- Strings are sequences of Dafny characters. UTF-16 surrogate pairs in JavaScript and bytes in PHP are not distinguished.
- Tables.InsertVoteRow: a refused insert leaves the counter alone, so the model's ids are consecutive. Under InnoDB, a failed INSERT (duplicate key or other error) still uses up an AUTO_INCREMENT value, so the source's next id can skip. The model promises a fresh id above every stored one, not the exact gap.
- Tables.InsertVoterRow: the same holds for voter ids: after an already_registered reply or a 500, the source's next voter id may skip one; the model's does not.
- PHP's `!$email` is also true for the string "0". The model keeps this, so a name or email of "0" is refused like an empty one.
