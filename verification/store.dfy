/** The three relations the application keeps in SQLite (Elections, Candidates,
    Votes) and the statements the rest of the application issues against them.
    Each statement is a function from the tables before it to the tables after
    it; `Valid` is what the schema's keys and foreign keys, together with the
    way the application writes rows, keep true of every reachable database. */
module Store {

  datatype Option<T> = None | Some(value: T)

  /** The constraint failures sqlite3 reports as IntegrityError. */
  datatype DbError = ForeignKeyViolation | UniqueViolation

  datatype Result<T> = Ok(value: T) | Err(error: DbError)

  datatype Election = Election(id: int, name: string, adminHash: string)

  /** A row of Candidates; `symbolPath` is NULL (`None`) only for the NOTA row. */
  datatype Candidate = Candidate(id: int, electionId: int, name: string, symbolPath: Option<string>, isNota: bool)

  /** A row of Votes; `timestamp` is the value CURRENT_TIMESTAMP gave it. */
  datatype Vote = Vote(id: int, electionId: int, candidateId: int, timestamp: int)

  /** The rows of each relation in rowid order, and the next id each
      AUTOINCREMENT key will hand out. */
  datatype Tables = Tables(
    elections: seq<Election>,
    candidates: seq<Candidate>,
    votes: seq<Vote>,
    nextElectionId: int,
    nextCandidateId: int,
    nextVoteId: int)

  const Empty := Tables([], [], [], 1, 1, 1)

  /** The shared database handle: every component reads and writes the same tables. */
  class Database {
    var tables: Tables

    constructor ()
      ensures tables == Empty && Valid(tables)
    {
      tables := Empty;
    }
  }

  // ---------------------------------------------------------------------------
  // Sequences of rows

  /** The rows of `s` that `keep` accepts, in their original order (a WHERE clause). */
  function Filter<T(!new)>(s: seq<T>, keep: T -> bool): (r: seq<T>)
    ensures |r| <= |s|
    ensures forall x :: x in r <==> x in s && keep(x)
    decreases |s|
  {
    if s == [] then []
    else Filter(s[..|s| - 1], keep) + (if keep(s[|s| - 1]) then [s[|s| - 1]] else [])
  }

  lemma FilterAppend<T(!new)>(s: seq<T>, x: T, keep: T -> bool)
    ensures Filter(s + [x], keep) == Filter(s, keep) + (if keep(x) then [x] else [])
  {
    assert (s + [x])[..|s|] == s;
  }

  /** Filtering twice is filtering once by the stronger condition. */
  lemma {:induction false} FilterFilter<T(!new)>(s: seq<T>, outer: T -> bool, inner: T -> bool)
    requires forall x :: x in s && inner(x) ==> outer(x)
    ensures Filter(Filter(s, outer), inner) == Filter(s, inner)
    decreases |s|
  {
    if s != [] {
      var init, last := s[..|s| - 1], s[|s| - 1];
      assert s == init + [last];
      assert last in s;
      FilterFilter(init, outer, inner);
      FilterAppend(init, last, outer);
      FilterAppend(init, last, inner);
      if outer(last) {
        FilterAppend(Filter(init, outer), last, inner);
        assert Filter(s, outer) == Filter(init, outer) + [last];
      } else {
        assert !inner(last);
        assert Filter(s, outer) == Filter(init, outer);
      }
    }
  }

  /** Two conditions that agree on every row of `s` select the same rows. */
  lemma {:induction false} FilterCongruent<T(!new)>(s: seq<T>, k1: T -> bool, k2: T -> bool)
    requires forall x :: x in s ==> (k1(x) <==> k2(x))
    ensures Filter(s, k1) == Filter(s, k2)
    decreases |s|
  {
    if s != [] {
      FilterCongruent(s[..|s| - 1], k1, k2);
    }
  }

  ghost predicate Increasing<T>(s: seq<T>, key: T -> int) {
    forall i, j :: 0 <= i < j < |s| ==> key(s[i]) < key(s[j])
  }

  lemma {:induction false} FilterIncreasing<T(!new)>(s: seq<T>, keep: T -> bool, key: T -> int)
    requires Increasing(s, key)
    ensures Increasing(Filter(s, keep), key)
    decreases |s|
  {
    if s != [] {
      var init, last := s[..|s| - 1], s[|s| - 1];
      FilterIncreasing(init, keep, key);
      var f := Filter(init, keep);
      forall i | 0 <= i < |f|
        ensures key(f[i]) < key(last)
      {
        assert f[i] in init;
        var k :| 0 <= k < |init| && init[k] == f[i];
        assert s[k] == f[i];
      }
    }
  }

  lemma IncreasingAppend<T>(s: seq<T>, x: T, key: T -> int)
    requires Increasing(s, key)
    requires forall i :: 0 <= i < |s| ==> key(s[i]) < key(x)
    ensures Increasing(s + [x], key)
  {
  }

  lemma HeadsDiffer<T>(s: seq<T>, key: T -> int)
    requires Increasing(s, key)
    ensures |s| >= 2 ==> s[0] in s && s[1] in s && s[0] != s[1]
  {
  }

  function ElectionId(el: Election): int { el.id }
  function CandidateId(c: Candidate): int { c.id }
  function VoteId(v: Vote): int { v.id }

  // ---------------------------------------------------------------------------
  // Queries

  predicate HasElection(t: Tables, e: int) {
    exists el :: el in t.elections && el.id == e
  }

  predicate HasCandidate(t: Tables, cid: int) {
    exists c :: c in t.candidates && c.id == cid
  }

  /** SELECT ... FROM Elections WHERE id = ?, first row. */
  function FindElection(es: seq<Election>, id: int): (r: Option<Election>)
    ensures r.Some? ==> r.value in es && r.value.id == id
    ensures r.None? <==> forall el :: el in es ==> el.id != id
  {
    if es == [] then None
    else if es[0].id == id then Some(es[0])
    else FindElection(es[1..], id)
  }

  /** SELECT ... FROM Candidates WHERE id = ?, first row. */
  function FindCandidate(cs: seq<Candidate>, id: int): (r: Option<Candidate>)
    ensures r.Some? ==> r.value in cs && r.value.id == id
    ensures r.None? <==> forall c :: c in cs ==> c.id != id
  {
    if cs == [] then None
    else if cs[0].id == id then Some(cs[0])
    else FindCandidate(cs[1..], id)
  }

  /** All candidates of an election, NOTA included. */
  function CandidatesOf(t: Tables, e: int): seq<Candidate> {
    Filter(t.candidates, (c: Candidate) => c.electionId == e)
  }

  /** WHERE election_id = ? AND (is_nota IS NULL OR is_nota = 0) */
  function NonNotaOf(t: Tables, e: int): seq<Candidate> {
    Filter(t.candidates, (c: Candidate) => c.electionId == e && !c.isNota)
  }

  /** WHERE election_id = ? AND is_nota = 1 */
  function NotaOf(t: Tables, e: int): seq<Candidate> {
    Filter(t.candidates, (c: Candidate) => c.electionId == e && c.isNota)
  }

  function VotesOf(t: Tables, e: int): seq<Vote> {
    Filter(t.votes, (v: Vote) => v.electionId == e)
  }

  // ---------------------------------------------------------------------------
  // The database invariant

  /** The vote's candidate exists and belongs to the vote's own election. */
  ghost predicate RefersWithin(cs: seq<Candidate>, v: Vote) {
    exists c :: c in cs && c.id == v.candidateId && c.electionId == v.electionId
  }

  ghost predicate UniqueNames(es: seq<Election>) {
    forall el1, el2 :: el1 in es && el2 in es && el1.name == el2.name ==> el1 == el2
  }

  ghost predicate AtMostOneNota(cs: seq<Candidate>) {
    forall c1, c2 :: c1 in cs && c2 in cs && c1.isNota && c2.isNota && c1.electionId == c2.electionId ==> c1 == c2
  }

  ghost predicate ElectionRows(t: Tables) {
    && 1 <= t.nextElectionId
    && (forall el :: el in t.elections ==> 1 <= el.id < t.nextElectionId)
    && Increasing(t.elections, ElectionId)
    && UniqueNames(t.elections)
  }

  ghost predicate CandidateRows(t: Tables) {
    && 1 <= t.nextCandidateId
    && (forall c :: c in t.candidates ==> 1 <= c.id < t.nextCandidateId && HasElection(t, c.electionId))
    && Increasing(t.candidates, CandidateId)
    && AtMostOneNota(t.candidates)
  }

  ghost predicate VoteRows(t: Tables) {
    && 1 <= t.nextVoteId
    && (forall v :: v in t.votes ==> 1 <= v.id < t.nextVoteId && RefersWithin(t.candidates, v))
    && Increasing(t.votes, VoteId)
  }

  ghost predicate Valid(t: Tables) {
    ElectionRows(t) && CandidateRows(t) && VoteRows(t)
  }

  /** In a valid database an election has at most one NOTA candidate row. */
  lemma NotaAtMostOne(t: Tables, e: int)
    requires Valid(t)
    ensures |NotaOf(t, e)| <= 1
  {
    var n := NotaOf(t, e);
    FilterIncreasing(t.candidates, (c: Candidate) => c.electionId == e && c.isNota, CandidateId);
    HeadsDiffer(n, CandidateId);
  }

  /** Rows with equal ids in an increasing sequence are the same row. */
  lemma IdsDetermineCandidate(cs: seq<Candidate>, c1: Candidate, c2: Candidate)
    requires Increasing(cs, CandidateId)
    requires c1 in cs && c2 in cs && c1.id == c2.id
    ensures c1 == c2
  {
    var i :| 0 <= i < |cs| && cs[i] == c1;
    var j :| 0 <= j < |cs| && cs[j] == c2;
    assert CandidateId(cs[i]) == CandidateId(cs[j]);
  }

  // ---------------------------------------------------------------------------
  // Statements

  /** INSERT INTO Elections (name, admin_password_hash); `name` is UNIQUE. */
  function InsertElection(t: Tables, name: string, adminHash: string): (r: Result<(Tables, int)>)
    ensures r.Err? <==> exists el :: el in t.elections && el.name == name
  {
    if exists el :: el in t.elections && el.name == name then Err(UniqueViolation)
    else
      var id := t.nextElectionId;
      Ok((t.(elections := t.elections + [Election(id, name, adminHash)], nextElectionId := id + 1), id))
  }

  /** INSERT INTO Candidates; the foreign key on election_id is enforced. */
  function InsertCandidate(t: Tables, e: int, name: string, symbolPath: Option<string>, isNota: bool): (r: Result<(Tables, int)>)
    ensures r.Err? <==> !HasElection(t, e)
  {
    if !HasElection(t, e) then Err(ForeignKeyViolation)
    else
      var id := t.nextCandidateId;
      Ok((t.(candidates := t.candidates + [Candidate(id, e, name, symbolPath, isNota)], nextCandidateId := id + 1), id))
  }

  /** INSERT INTO Votes (election_id, candidate_id); both foreign keys are enforced. */
  function InsertVote(t: Tables, e: int, cid: int, now: int): (r: Result<(Tables, int)>)
    ensures r.Err? <==> !HasElection(t, e) || !HasCandidate(t, cid)
  {
    if !HasElection(t, e) || !HasCandidate(t, cid) then Err(ForeignKeyViolation)
    else
      var id := t.nextVoteId;
      Ok((t.(votes := t.votes + [Vote(id, e, cid, now)], nextVoteId := id + 1), id))
  }

  /** UPDATE Candidates SET name = ?, symbol_path = ? WHERE id = ? */
  function UpdateCandidate(t: Tables, cid: int, name: string, symbolPath: Option<string>): (r: Tables)
    ensures r.elections == t.elections && r.votes == t.votes
    ensures r.nextElectionId == t.nextElectionId && r.nextCandidateId == t.nextCandidateId && r.nextVoteId == t.nextVoteId
    ensures |r.candidates| == |t.candidates|
    ensures forall i :: 0 <= i < |t.candidates| ==>
      r.candidates[i].id == t.candidates[i].id &&
      r.candidates[i].electionId == t.candidates[i].electionId &&
      r.candidates[i].isNota == t.candidates[i].isNota
    ensures FindCandidate(r.candidates, cid) ==
      match FindCandidate(t.candidates, cid)
      case Some(c) => Some(c.(name := name, symbolPath := symbolPath))
      case None => None
    ensures forall id :: id != cid ==> FindCandidate(r.candidates, id) == FindCandidate(t.candidates, id)
  {
    var cs := Renamed(t.candidates, cid, name, symbolPath);
    FindRenamed(t.candidates, cid, name, symbolPath);
    t.(candidates := cs)
  }

  /** The candidate rows with row `cid` given a new name and symbol. */
  function Renamed(cs: seq<Candidate>, cid: int, name: string, symbolPath: Option<string>): seq<Candidate> {
    seq(|cs|, i requires 0 <= i < |cs| =>
      if cs[i].id == cid then cs[i].(name := name, symbolPath := symbolPath) else cs[i])
  }

  /** Looking up any id after the rename finds the renamed row for `cid` and the
      unchanged row for every other id. */
  lemma {:induction false} FindRenamed(cs: seq<Candidate>, cid: int, name: string, symbolPath: Option<string>)
    ensures FindCandidate(Renamed(cs, cid, name, symbolPath), cid) ==
      match FindCandidate(cs, cid)
      case Some(c) => Some(c.(name := name, symbolPath := symbolPath))
      case None => None
    ensures forall id :: id != cid ==> FindCandidate(Renamed(cs, cid, name, symbolPath), id) == FindCandidate(cs, id)
    decreases |cs|
  {
    if cs != [] {
      var rs := Renamed(cs, cid, name, symbolPath);
      assert rs[1..] == Renamed(cs[1..], cid, name, symbolPath);
      FindRenamed(cs[1..], cid, name, symbolPath);
    }
  }

  /** DELETE FROM Votes WHERE id = ? */
  function DeleteVote(t: Tables, vid: int): Tables {
    t.(votes := Filter(t.votes, (v: Vote) => v.id != vid))
  }

  /** DELETE FROM Votes WHERE candidate_id = ? */
  function DeleteVotesOfCandidate(t: Tables, cid: int): Tables {
    t.(votes := Filter(t.votes, (v: Vote) => v.candidateId != cid))
  }

  /** DELETE FROM Votes WHERE election_id = ? */
  function DeleteVotesOfElection(t: Tables, e: int): Tables {
    t.(votes := Filter(t.votes, (v: Vote) => v.electionId != e))
  }

  /** DELETE FROM Candidates WHERE id = ?, with ON DELETE CASCADE on Votes.candidate_id. */
  function DeleteCandidate(t: Tables, cid: int): Tables {
    t.(candidates := Filter(t.candidates, (c: Candidate) => c.id != cid),
       votes := Filter(t.votes, (v: Vote) => v.candidateId != cid))
  }

  /** DELETE FROM Elections WHERE id = ?, cascading to its candidates and to
      every vote that references the election or one of those candidates. */
  function DeleteElection(t: Tables, e: int): Tables {
    var gone := set c | c in t.candidates && c.electionId == e :: c.id;
    t.(elections := Filter(t.elections, (el: Election) => el.id != e),
       candidates := Filter(t.candidates, (c: Candidate) => c.electionId != e),
       votes := Filter(t.votes, (v: Vote) => v.electionId != e && v.candidateId !in gone))
  }

  // ---------------------------------------------------------------------------
  // Every statement keeps the database valid

  /** Candidate rows stay well formed when no election disappears. */
  lemma CandidateRowsKept(t: Tables, t': Tables)
    requires CandidateRows(t)
    requires t'.candidates == t.candidates && t'.nextCandidateId == t.nextCandidateId
    requires forall el :: el in t.elections ==> el in t'.elections
    ensures CandidateRows(t')
  {
    forall c | c in t'.candidates
      ensures HasElection(t', c.electionId)
    {
      var el :| el in t.elections && el.id == c.electionId;
      assert el in t'.elections;
    }
  }

  lemma InsertElectionValid(t: Tables, name: string, adminHash: string)
    requires Valid(t)
    ensures var r := InsertElection(t, name, adminHash);
      r.Ok? ==>
        var (t', id) := r.value;
        && Valid(t')
        && (forall el :: el in t.elections ==> el.id != id)
        && FindElection(t'.elections, id) == Some(Election(id, name, adminHash))
        && t'.candidates == t.candidates && t'.votes == t.votes
  {
    var r := InsertElection(t, name, adminHash);
    if r.Ok? {
      var (t', id) := r.value;
      var n := Election(id, name, adminHash);
      assert t'.elections == t.elections + [n];
      forall i | 0 <= i < |t.elections|
        ensures ElectionId(t.elections[i]) < ElectionId(n)
      {
        assert t.elections[i] in t.elections;
      }
      IncreasingAppend(t.elections, n, ElectionId);
      assert ElectionRows(t');
      CandidateRowsKept(t, t');
      assert VoteRows(t') by {
        assert t'.votes == t.votes && t'.candidates == t.candidates && t'.nextVoteId == t.nextVoteId;
      }
      FindAppended(t.elections, n);
    }
  }

  lemma {:induction false} FindAppended(es: seq<Election>, n: Election)
    requires forall el :: el in es ==> el.id != n.id
    ensures FindElection(es + [n], n.id) == Some(n)
    decreases |es|
  {
    if es == [] {
    } else {
      assert (es + [n])[1..] == es[1..] + [n];
      FindAppended(es[1..], n);
    }
  }

  lemma InsertCandidateValid(t: Tables, e: int, name: string, symbolPath: Option<string>, isNota: bool)
    requires Valid(t)
    requires isNota ==> NotaOf(t, e) == []
    ensures var r := InsertCandidate(t, e, name, symbolPath, isNota);
      r.Ok? ==>
        var (t', id) := r.value;
        && Valid(t')
        && (forall c :: c in t.candidates ==> c.id != id)
        && t'.candidates == t.candidates + [Candidate(id, e, name, symbolPath, isNota)]
        && t'.elections == t.elections && t'.votes == t.votes
  {
    var r := InsertCandidate(t, e, name, symbolPath, isNota);
    if r.Ok? {
      var (t', id) := r.value;
      var n := Candidate(id, e, name, symbolPath, isNota);
      AppendCandidateRows(t, n);
      assert VoteRows(t') by {
        forall v | v in t'.votes
          ensures RefersWithin(t'.candidates, v)
        {
          var c :| c in t.candidates && c.id == v.candidateId && c.electionId == v.electionId;
          assert c in t'.candidates;
        }
      }
    }
  }

  lemma AppendCandidateRows(t: Tables, n: Candidate)
    requires CandidateRows(t)
    requires n.id == t.nextCandidateId && HasElection(t, n.electionId)
    requires n.isNota ==> NotaOf(t, n.electionId) == []
    ensures CandidateRows(t.(candidates := t.candidates + [n], nextCandidateId := n.id + 1))
  {
    var t' := t.(candidates := t.candidates + [n], nextCandidateId := n.id + 1);
    forall i | 0 <= i < |t.candidates|
      ensures CandidateId(t.candidates[i]) < CandidateId(n)
    {
      assert t.candidates[i] in t.candidates;
    }
    IncreasingAppend(t.candidates, n, CandidateId);
    forall c | c in t'.candidates
      ensures 1 <= c.id < t'.nextCandidateId && HasElection(t', c.electionId)
    {
      if c != n {
        assert c in t.candidates;
      }
    }
    forall c | c in t.candidates && c.isNota && c.electionId == n.electionId
      ensures !n.isNota
    {
      assert c in NotaOf(t, n.electionId);
    }
    forall c1, c2 | c1 in t'.candidates && c2 in t'.candidates && c1.isNota && c2.isNota && c1.electionId == c2.electionId
      ensures c1 == c2
    {
      if c1 != n && c2 != n {
        assert c1 in t.candidates && c2 in t.candidates;
      }
    }
  }

  lemma InsertVoteValid(t: Tables, e: int, cid: int, now: int)
    requires Valid(t)
    requires forall c :: c in t.candidates && c.id == cid ==> c.electionId == e
    ensures var r := InsertVote(t, e, cid, now);
      r.Ok? ==>
        var (t', id) := r.value;
        && Valid(t')
        && (forall v :: v in t.votes ==> v.id != id)
        && t'.votes == t.votes + [Vote(id, e, cid, now)]
        && t'.elections == t.elections && t'.candidates == t.candidates
  {
    var r := InsertVote(t, e, cid, now);
    if r.Ok? {
      var (t', id) := r.value;
      AppendVoteRows(t, Vote(id, e, cid, now));
    }
  }

  lemma AppendVoteRows(t: Tables, n: Vote)
    requires VoteRows(t)
    requires n.id == t.nextVoteId && RefersWithin(t.candidates, n)
    ensures VoteRows(t.(votes := t.votes + [n], nextVoteId := n.id + 1))
  {
    var t' := t.(votes := t.votes + [n], nextVoteId := n.id + 1);
    forall i | 0 <= i < |t.votes|
      ensures VoteId(t.votes[i]) < VoteId(n)
    {
      assert t.votes[i] in t.votes;
    }
    IncreasingAppend(t.votes, n, VoteId);
    forall v | v in t'.votes
      ensures 1 <= v.id < t'.nextVoteId && RefersWithin(t'.candidates, v)
    {
      if v != n {
        assert v in t.votes;
      }
    }
  }

  lemma UpdateCandidateValid(t: Tables, cid: int, name: string, symbolPath: Option<string>)
    requires Valid(t)
    ensures Valid(UpdateCandidate(t, cid, name, symbolPath))
  {
    UpdateKeepsCandidateRows(t, cid, name, symbolPath);
    UpdateKeepsVoteRows(t, cid, name, symbolPath);
  }

  lemma UpdateKeepsCandidateRows(t: Tables, cid: int, name: string, symbolPath: Option<string>)
    requires CandidateRows(t)
    ensures CandidateRows(UpdateCandidate(t, cid, name, symbolPath))
  {
    var t' := UpdateCandidate(t, cid, name, symbolPath);
    var cs, cs' := t.candidates, t'.candidates;
    forall c' | c' in cs'
      ensures 1 <= c'.id < t'.nextCandidateId && HasElection(t', c'.electionId)
    {
      var k :| 0 <= k < |cs'| && cs'[k] == c';
      assert cs[k] in cs;
    }
    SameKeysIncreasing(cs, cs');
    SameKeysOneNota(cs, cs');
  }

  /** Row by row, the two sequences agree on id, election and NOTA flag. */
  ghost predicate SameKeys(cs: seq<Candidate>, cs': seq<Candidate>) {
    |cs'| == |cs| &&
    forall i :: 0 <= i < |cs| ==>
      cs'[i].id == cs[i].id && cs'[i].electionId == cs[i].electionId && cs'[i].isNota == cs[i].isNota
  }

  lemma SameKeysIncreasing(cs: seq<Candidate>, cs': seq<Candidate>)
    requires SameKeys(cs, cs') && Increasing(cs, CandidateId)
    ensures Increasing(cs', CandidateId)
  {
    forall i, j | 0 <= i < j < |cs'|
      ensures CandidateId(cs'[i]) < CandidateId(cs'[j])
    {
      assert CandidateId(cs[i]) < CandidateId(cs[j]);
    }
  }

  lemma SameKeysOneNota(cs: seq<Candidate>, cs': seq<Candidate>)
    requires SameKeys(cs, cs') && Increasing(cs, CandidateId) && AtMostOneNota(cs)
    ensures AtMostOneNota(cs')
  {
    forall c1, c2 | c1 in cs' && c2 in cs' && c1.isNota && c2.isNota && c1.electionId == c2.electionId
      ensures c1 == c2
    {
      var i :| 0 <= i < |cs'| && cs'[i] == c1;
      var j :| 0 <= j < |cs'| && cs'[j] == c2;
      SameNotaSameIndex(cs, i, j);
    }
  }

  lemma SameNotaSameIndex(cs: seq<Candidate>, i: int, j: int)
    requires AtMostOneNota(cs) && Increasing(cs, CandidateId)
    requires 0 <= i < |cs| && 0 <= j < |cs|
    requires cs[i].isNota && cs[j].isNota && cs[i].electionId == cs[j].electionId
    ensures i == j
  {
    assert cs[i] in cs && cs[j] in cs;
    assert CandidateId(cs[i]) == CandidateId(cs[j]);
  }

  lemma UpdateKeepsVoteRows(t: Tables, cid: int, name: string, symbolPath: Option<string>)
    requires VoteRows(t)
    ensures VoteRows(UpdateCandidate(t, cid, name, symbolPath))
  {
    var t' := UpdateCandidate(t, cid, name, symbolPath);
    var cs, cs' := t.candidates, t'.candidates;
    forall v | v in t'.votes
      ensures RefersWithin(cs', v)
    {
      var c :| c in cs && c.id == v.candidateId && c.electionId == v.electionId;
      var k :| 0 <= k < |cs| && cs[k] == c;
      assert cs'[k] in cs';
    }
  }

  /** Deleting any set of votes keeps the database valid. */
  lemma FilterVotesValid(t: Tables, keep: Vote -> bool)
    requires Valid(t)
    ensures Valid(t.(votes := Filter(t.votes, keep)))
  {
    FilterIncreasing(t.votes, keep, VoteId);
  }

  lemma DeleteCandidateValid(t: Tables, cid: int)
    requires Valid(t)
    ensures Valid(DeleteCandidate(t, cid))
  {
    var t' := DeleteCandidate(t, cid);
    FilterIncreasing(t.candidates, (c: Candidate) => c.id != cid, CandidateId);
    FilterIncreasing(t.votes, (v: Vote) => v.candidateId != cid, VoteId);
    forall v | v in t'.votes
      ensures RefersWithin(t'.candidates, v)
    {
      var c :| c in t.candidates && c.id == v.candidateId && c.electionId == v.electionId;
      assert c in t'.candidates;
    }
  }

  lemma DeleteElectionValid(t: Tables, e: int)
    requires Valid(t)
    ensures Valid(DeleteElection(t, e))
  {
    var t' := DeleteElection(t, e);
    FilterIncreasing(t.elections, (el: Election) => el.id != e, ElectionId);
    DeleteElectionCandidateRows(t, e);
    DeleteElectionVoteRows(t, e);
  }

  lemma DeleteElectionCandidateRows(t: Tables, e: int)
    requires Valid(t)
    ensures CandidateRows(DeleteElection(t, e))
  {
    var t' := DeleteElection(t, e);
    FilterIncreasing(t.candidates, (c: Candidate) => c.electionId != e, CandidateId);
    forall c | c in t'.candidates
      ensures HasElection(t', c.electionId)
    {
      var el :| el in t.elections && el.id == c.electionId;
      assert el in t'.elections;
    }
  }

  lemma DeleteElectionVoteRows(t: Tables, e: int)
    requires Valid(t)
    ensures VoteRows(DeleteElection(t, e))
  {
    var t' := DeleteElection(t, e);
    var gone := set c | c in t.candidates && c.electionId == e :: c.id;
    FilterIncreasing(t.votes, (v: Vote) => v.electionId != e && v.candidateId !in gone, VoteId);
    forall v | v in t'.votes
      ensures RefersWithin(t'.candidates, v)
    {
      var c :| c in t.candidates && c.id == v.candidateId && c.electionId == v.electionId;
      assert c in t'.candidates;
    }
  }
}
