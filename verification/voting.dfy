/** The full-screen ballot session: a roster of the election's regular
    candidates followed by a NOTA entry, one tentative selection, and two flags
    that lock the ballot between casting it and the officer's release. Casting
    and undoing write to the shared vote store. */
module Voting {
  import opened Store
  import opened Tally

  /** One ballot line: candidate id, name and symbol path. */
  datatype RosterEntry = RosterEntry(id: int, name: string, symbolPath: Option<string>)

  /** The synthetic last ballot line; id -1 is never a row id. */
  const NotaSentinel := RosterEntry(-1, "NOTA", None)

  datatype CastOutcome = Ignored | Recorded(voteId: int)

  function RosterEntryOf(c: Candidate): RosterEntry {
    RosterEntry(c.id, c.name, c.symbolPath)
  }

  /** The ballot the session shows for election `e` of tables `t`. */
  function Roster(t: Tables, e: int): seq<RosterEntry> {
    var rows := NonNotaOf(t, e);
    seq(|rows|, i requires 0 <= i < |rows| => RosterEntryOf(rows[i])) + [NotaSentinel]
  }

  /** Candidate `cid` is a regular candidate of election `e`, and every row
      carrying that id is. */
  ghost predicate RegularOf(t: Tables, e: int, cid: int) {
    && 1 <= cid < t.nextCandidateId
    && HasCandidate(t, cid)
    && forall c :: c in t.candidates && c.id == cid ==> c.electionId == e && !c.isNota
  }

  /** The roster ends with the NOTA entry and every other line names a regular
      candidate of the election. */
  ghost predicate RosterFits(t: Tables, e: int, roster: seq<RosterEntry>) {
    && |roster| >= 1
    && roster[|roster| - 1] == NotaSentinel
    && forall i :: 0 <= i < |roster| - 1 ==> RegularOf(t, e, roster[i].id)
  }

  /** In a valid database the roster lists the election's regular candidates in
      row order, each once, and the NOTA entry exactly once, as its last line. */
  lemma RosterShape(t: Tables, e: int)
    requires Valid(t)
    ensures var r := Roster(t, e);
      && RosterFits(t, e, r)
      && |r| == |NonNotaOf(t, e)| + 1
      && (forall i :: 0 <= i < |r| ==> (r[i] == NotaSentinel <==> i == |r| - 1))
      && (forall i :: 0 <= i < |r| - 1 ==> r[i] == RosterEntryOf(NonNotaOf(t, e)[i]))
  {
    var rows := NonNotaOf(t, e);
    var r := Roster(t, e);
    forall i | 0 <= i < |r| - 1
      ensures RegularOf(t, e, r[i].id) && r[i] != NotaSentinel
    {
      assert r[i] == RosterEntryOf(rows[i]);
      assert rows[i] in rows;
      forall c | c in t.candidates && c.id == rows[i].id
        ensures c.electionId == e && !c.isNota
      {
        IdsDetermineCandidate(t.candidates, c, rows[i]);
      }
    }
  }

  // ---------------------------------------------------------------------------
  // Casting a ballot

  /** The candidate row a cast of `entry` counts for: the entry's own id, or for
      NOTA the election's NOTA row, which is created (with the next id) when
      there is none yet. */
  function CountedId(t: Tables, e: int, entry: RosterEntry): int {
    if entry.id != -1 then entry.id
    else
      var notas := NotaOf(t, e);
      if notas != [] then notas[0].id else t.nextCandidateId
  }

  /** The statements a cast issues: for NOTA, look the NOTA row up and insert it
      if missing; then insert the vote. */
  function CastEffect(t: Tables, e: int, entry: RosterEntry, now: int): Result<(Tables, int)> {
    if entry.id != -1 then InsertVote(t, e, entry.id, now)
    else
      var notas := NotaOf(t, e);
      if notas != [] then InsertVote(t, e, notas[0].id, now)
      else match InsertCandidate(t, e, "NOTA", None, true)
        case Err(err) => Err(err)
        case Ok((t1, nid)) => InsertVote(t1, e, nid, now)
  }

  /** A cast fails only by a foreign-key violation, when the election or the
      selected candidate is gone, and then changes nothing. */
  lemma CastFailsOnlyOnMissingRows(t: Tables, e: int, entry: RosterEntry, now: int)
    ensures CastEffect(t, e, entry, now).Err? <==>
      !HasElection(t, e) || (entry.id != -1 && !HasCandidate(t, entry.id))
  {
    if entry.id == -1 && NotaOf(t, e) != [] {
      var n := NotaOf(t, e)[0];
      assert n in NotaOf(t, e);
      assert n in t.candidates && n.electionId == e;
    } else if entry.id == -1 && HasElection(t, e) {
      var (t1, nid) := InsertCandidate(t, e, "NOTA", None, true).value;
      assert t1.candidates[|t1.candidates| - 1].id == nid;
    }
  }

  /** A cast on a valid database for a line of a fitting roster records exactly
      one vote, for this election and the counted candidate, and keeps the
      database valid. Afterwards the election has exactly one NOTA row when the
      ballot was NOTA; the candidate rows change only by that lazily created
      NOTA row. */
  lemma CastRecordsOneVote(t: Tables, e: int, entry: RosterEntry, now: int)
    requires Valid(t) && HasElection(t, e)
    requires entry == NotaSentinel || RegularOf(t, e, entry.id)
    ensures CastEffect(t, e, entry, now).Ok?
    ensures var (t', id) := CastEffect(t, e, entry, now).value;
      && Valid(t')
      && (forall v :: v in t.votes ==> v.id != id)
      && t'.votes == t.votes + [Vote(id, e, CountedId(t, e, entry), now)]
      && t'.elections == t.elections
      && (entry == NotaSentinel ==> |NotaOf(t', e)| == 1 && NotaOf(t', e)[0].id == CountedId(t, e, entry))
      && (entry == NotaSentinel && NotaOf(t, e) == [] ==>
            t'.candidates == t.candidates + [Candidate(CountedId(t, e, entry), e, "NOTA", None, true)])
      && (entry != NotaSentinel || NotaOf(t, e) != [] ==> t'.candidates == t.candidates)
  {
    if entry != NotaSentinel {
      CastForRegular(t, e, entry.id, now);
    } else if NotaOf(t, e) != [] {
      CastForExistingNota(t, e, now);
    } else {
      CastForNewNota(t, e, now);
    }
  }

  lemma CastForRegular(t: Tables, e: int, cid: int, now: int)
    requires Valid(t) && HasElection(t, e) && RegularOf(t, e, cid)
    ensures InsertVote(t, e, cid, now).Ok?
    ensures var (t', id) := InsertVote(t, e, cid, now).value;
      && Valid(t')
      && (forall v :: v in t.votes ==> v.id != id)
      && t'.votes == t.votes + [Vote(id, e, cid, now)]
      && t'.elections == t.elections && t'.candidates == t.candidates
  {
    InsertVoteValid(t, e, cid, now);
  }

  lemma CastForExistingNota(t: Tables, e: int, now: int)
    requires Valid(t) && HasElection(t, e) && NotaOf(t, e) != []
    ensures |NotaOf(t, e)| == 1
    ensures InsertVote(t, e, NotaOf(t, e)[0].id, now).Ok?
    ensures var (t', id) := InsertVote(t, e, NotaOf(t, e)[0].id, now).value;
      && Valid(t')
      && (forall v :: v in t.votes ==> v.id != id)
      && t'.votes == t.votes + [Vote(id, e, NotaOf(t, e)[0].id, now)]
      && t'.elections == t.elections && t'.candidates == t.candidates
  {
    var n := NotaOf(t, e)[0];
    assert n in NotaOf(t, e);
    NotaAtMostOne(t, e);
    assert HasCandidate(t, n.id) by { assert n in t.candidates; }
    forall c | c in t.candidates && c.id == n.id
      ensures c.electionId == e
    {
      IdsDetermineCandidate(t.candidates, c, n);
    }
    InsertVoteValid(t, e, n.id, now);
  }

  lemma CastForNewNota(t: Tables, e: int, now: int)
    requires Valid(t) && HasElection(t, e) && NotaOf(t, e) == []
    ensures CastEffect(t, e, NotaSentinel, now).Ok?
    ensures var (t', id) := CastEffect(t, e, NotaSentinel, now).value;
      && Valid(t')
      && (forall v :: v in t.votes ==> v.id != id)
      && t'.votes == t.votes + [Vote(id, e, t.nextCandidateId, now)]
      && t'.elections == t.elections
      && t'.candidates == t.candidates + [Candidate(t.nextCandidateId, e, "NOTA", None, true)]
      && NotaOf(t', e) == [Candidate(t.nextCandidateId, e, "NOTA", None, true)]
  {
    InsertCandidateValid(t, e, "NOTA", None, true);
    var (t1, nid) := InsertCandidate(t, e, "NOTA", None, true).value;
    var n := Candidate(nid, e, "NOTA", None, true);
    FilterAppend(t.candidates, n, (c: Candidate) => c.electionId == e && c.isNota);
    assert NotaOf(t1, e) == [n];
    assert HasCandidate(t1, nid) by { assert n in t1.candidates; }
    InsertVoteValid(t1, e, nid, now);
  }

  /** A recorded cast adds one to the counted candidate's tally and leaves
      every other candidate's count as it was. */
  lemma CastCountsOnce(t: Tables, e: int, entry: RosterEntry, now: int, x: int)
    requires Valid(t) && HasElection(t, e)
    requires entry == NotaSentinel || RegularOf(t, e, entry.id)
    ensures var (t', _) := CastEffect(t, e, entry, now).value;
      |VotesFor(t'.votes, x)| == |VotesFor(t.votes, x)| + (if x == CountedId(t, e, entry) then 1 else 0)
      && |VotesOf(t', e)| == |VotesOf(t, e)| + 1
  {
    CastRecordsOneVote(t, e, entry, now);
    var (t', id) := CastEffect(t, e, entry, now).value;
    var v := Vote(id, e, CountedId(t, e, entry), now);
    FilterAppend(t.votes, v, (w: Vote) => w.candidateId == x);
    FilterAppend(t.votes, v, (w: Vote) => w.electionId == e);
  }

  /** A cast keeps every roster line pointing at a regular candidate. */
  lemma CastKeepsRoster(t: Tables, e: int, entry: RosterEntry, now: int, roster: seq<RosterEntry>)
    requires Valid(t) && HasElection(t, e) && RosterFits(t, e, roster)
    requires entry == NotaSentinel || RegularOf(t, e, entry.id)
    ensures RosterFits(CastEffect(t, e, entry, now).value.0, e, roster)
  {
    CastRecordsOneVote(t, e, entry, now);
    var t' := CastEffect(t, e, entry, now).value.0;
    forall i | 0 <= i < |roster| - 1
      ensures RegularOf(t', e, roster[i].id)
    {
      var cid := roster[i].id;
      assert HasCandidate(t', cid) by {
        var c :| c in t.candidates && c.id == cid;
        assert c in t'.candidates;
      }
    }
  }

  // ---------------------------------------------------------------------------
  // Undoing the last vote

  /** The vote `ORDER BY timestamp DESC LIMIT 1` returns; among votes with the
      same timestamp the one stored last is taken. */
  function LatestVote(vs: seq<Vote>): (r: Option<Vote>)
    ensures r.None? <==> vs == []
    ensures r.Some? ==> r.value in vs && forall v :: v in vs ==> v.timestamp <= r.value.timestamp
  {
    if vs == [] then None
    else
      var init, last := vs[..|vs| - 1], vs[|vs| - 1];
      assert vs == init + [last];
      match LatestVote(init)
      case None => Some(last)
      case Some(w) => if last.timestamp >= w.timestamp then Some(last) else Some(w)
  }

  /** The statements an undo issues: find the election's latest vote and delete it. */
  function UndoEffect(t: Tables, e: int): Tables {
    match LatestVote(VotesOf(t, e))
    case None => t
    case Some(v) => DeleteVote(t, v.id)
  }

  lemma {:induction false} FilterOutOne(vs: seq<Vote>, x: Vote)
    requires Increasing(vs, VoteId) && x in vs
    ensures multiset(Filter(vs, (v: Vote) => v.id != x.id)) + multiset{x} == multiset(vs)
    decreases |vs|
  {
    var init, last := vs[..|vs| - 1], vs[|vs| - 1];
    assert vs == init + [last];
    LastIsUnique(vs);
    if last == x {
      FilterOutLast(init, x);
    } else {
      assert x in init;
      assert Increasing(init, VoteId);
      FilterOutOne(init, x);
      FilterKeepLast(init, last, x);
    }
  }

  lemma FilterOutLast(init: seq<Vote>, x: Vote)
    requires forall v :: v in init ==> v.id != x.id
    ensures multiset(Filter(init + [x], (v: Vote) => v.id != x.id)) + multiset{x} == multiset(init + [x])
  {
    FilterAppend(init, x, (v: Vote) => v.id != x.id);
    FilterCongruent(init, (v: Vote) => v.id != x.id, (v: Vote) => true);
    FilterAll(init);
  }

  lemma FilterKeepLast(init: seq<Vote>, last: Vote, x: Vote)
    requires last.id != x.id
    requires multiset(Filter(init, (v: Vote) => v.id != x.id)) + multiset{x} == multiset(init)
    ensures multiset(Filter(init + [last], (v: Vote) => v.id != x.id)) + multiset{x} == multiset(init + [last])
  {
    FilterAppend(init, last, (v: Vote) => v.id != x.id);
  }

  /** With increasing ids the last vote's id occurs nowhere before it. */
  lemma LastIsUnique(vs: seq<Vote>)
    requires Increasing(vs, VoteId) && vs != []
    ensures forall v :: v in vs[..|vs| - 1] ==> v.id != vs[|vs| - 1].id
  {
    forall v | v in vs[..|vs| - 1]
      ensures v.id != vs[|vs| - 1].id
    {
      var k :| 0 <= k < |vs| - 1 && vs[k] == v;
      assert VoteId(vs[k]) < VoteId(vs[|vs| - 1]);
    }
  }

  lemma {:induction false} FilterAll(vs: seq<Vote>)
    ensures Filter(vs, (v: Vote) => true) == vs
    decreases |vs|
  {
    if vs != [] {
      FilterAll(vs[..|vs| - 1]);
      assert vs == vs[..|vs| - 1] + [vs[|vs| - 1]];
    }
  }

  /** An undo on a valid database deletes at most one vote, and only one of
      this election with the greatest timestamp; the database stays valid and
      no other election's votes, and no candidate or election row, change. */
  lemma UndoRemovesLatest(t: Tables, e: int)
    requires Valid(t)
    ensures var t' := UndoEffect(t, e);
      && Valid(t')
      && t'.elections == t.elections && t'.candidates == t.candidates
      && (VotesOf(t, e) == [] ==> t' == t)
      && (VotesOf(t, e) != [] ==>
            var gone := LatestVote(VotesOf(t, e)).value;
            && gone.electionId == e
            && (forall v :: v in VotesOf(t, e) ==> v.timestamp <= gone.timestamp)
            && multiset(t'.votes) + multiset{gone} == multiset(t.votes))
      && (forall e' :: e' != e ==> VotesOf(t', e') == VotesOf(t, e'))
  {
    var vs := VotesOf(t, e);
    if vs != [] {
      var gone := LatestVote(vs).value;
      assert gone in t.votes;
      FilterOutOne(t.votes, gone);
      FilterVotesValid(t, (v: Vote) => v.id != gone.id);
      forall e' | e' != e
        ensures VotesOf(UndoEffect(t, e), e') == VotesOf(t, e')
      {
        forall v | v in t.votes && v.electionId == e'
          ensures v.id != gone.id
        {
          if v.id == gone.id {
            IdsDetermineVote(t.votes, v, gone);
          }
        }
        FilterFilter(t.votes, (v: Vote) => v.id != gone.id, (v: Vote) => v.electionId == e');
      }
    }
  }

  lemma IdsDetermineVote(vs: seq<Vote>, v1: Vote, v2: Vote)
    requires Increasing(vs, VoteId)
    requires v1 in vs && v2 in vs && v1.id == v2.id
    ensures v1 == v2
  {
    var i :| 0 <= i < |vs| && vs[i] == v1;
    var j :| 0 <= j < |vs| && vs[j] == v2;
    assert VoteId(vs[i]) == VoteId(vs[j]);
  }

  /** When every earlier vote of the election carries an older timestamp, the
      undo right after a cast deletes exactly the vote that cast recorded,
      restoring the earlier votes. */
  lemma UndoAfterCastRestoresVotes(t: Tables, e: int, entry: RosterEntry, now: int)
    requires Valid(t) && HasElection(t, e)
    requires entry == NotaSentinel || RegularOf(t, e, entry.id)
    requires forall v :: v in VotesOf(t, e) ==> v.timestamp < now
    ensures var (t', id) := CastEffect(t, e, entry, now).value;
      LatestVote(VotesOf(t', e)) == Some(Vote(id, e, CountedId(t, e, entry), now))
      && UndoEffect(t', e).votes == t.votes
  {
    CastRecordsOneVote(t, e, entry, now);
    var (t', id) := CastEffect(t, e, entry, now).value;
    var n := Vote(id, e, CountedId(t, e, entry), now);
    FilterAppend(t.votes, n, (v: Vote) => v.electionId == e);
    var vs := VotesOf(t, e);
    assert VotesOf(t', e) == vs + [n];
    assert (vs + [n])[..|vs|] == vs;
    FilterAppend(t.votes, n, (v: Vote) => v.id != id);
    forall v | v in t.votes
      ensures v.id != id
    {
    }
    FilterCongruent(t.votes, (v: Vote) => v.id != id, (v: Vote) => true);
    FilterAll(t.votes);
  }

  /** An election with candidates A and B and one vote for A stamped 100. */
  function StepBackExample(): Tables {
    Tables([Election(1, "E", "h")],
           [Candidate(1, 1, "A", Some("a.png"), false), Candidate(2, 1, "B", Some("b.png"), false)],
           [Vote(1, 1, 1, 100)], 2, 3, 2)
  }

  lemma StepBackExampleValid()
    ensures Valid(StepBackExample())
    ensures HasElection(StepBackExample(), 1) && HasCandidate(StepBackExample(), 2)
  {
    var t := StepBackExample();
    assert t.elections[0].id == 1;
    assert t.candidates[1].id == 2;
    assert RefersWithin(t.candidates, t.votes[0]) by { assert t.candidates[0] in t.candidates; }
  }

  /** When the clock has stepped back between two casts, the undo after the
      second cast deletes the first ballot's vote and keeps the one just cast. */
  lemma UndoAfterClockStepBack()
    ensures var t' := CastEffect(StepBackExample(), 1, RosterEntry(2, "B", Some("b.png")), 99).value.0;
      && t'.votes == [Vote(1, 1, 1, 100), Vote(2, 1, 2, 99)]
      && UndoEffect(t', 1).votes == [Vote(2, 1, 2, 99)]
  {
    StepBackExampleValid();
    var t := StepBackExample();
    var v1, v2 := Vote(1, 1, 1, 100), Vote(2, 1, 2, 99);
    var t' := t.(votes := [v1, v2], nextVoteId := 3);
    assert t.votes + [v2] == [v1, v2];
    assert CastEffect(t, 1, RosterEntry(2, "B", Some("b.png")), 99) == InsertVote(t, 1, 2, 99);
    assert CastEffect(t, 1, RosterEntry(2, "B", Some("b.png")), 99) == Ok((t', 2));
    assert VotesOf(t', 1) == [v1, v2] by {
      assert [v1, v2] == [v1] + [v2];
      assert [v1] == [] + [v1];
      FilterAppend([v1], v2, (v: Vote) => v.electionId == 1);
      FilterAppend([], v1, (v: Vote) => v.electionId == 1);
    }
    assert LatestVote([v1, v2]) == Some(v1) by {
      assert [v1, v2][..1] == [v1];
      assert LatestVote([v1]) == Some(v1);
    }
    assert Filter([v1, v2], (v: Vote) => v.id != 1) == [v2] by {
      assert [v1, v2] == [v1] + [v2];
      assert [v1] == [] + [v1];
      FilterAppend([v1], v2, (v: Vote) => v.id != 1);
      FilterAppend([], v1, (v: Vote) => v.id != 1);
    }
  }

  // ---------------------------------------------------------------------------
  // The session

  /** Ctrl held (bit 4 of the event state) and the key is q, in either case. */
  predicate CtrlQ(state: nat, keysym: string) {
    (state / 4) % 2 == 1 && (keysym == "q" || keysym == "Q")
  }

  class BallotSession {
    const db: Database
    const electionId: int
    const adminHash: string
    /** The ballot lines, fixed when the session opens. */
    const roster: seq<RosterEntry>
    /** Index of the tentatively chosen ballot line. */
    var selected: Option<nat>
    var hasVotedCurrentBallot: bool
    var awaitingNextBallot: bool
    /** The session window has been closed by the administrator. */
    var ended: bool

    ghost predicate Valid()
      reads this, db
    {
      && Store.Valid(db.tables)
      && HasElection(db.tables, electionId)
      && RosterFits(db.tables, electionId, roster)
      && hasVotedCurrentBallot == awaitingNextBallot
      && (awaitingNextBallot ==> selected.None?)
      && (selected.Some? ==> selected.value < |roster|)
    }

    /** Opens a session on election `e` with the ballot built from the current tables. */
    constructor (db: Database, e: int, adminHash: string)
      requires Store.Valid(db.tables) && HasElection(db.tables, e)
      ensures this.db == db && electionId == e && this.adminHash == adminHash
      ensures roster == Roster(db.tables, e)
      ensures selected.None? && !hasVotedCurrentBallot && !awaitingNextBallot && !ended
      ensures Valid()
    {
      this.db := db;
      electionId := e;
      this.adminHash := adminHash;
      var rows := NonNotaOf(db.tables, e);
      var lines := seq(|rows|, i requires 0 <= i < |rows| => RosterEntryOf(rows[i]));
      roster := lines + [NotaSentinel];
      selected := None;
      hasVotedCurrentBallot := false;
      awaitingNextBallot := false;
      ended := false;
      RosterShape(db.tables, e);
    }

    /** Pressing the button of ballot line `i`: ignored while the ballot is locked
        or once the session has ended, otherwise it replaces the current choice. */
    method Select(i: nat)
      requires Valid() && i < |roster|
      modifies this
      ensures Valid()
      ensures selected == if old(ended || awaitingNextBallot || hasVotedCurrentBallot) then old(selected) else Some(i)
      ensures hasVotedCurrentBallot == old(hasVotedCurrentBallot) && awaitingNextBallot == old(awaitingNextBallot)
      ensures ended == old(ended)
    {
      if ended || awaitingNextBallot || hasVotedCurrentBallot {
        return;
      }
      selected := Some(i);
    }

    /** Return key: records the selected line's vote and locks the ballot;
        ignored while locked, with nothing selected, or once the session has ended. */
    method Cast(now: int) returns (outcome: CastOutcome)
      requires Valid()
      modifies this, db
      ensures Valid()
      ensures ended == old(ended)
      ensures old(ended || awaitingNextBallot || hasVotedCurrentBallot || selected.None?) ==>
        && outcome == Ignored
        && db.tables == old(db.tables)
        && selected == old(selected)
        && hasVotedCurrentBallot == old(hasVotedCurrentBallot) && awaitingNextBallot == old(awaitingNextBallot)
      ensures !old(ended || awaitingNextBallot || hasVotedCurrentBallot || selected.None?) ==>
        && outcome.Recorded?
        && CastEffect(old(db.tables), electionId, roster[old(selected).value], now) == Ok((db.tables, outcome.voteId))
        && hasVotedCurrentBallot && awaitingNextBallot && selected.None?
    {
      if ended || awaitingNextBallot || hasVotedCurrentBallot || selected.None? {
        return Ignored;
      }
      var entry := roster[selected.value];
      assert entry == NotaSentinel || RegularOf(db.tables, electionId, entry.id);
      CastRecordsOneVote(db.tables, electionId, entry, now);
      CastKeepsRoster(db.tables, electionId, entry, now, roster);
      var (t', id) := CastEffect(db.tables, electionId, entry, now).value;
      db.tables := t';
      hasVotedCurrentBallot := true;
      awaitingNextBallot := true;
      selected := None;
      outcome := Recorded(id);
    }

    /** Space key: the officer releases a locked ballot for the next voter;
        ignored once the session has ended. */
    method NextBallot()
      requires Valid()
      modifies this
      ensures Valid()
      ensures ended == old(ended)
      ensures !old(ended) && old(awaitingNextBallot) ==> !hasVotedCurrentBallot && !awaitingNextBallot && selected.None?
      ensures old(ended) || !old(awaitingNextBallot) ==>
        selected == old(selected) && hasVotedCurrentBallot == old(hasVotedCurrentBallot) &&
        awaitingNextBallot == old(awaitingNextBallot)
    {
      if !ended && awaitingNextBallot {
        hasVotedCurrentBallot := false;
        awaitingNextBallot := false;
        selected := None;
      }
    }

    /** Tab key: on a locked ballot, deletes the election's latest vote and
        releases the ballot as NextBallot does; ignored once the session has ended. */
    method DeleteLastVote()
      requires Valid()
      modifies this, db
      ensures Valid()
      ensures ended == old(ended)
      ensures !old(ended) && old(awaitingNextBallot) ==>
        db.tables == UndoEffect(old(db.tables), electionId) &&
        !hasVotedCurrentBallot && !awaitingNextBallot && selected.None?
      ensures old(ended) || !old(awaitingNextBallot) ==>
        db.tables == old(db.tables) && selected == old(selected) &&
        hasVotedCurrentBallot == old(hasVotedCurrentBallot) && awaitingNextBallot == old(awaitingNextBallot)
    {
      if !ended && awaitingNextBallot {
        UndoRemovesLatest(db.tables, electionId);
        var last := LatestVote(VotesOf(db.tables, electionId));
        if last.Some? {
          db.tables := DeleteVote(db.tables, last.value.id);
        }
        hasVotedCurrentBallot := false;
        awaitingNextBallot := false;
        selected := None;
      }
    }

    /** Any key: Ctrl+q asks for the administrator password (`pw` is None when
        the prompt is cancelled) and ends the session when its hash matches. An
        ended session's window is gone: every other operation then does nothing. */
    method OnKey(state: nat, keysym: string, pw: Option<string>, hash: string -> string)
      requires Valid()
      modifies this
      ensures Valid()
      ensures ended == (old(ended) || (CtrlQ(state, keysym) && pw.Some? && hash(pw.value) == adminHash))
      ensures selected == old(selected)
      ensures hasVotedCurrentBallot == old(hasVotedCurrentBallot) && awaitingNextBallot == old(awaitingNextBallot)
    {
      if CtrlQ(state, keysym) {
        if pw.None? {
          return;
        }
        if hash(pw.value) == adminHash {
          ended := true;
        }
      }
    }
  }
}
