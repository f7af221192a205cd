/** The administrator window: which election is current, the password-gated
    switches between elections, candidate management with its symbol checks,
    clearing votes, the gate in front of a ballot session, and the live results. */
module Admin {
  import opened Store
  import opened Tally
  import opened Symbols
  import opened Voting
  import Exporter

  /** One line of the results window: name, count and percentage (unrounded). */
  datatype ResultLine = ResultLine(candidate: string, votes: nat, percent: real)

  /** Characters `str.strip` removes, restricted to ASCII. */
  predicate IsSpace(c: char) {
    c == ' ' || ('\t' <= c <= '\r') || ('\U{1C}' <= c <= '\U{1F}')
  }

  /** Empty, or nothing left after stripping whitespace. */
  predicate IsBlank(s: string) {
    forall i :: 0 <= i < |s| ==> IsSpace(s[i])
  }

  /** The stored password hash of election `e` matches `pw`. */
  predicate PasswordMatches(t: Tables, e: int, pw: string, hash: string -> string) {
    var stored := FindElection(t.elections, e);
    stored.Some? && hash(pw) == stored.value.adminHash
  }

  /** The election a cancelled or refused switch falls back to: the previous
      one when it is still listed under a non-empty name, otherwise none. */
  function Restore(t: Tables, current: Option<int>): Option<int> {
    if current.None? then None
    else match FindElection(t.elections, current.value)
      case Some(el) => if el.name != "" then current else None
      case None => None
  }

  /** The current election after the list selection changes to `sel` (None when
      the list selection was cleared) and the password prompt answers `pw`
      (None when cancelled). */
  function SelectOutcome(t: Tables, current: Option<int>, sel: Option<int>, pw: Option<string>, hash: string -> string): Option<int> {
    if sel.None? then None
    else if current == sel then current
    else if pw.None? || !PasswordMatches(t, sel.value, pw.value, hash) then Restore(t, current)
    else sel
  }

  /** The switch is password-gated: it lands on a different election only when
      that election was chosen and its password given; clearing the list
      selection clears the current election; re-choosing the current election
      changes nothing; a refused or cancelled switch goes back to the previous
      election when it is still listed under a non-empty name and to none
      otherwise; the result always names an existing election when the
      previous one did. */
  lemma SelectOutcomeFacts(t: Tables, current: Option<int>, sel: Option<int>, pw: Option<string>, hash: string -> string)
    requires current.Some? ==> HasElection(t, current.value)
    requires sel.Some? ==> HasElection(t, sel.value)
    ensures var r := SelectOutcome(t, current, sel, pw, hash);
      var refused := sel.Some? && sel != current && (pw.None? || !PasswordMatches(t, sel.value, pw.value, hash));
      && (sel.None? ==> r.None?)
      && (r.Some? && r != current ==> r == sel && pw.Some? && PasswordMatches(t, sel.value, pw.value, hash))
      && (sel.Some? && sel != current && pw.Some? && PasswordMatches(t, sel.value, pw.value, hash) ==> r == sel)
      && (sel.Some? && sel == current ==> r == current)
      && (refused && current.Some? && FindElection(t.elections, current.value).value.name != "" ==> r == current)
      && (refused && (current.None? || FindElection(t.elections, current.value).value.name == "") ==> r.None?)
      && (r.Some? ==> HasElection(t, r.value))
  {
  }

  /** The whole `results` window contents for rows `rows`. */
  function ResultLines(rows: seq<Row>): (lines: seq<ResultLine>)
    ensures |lines| == |rows|
  {
    var total := TotalVotes(rows);
    seq(|rows|, i requires 0 <= i < |rows| => ResultLine(rows[i].name, rows[i].votes, Percent(rows[i].votes, total)))
  }

  /** The results window and an export of the same election show the same
      candidates, counts and percentages in the same order. */
  lemma ViewAgreesWithExport(t: Tables, e: int)
    requires HasElection(t, e)
    ensures var lines := ResultLines(TallyOf(t, e));
      var out := Exporter.ReportOf(t, e);
      && out.Exported?
      && |lines| == |out.report.results|
      && forall i :: 0 <= i < |lines| ==>
           lines[i].candidate == out.report.results[i].candidate &&
           lines[i].votes == out.report.results[i].votes &&
           lines[i].percent == out.report.results[i].percentage
  {
  }

  // ---------------------------------------------------------------------------
  // What the administrative writes change

  /** A new election has no candidates and no votes. */
  lemma NewElectionIsEmpty(t: Tables, name: string, adminHash: string)
    requires Valid(t)
    ensures var r := InsertElection(t, name, adminHash);
      r.Ok? ==>
        var (t', id) := r.value;
        && Valid(t')
        && FindElection(t'.elections, id) == Some(Election(id, name, adminHash))
        && CandidatesOf(t', id) == []
        && VotesOf(t', id) == []
  {
    var r := InsertElection(t, name, adminHash);
    if r.Ok? {
      InsertElectionValid(t, name, adminHash);
      var (t', id) := r.value;
      NoneSelected(t'.candidates, (c: Candidate) => c.electionId == id);
      forall v | v in t'.votes
        ensures v.electionId != id
      {
        var c :| c in t.candidates && c.id == v.candidateId && c.electionId == v.electionId;
        assert HasElection(t, c.electionId);
      }
      NoneSelected(t'.votes, (v: Vote) => v.electionId == id);
    }
  }

  lemma {:induction false} NoneSelected<T(!new)>(s: seq<T>, keep: T -> bool)
    requires forall x :: x in s ==> !keep(x)
    ensures Filter(s, keep) == []
    decreases |s|
  {
    if s != [] {
      NoneSelected(s[..|s| - 1], keep);
      assert s[|s| - 1] in s;
    }
  }

  /** Deleting an election removes it with all its candidates and votes and
      leaves every other election, its candidates and its votes as they were. */
  lemma DeleteElectionEffect(t: Tables, e: int)
    requires Valid(t)
    ensures var t' := DeleteElection(t, e);
      && Valid(t')
      && !HasElection(t', e) && CandidatesOf(t', e) == [] && VotesOf(t', e) == []
      && forall e' :: e' != e ==>
           && FindElection(t'.elections, e') == FindElection(t.elections, e')
           && (HasElection(t', e') <==> HasElection(t, e'))
           && CandidatesOf(t', e') == CandidatesOf(t, e')
           && VotesOf(t', e') == VotesOf(t, e')
  {
    var t' := DeleteElection(t, e);
    DeleteElectionValid(t, e);
    NoneSelected(t'.candidates, (c: Candidate) => c.electionId == e);
    NoneSelected(t'.votes, (v: Vote) => v.electionId == e);
    forall e' | e' != e
      ensures FindElection(t'.elections, e') == FindElection(t.elections, e')
      ensures CandidatesOf(t', e') == CandidatesOf(t, e')
      ensures VotesOf(t', e') == VotesOf(t, e')
    {
      DeleteElectionKeepsRow(t, e, e');
      DeleteElectionKeepsRows(t, e, e');
    }
  }

  /** Another election's row is found unchanged after the delete. */
  lemma DeleteElectionKeepsRow(t: Tables, e: int, e': int)
    requires Valid(t) && e' != e
    ensures FindElection(DeleteElection(t, e).elections, e') == FindElection(t.elections, e')
  {
    var t' := DeleteElection(t, e);
    if HasElection(t, e') {
      var el :| el in t.elections && el.id == e';
      assert el in t'.elections;
      FilterIncreasing(t.elections, (el: Election) => el.id != e, ElectionId);
      FindUnique(t.elections, el);
      FindUnique(t'.elections, el);
    }
  }

  /** Another election keeps its candidates and its votes after the delete. */
  lemma DeleteElectionKeepsRows(t: Tables, e: int, e': int)
    requires Valid(t) && e' != e
    ensures CandidatesOf(DeleteElection(t, e), e') == CandidatesOf(t, e')
    ensures VotesOf(DeleteElection(t, e), e') == VotesOf(t, e')
  {
    var gone := set c | c in t.candidates && c.electionId == e :: c.id;
    FilterFilter(t.candidates, (c: Candidate) => c.electionId != e, (c: Candidate) => c.electionId == e');
    forall v | v in t.votes && v.electionId == e'
      ensures v.electionId != e && v.candidateId !in gone
    {
      var owner :| owner in t.candidates && owner.id == v.candidateId && owner.electionId == v.electionId;
      forall c | c in t.candidates && c.electionId == e
        ensures c.id != v.candidateId
      {
        if c.id == v.candidateId {
          IdsDetermineCandidate(t.candidates, c, owner);
        }
      }
    }
    FilterFilter(t.votes, (v: Vote) => v.electionId != e && v.candidateId !in gone, (v: Vote) => v.electionId == e');
  }

  /** With increasing ids, the lookup of a row's id finds that row. */
  lemma {:induction false} FindUnique(es: seq<Election>, el: Election)
    requires Increasing(es, ElectionId) && el in es
    ensures FindElection(es, el.id) == Some(el)
    decreases |es|
  {
    if es[0] != el {
      assert ElectionId(es[0]) != ElectionId(el) by {
        var k :| 0 <= k < |es| && es[k] == el;
        assert k != 0;
      }
      assert Increasing(es[1..], ElectionId) by {
        forall i, j | 0 <= i < j < |es| - 1
          ensures ElectionId(es[1..][i]) < ElectionId(es[1..][j])
        {
          assert es[1..][i] == es[i + 1] && es[1..][j] == es[j + 1];
        }
      }
      assert el in es[1..] by {
        var k :| 0 <= k < |es| && es[k] == el;
        assert es[1..][k - 1] == el;
      }
      FindUnique(es[1..], el);
    }
  }

  /** Deleting a candidate's votes and then the candidate is what the cascade
      alone would do; it removes exactly that candidate and its votes, and every
      other candidate keeps its row and its votes. */
  lemma DeleteCandidateEffect(t: Tables, cid: int)
    requires Valid(t)
    ensures var t' := DeleteCandidate(DeleteVotesOfCandidate(t, cid), cid);
      && t' == DeleteCandidate(t, cid)
      && Valid(t')
      && t'.elections == t.elections
      && !HasCandidate(t', cid)
      && VotesFor(t'.votes, cid) == []
      && (forall c: Candidate :: c.id != cid ==> (c in t'.candidates <==> c in t.candidates))
      && (forall x :: x != cid ==> VotesFor(t'.votes, x) == VotesFor(t.votes, x))
  {
    var t' := DeleteCandidate(t, cid);
    FilterFilter(t.votes, (v: Vote) => v.candidateId != cid, (v: Vote) => v.candidateId != cid);
    DeleteCandidateValid(t, cid);
    NoneSelected(t'.votes, (v: Vote) => v.candidateId == cid);
    forall x | x != cid
      ensures VotesFor(t'.votes, x) == VotesFor(t.votes, x)
    {
      FilterFilter(t.votes, (v: Vote) => v.candidateId != cid, (v: Vote) => v.candidateId == x);
    }
  }

  /** Clearing the results removes exactly this election's votes; candidates,
      elections and other elections' votes stay as they were. */
  lemma ClearResultsEffect(t: Tables, e: int)
    requires Valid(t)
    ensures var t' := DeleteVotesOfElection(t, e);
      && Valid(t')
      && VotesOf(t', e) == []
      && t'.elections == t.elections && t'.candidates == t.candidates
      && forall e' :: e' != e ==> VotesOf(t', e') == VotesOf(t, e')
  {
    var t' := DeleteVotesOfElection(t, e);
    FilterVotesValid(t, (v: Vote) => v.electionId != e);
    NoneSelected(t'.votes, (v: Vote) => v.electionId == e);
    forall e' | e' != e
      ensures VotesOf(t', e') == VotesOf(t, e')
    {
      FilterFilter(t.votes, (v: Vote) => v.electionId != e, (v: Vote) => v.electionId == e');
    }
  }

  // ---------------------------------------------------------------------------
  // The window

  /** The path passes the three checks run before a candidate is written. */
  predicate SymbolAccepted(t: Tables, current: Option<int>, path: string, exclude: Option<int>,
                           fileExists: string -> bool, normPath: string -> string) {
    !IsBlank(path) && fileExists(path) && SymbolIsUnique(t, current, path, exclude, normPath)
  }

  /** The first loop of the pre-voting check: names without a usable symbol,
      and (normalised path, name) for the others, both in row order. */
  method CollectSymbols(cs: seq<Candidate>, fileExists: string -> bool, normPath: string -> string)
    returns (missing: seq<string>, pairs: seq<(string, string)>)
    ensures missing == MissingNames(cs, fileExists)
    ensures pairs == PathPairs(cs, fileExists, normPath)
  {
    missing, pairs := [], [];
    for i := 0 to |cs|
      invariant missing == MissingNames(cs[..i], fileExists)
      invariant pairs == PathPairs(cs[..i], fileExists, normPath)
    {
      var c := cs[i];
      assert cs[..i + 1][..i] == cs[..i];
      if !HasSymbol(c, fileExists) {
        missing := missing + [c.name];
      } else {
        pairs := pairs + [(normPath(PathOf(c)), c.name)];
      }
    }
    assert cs[..|cs|] == cs;
  }

  /** The second loop: remember the first name seen for each path and report
      every later name with it. */
  method FindDuplicates(pairs: seq<(string, string)>) returns (dups: seq<(string, string)>)
    ensures dups == DuplicatePairs(pairs)
  {
    var seen: map<string, string> := map[];
    dups := [];
    for i := 0 to |pairs|
      invariant dups == DuplicatePairs(pairs[..i])
      invariant forall p :: p in seen <==> FirstNameFor(pairs[..i], p).Some?
      invariant forall p :: p in seen ==> FirstNameFor(pairs[..i], p) == Some(seen[p])
    {
      var (p, name) := pairs[i];
      assert pairs[..i + 1][..i] == pairs[..i];
      if p in seen {
        dups := dups + [(name, seen[p])];
      } else {
        seen := seen[p := name];
      }
    }
    assert pairs[..|pairs|] == pairs;
  }

  class ElectionApp {
    const db: Database
    var currentElectionId: Option<int>

    ghost predicate Valid()
      reads this, db
    {
      Store.Valid(db.tables) &&
      (currentElectionId.Some? ==> HasElection(db.tables, currentElectionId.value))
    }

    constructor (db: Database)
      requires Store.Valid(db.tables)
      ensures this.db == db && currentElectionId.None? && Valid()
    {
      this.db := db;
      currentElectionId := None;
    }

    /** Creates election `name` with the hash of `pw` and makes it current; a
        taken name changes nothing. */
    method CreateElection(name: string, pw: string, hash: string -> string) returns (r: Result<int>)
      requires Valid()
      modifies this, db
      ensures Valid()
      ensures var res := InsertElection(old(db.tables), name, hash(pw));
        && (res.Err? ==> r == Err(res.error) && db.tables == old(db.tables) && currentElectionId == old(currentElectionId))
        && (res.Ok? ==> r == Ok(res.value.1) && db.tables == res.value.0 && currentElectionId == Some(res.value.1))
    {
      var res := InsertElection(db.tables, name, hash(pw));
      if res.Err? {
        return Err(res.error);
      }
      NewElectionIsEmpty(db.tables, name, hash(pw));
      var (t', id) := res.value;
      db.tables := t';
      currentElectionId := Some(id);
      r := Ok(id);
    }

    /** The list selection changed to `sel`; `pw` answers the password prompt. */
    method SelectElection(sel: Option<int>, pw: Option<string>, hash: string -> string)
      requires Valid() && (sel.Some? ==> HasElection(db.tables, sel.value))
      modifies this
      ensures Valid()
      ensures currentElectionId == SelectOutcome(db.tables, old(currentElectionId), sel, pw, hash)
    {
      SelectOutcomeFacts(db.tables, currentElectionId, sel, pw, hash);
      if sel.None? {
        currentElectionId := None;
        return;
      }
      if currentElectionId == sel {
        return;
      }
      if pw.None? || !PasswordMatches(db.tables, sel.value, pw.value, hash) {
        currentElectionId := Restore(db.tables, currentElectionId);
        return;
      }
      currentElectionId := sel;
    }

    /** Deletes election `sel` after its password and a confirmation; clears the
        current election when it was the one deleted. */
    method DeleteElection(sel: Option<int>, pw: Option<string>, confirmed: bool, hash: string -> string)
      requires Valid() && (sel.Some? ==> HasElection(db.tables, sel.value))
      modifies this, db
      ensures Valid()
      ensures var go := sel.Some? && pw.Some? && PasswordMatches(old(db.tables), sel.value, pw.value, hash) && confirmed;
        && (go ==> db.tables == Store.DeleteElection(old(db.tables), sel.value) &&
                   currentElectionId == if old(currentElectionId) == sel then None else old(currentElectionId))
        && (!go ==> db.tables == old(db.tables) && currentElectionId == old(currentElectionId))
    {
      if sel.None? || pw.None? {
        return;
      }
      if !PasswordMatches(db.tables, sel.value, pw.value, hash) || !confirmed {
        return;
      }
      DeleteElectionEffect(db.tables, sel.value);
      db.tables := Store.DeleteElection(db.tables, sel.value);
      if currentElectionId == sel {
        currentElectionId := None;
      }
    }

    /** Adds candidate (name, path) from the dialog to the current election when
        the path is not blank, names an existing file and is not already used. */
    method AddCandidate(dialog: Option<(string, string)>, fileExists: string -> bool, normPath: string -> string)
      returns (added: bool)
      requires Valid()
      modifies db
      ensures Valid()
      ensures added == (currentElectionId.Some? && dialog.Some? &&
                        SymbolAccepted(old(db.tables), currentElectionId, dialog.value.1, None, fileExists, normPath))
      ensures added ==> db.tables == InsertCandidate(old(db.tables), currentElectionId.value,
                                                     dialog.value.0, Some(dialog.value.1), false).value.0
      ensures !added ==> db.tables == old(db.tables)
    {
      if currentElectionId.None? || dialog.None? {
        return false;
      }
      var (name, path) := dialog.value;
      if IsBlank(path) || !fileExists(path) || !SymbolIsUnique(db.tables, currentElectionId, path, None, normPath) {
        return false;
      }
      InsertCandidateValid(db.tables, currentElectionId.value, name, Some(path), false);
      db.tables := InsertCandidate(db.tables, currentElectionId.value, name, Some(path), false).value.0;
      added := true;
    }

    /** Replaces name and path of candidate `sel` under the same checks, its own
        row excluded from the uniqueness check. */
    method EditCandidate(sel: Option<int>, dialog: Option<(string, string)>, fileExists: string -> bool, normPath: string -> string)
      returns (updated: bool)
      requires Valid() && (sel.Some? ==> HasCandidate(db.tables, sel.value))
      modifies db
      ensures Valid()
      ensures updated == (sel.Some? && dialog.Some? &&
                          SymbolAccepted(old(db.tables), currentElectionId, dialog.value.1, sel, fileExists, normPath))
      ensures updated ==> db.tables == UpdateCandidate(old(db.tables), sel.value, dialog.value.0, Some(dialog.value.1))
      ensures !updated ==> db.tables == old(db.tables)
    {
      if sel.None? || dialog.None? {
        return false;
      }
      var (name, path) := dialog.value;
      if IsBlank(path) || !fileExists(path) || !SymbolIsUnique(db.tables, currentElectionId, path, sel, normPath) {
        return false;
      }
      UpdateCandidateValid(db.tables, sel.value, name, Some(path));
      db.tables := UpdateCandidate(db.tables, sel.value, name, Some(path));
      updated := true;
    }

    /** Deletes candidate `sel` once confirmed: first its votes, then its row. */
    method DeleteCandidate(sel: Option<int>, confirmed: bool)
      requires Valid()
      modifies db
      ensures Valid()
      ensures sel.Some? && confirmed ==>
        db.tables == Store.DeleteCandidate(DeleteVotesOfCandidate(old(db.tables), sel.value), sel.value)
      ensures !(sel.Some? && confirmed) ==> db.tables == old(db.tables)
    {
      if sel.None? || !confirmed {
        return;
      }
      var cid := sel.value;
      DeleteCandidateEffect(db.tables, cid);
      db.tables := DeleteVotesOfCandidate(db.tables, cid);
      db.tables := Store.DeleteCandidate(db.tables, cid);
    }

    /** Deletes every vote of the current election once confirmed. */
    method ClearResults(confirmed: bool)
      requires Valid()
      modifies db
      ensures Valid()
      ensures currentElectionId.Some? && confirmed ==>
        db.tables == DeleteVotesOfElection(old(db.tables), currentElectionId.value)
      ensures !(currentElectionId.Some? && confirmed) ==> db.tables == old(db.tables)
    {
      if currentElectionId.None? || !confirmed {
        return;
      }
      ClearResultsEffect(db.tables, currentElectionId.value);
      db.tables := DeleteVotesOfElection(db.tables, currentElectionId.value);
    }

    /** The pre-voting symbol check, with the message shown beside it. */
    method ValidateElectionSymbols(fileExists: string -> bool, normPath: string -> string)
      returns (v: Verdict, msg: string)
      ensures v == Check(db.tables, currentElectionId, fileExists, normPath)
      ensures msg == Message(v)
    {
      if currentElectionId.None? {
        v := NoElection;
        return v, Message(v);
      }
      var cs := NonNotaOf(db.tables, currentElectionId.value);
      if |cs| == 0 {
        v := NoCandidates;
        return v, Message(v);
      }
      var missing, pairs := CollectSymbols(cs, fileExists, normPath);
      if missing != [] {
        v := Missing(missing);
        return v, Message(v);
      }
      var dups := FindDuplicates(pairs);
      if dups != [] {
        v := Duplicates(dups);
        return v, Message(v);
      }
      v := SymbolsOk;
      msg := Message(v);
    }

    /** Opens a ballot session on the current election when it has a regular
        candidate and passes the symbol check. */
    method StartVoting(fileExists: string -> bool, normPath: string -> string) returns (session: BallotSession?)
      requires Valid()
      ensures session != null <==> Check(db.tables, currentElectionId, fileExists, normPath) == SymbolsOk
      ensures session != null ==>
        && fresh(session)
        && session.Valid()
        && session.db == db
        && session.electionId == currentElectionId.value
        && Some(session.adminHash) == (match FindElection(db.tables.elections, currentElectionId.value)
                                      case Some(el) => Some(el.adminHash)
                                      case None => None)
        && session.roster == Roster(db.tables, currentElectionId.value)
        && session.selected.None? && !session.awaitingNextBallot && !session.hasVotedCurrentBallot
    {
      if currentElectionId.None? {
        return null;
      }
      var count := |NonNotaOf(db.tables, currentElectionId.value)|;
      if count < 1 {
        return null;
      }
      var v, _ := ValidateElectionSymbols(fileExists, normPath);
      if v != SymbolsOk {
        return null;
      }
      var adminHash := FindElection(db.tables.elections, currentElectionId.value).value.adminHash;
      session := new BallotSession(db, currentElectionId.value, adminHash);
    }

    /** The results window of the current election. */
    method ViewResults() returns (lines: Option<seq<ResultLine>>)
      requires Valid()
      ensures currentElectionId.None? ==> lines.None?
      ensures currentElectionId.Some? ==> lines == Some(ResultLines(TallyOf(db.tables, currentElectionId.value)))
    {
      if currentElectionId.None? {
        return None;
      }
      var rows := TallyOf(db.tables, currentElectionId.value);
      lines := Some(ResultLines(rows));
    }
  }
}
