/** The live tally: the outer join of an election's candidates with the votes
    that reference them, ordered by vote count, with the total and the
    percentage of each row. Both the results window and the exporter read it. */
module Tally {
  import opened Store

  /** One row of `SELECT c.name, COUNT(v.id), c.symbol_path ... GROUP BY c.id`. */
  datatype Row = Row(name: string, votes: nat, symbolPath: Option<string>)

  /** The votes that name candidate `cid` (the join condition c.id = v.candidate_id). */
  function VotesFor(vs: seq<Vote>, cid: int): seq<Vote> {
    Filter(vs, (v: Vote) => v.candidateId == cid)
  }

  function RowOf(c: Candidate, vs: seq<Vote>): Row {
    Row(c.name, |VotesFor(vs, c.id)|, c.symbolPath)
  }

  /** The grouped rows before ORDER BY: one per candidate, zero-vote ones included. */
  function JoinRows(cs: seq<Candidate>, vs: seq<Vote>): (rows: seq<Row>)
    ensures |rows| == |cs|
    ensures forall i :: 0 <= i < |cs| ==>
      rows[i].name == cs[i].name && rows[i].symbolPath == cs[i].symbolPath &&
      rows[i].votes == |VotesFor(vs, cs[i].id)|
  {
    if cs == [] then [] else [RowOf(cs[0], vs)] + JoinRows(cs[1..], vs)
  }

  /** sum(r[1] for r in rows) */
  function TotalVotes(rows: seq<Row>): nat {
    if rows == [] then 0 else rows[0].votes + TotalVotes(rows[1..])
  }

  /** votes / total * 100, or 0 when the total is 0 (never a division by zero). */
  function Percent(votes: nat, total: nat): real {
    if total > 0 then votes as real / total as real * 100.0 else 0.0
  }

  ghost predicate SortedByVotes(rows: seq<Row>) {
    forall i, j :: 0 <= i < j < |rows| ==> rows[i].votes >= rows[j].votes
  }

  /** Places `r` after every row with at least as many votes. */
  function InsertByVotes(r: Row, sorted: seq<Row>): (out: seq<Row>)
    ensures multiset(out) == multiset(sorted) + multiset{r}
  {
    if sorted == [] then [r]
    else if sorted[0].votes >= r.votes then
      assert sorted == [sorted[0]] + sorted[1..];
      [sorted[0]] + InsertByVotes(r, sorted[1..])
    else [r] + sorted
  }

  /** Inserting into a sorted sequence keeps it sorted. */
  lemma {:induction false} InsertSorted(r: Row, sorted: seq<Row>)
    requires SortedByVotes(sorted)
    ensures SortedByVotes(InsertByVotes(r, sorted))
    decreases |sorted|
  {
    if sorted != [] && sorted[0].votes >= r.votes {
      var rest := InsertByVotes(r, sorted[1..]);
      InsertSorted(r, sorted[1..]);
      HeadBoundsInsert(r, sorted);
      PrependSorted(sorted[0], rest);
    }
  }

  /** The head of a sorted sequence that outranks `r` outranks every row of
      the insertion into its tail. */
  lemma HeadBoundsInsert(r: Row, sorted: seq<Row>)
    requires SortedByVotes(sorted) && sorted != [] && sorted[0].votes >= r.votes
    ensures forall x :: x in InsertByVotes(r, sorted[1..]) ==> sorted[0].votes >= x.votes
  {
    var rest := InsertByVotes(r, sorted[1..]);
    forall x | x in rest
      ensures sorted[0].votes >= x.votes
    {
      assert x in multiset(rest);
      if x != r {
        assert x in multiset(sorted[1..]);
        var k :| 0 <= k < |sorted[1..]| && sorted[1..][k] == x;
        assert sorted[k + 1] == x;
      }
    }
  }

  lemma PrependSorted(h: Row, rest: seq<Row>)
    requires SortedByVotes(rest)
    requires forall x :: x in rest ==> h.votes >= x.votes
    ensures SortedByVotes([h] + rest)
  {
    var out := [h] + rest;
    forall i, j | 0 <= i < j < |out|
      ensures out[i].votes >= out[j].votes
    {
      if i == 0 {
        assert out[j] == rest[j - 1];
        assert out[j] in rest;
      } else {
        assert out[i] == rest[i - 1] && out[j] == rest[j - 1];
      }
    }
  }

  /** ORDER BY votes DESC; rows with equal counts keep their grouped order. */
  function SortByVotes(rows: seq<Row>): (out: seq<Row>)
    ensures SortedByVotes(out)
    ensures multiset(out) == multiset(rows)
  {
    if rows == [] then []
    else
      var init, last := rows[..|rows| - 1], rows[|rows| - 1];
      assert rows == init + [last];
      var sorted := SortByVotes(init);
      InsertSorted(last, sorted);
      InsertByVotes(last, sorted)
  }

  /** The tally of election `e`, in the order the query returns it. */
  function TallyOf(t: Tables, e: int): seq<Row> {
    SortByVotes(JoinRows(CandidatesOf(t, e), t.votes))
  }

  // ---------------------------------------------------------------------------
  // Totals

  lemma {:induction false} TotalAppend(rows: seq<Row>, r: Row)
    ensures TotalVotes(rows + [r]) == TotalVotes(rows) + r.votes
    decreases |rows|
  {
    if rows != [] {
      assert (rows + [r])[1..] == rows[1..] + [r];
      TotalAppend(rows[1..], r);
    }
  }

  lemma {:induction false} TotalInsert(r: Row, sorted: seq<Row>)
    ensures TotalVotes(InsertByVotes(r, sorted)) == TotalVotes(sorted) + r.votes
    decreases |sorted|
  {
    if sorted != [] && sorted[0].votes >= r.votes {
      TotalInsert(r, sorted[1..]);
      assert ([sorted[0]] + InsertByVotes(r, sorted[1..]))[1..] == InsertByVotes(r, sorted[1..]);
    }
  }

  /** Sorting does not change the total. */
  lemma {:induction false} TotalSorted(rows: seq<Row>)
    ensures TotalVotes(SortByVotes(rows)) == TotalVotes(rows)
    decreases |rows|
  {
    if rows != [] {
      var init, last := rows[..|rows| - 1], rows[|rows| - 1];
      assert rows == init + [last];
      assert SortByVotes(rows) == InsertByVotes(last, SortByVotes(init));
      TotalSorted(init);
      TotalInsert(last, SortByVotes(init));
      TotalAppend(init, last);
    }
  }

  /** No row has more votes than the total. */
  lemma {:induction false} RowBelowTotal(rows: seq<Row>, i: nat)
    requires i < |rows|
    ensures rows[i].votes <= TotalVotes(rows)
    decreases i
  {
    if i > 0 {
      RowBelowTotal(rows[1..], i - 1);
    }
  }

  /** A zero total means every row has zero votes. */
  lemma {:induction false} ZeroTotal(rows: seq<Row>)
    requires TotalVotes(rows) == 0
    ensures forall i :: 0 <= i < |rows| ==> rows[i].votes == 0
    decreases |rows|
  {
    if rows != [] {
      ZeroTotal(rows[1..]);
      forall i | 0 < i < |rows|
        ensures rows[i].votes == 0
      {
        assert rows[i] == rows[1..][i - 1];
      }
    }
  }

  lemma PercentBounds(votes: nat, total: nat)
    requires votes <= total
    ensures 0.0 <= Percent(votes, total) <= 100.0
  {
    if total > 0 {
      assert votes as real / total as real <= 1.0;
    }
  }

  /** Sum over `rows` of each row's percentage of `total`. */
  function SumPercents(rows: seq<Row>, total: nat): real {
    if rows == [] then 0.0 else Percent(rows[0].votes, total) + SumPercents(rows[1..], total)
  }

  lemma {:induction false} SumPercentsScaled(rows: seq<Row>, total: nat)
    requires total > 0
    ensures SumPercents(rows, total) == TotalVotes(rows) as real / total as real * 100.0
    decreases |rows|
  {
    if rows != [] {
      SumPercentsScaled(rows[1..], total);
      var a, b, d := rows[0].votes as real, TotalVotes(rows[1..]) as real, total as real;
      assert a / d * 100.0 + b / d * 100.0 == (a + b) / d * 100.0;
    }
  }

  /** Whenever a vote has been cast, the percentages add up to exactly 100. */
  lemma PercentsSumTo100(rows: seq<Row>)
    requires TotalVotes(rows) > 0
    ensures SumPercents(rows, TotalVotes(rows)) == 100.0
  {
    SumPercentsScaled(rows, TotalVotes(rows));
    var d := TotalVotes(rows) as real;
    assert d / d == 1.0;
  }

  /** Every percentage lies between 0 and 100, and all are 0 when no vote was cast. */
  lemma PercentsInRange(rows: seq<Row>)
    ensures forall i :: 0 <= i < |rows| ==> 0.0 <= Percent(rows[i].votes, TotalVotes(rows)) <= 100.0
    ensures TotalVotes(rows) == 0 ==> forall i :: 0 <= i < |rows| ==> rows[i].votes == 0
  {
    forall i | 0 <= i < |rows|
      ensures 0.0 <= Percent(rows[i].votes, TotalVotes(rows)) <= 100.0
    {
      RowBelowTotal(rows, i);
      PercentBounds(rows[i].votes, TotalVotes(rows));
    }
    if TotalVotes(rows) == 0 {
      ZeroTotal(rows);
    }
  }

  // ---------------------------------------------------------------------------
  // Every vote of the election is counted exactly once

  /** How many of `cs` carry id `x`. */
  function Hits(cs: seq<Candidate>, x: int): nat {
    if cs == [] then 0 else (if cs[0].id == x then 1 else 0) + Hits(cs[1..], x)
  }

  /** Sum over `cs` of each candidate's vote count. */
  function SumCounts(cs: seq<Candidate>, vs: seq<Vote>): nat {
    if cs == [] then 0 else |VotesFor(vs, cs[0].id)| + SumCounts(cs[1..], vs)
  }

  lemma {:induction false} JoinTotal(cs: seq<Candidate>, vs: seq<Vote>)
    ensures TotalVotes(JoinRows(cs, vs)) == SumCounts(cs, vs)
    decreases |cs|
  {
    if cs != [] {
      JoinTotal(cs[1..], vs);
    }
  }

  lemma {:induction false} SumCountsAppend(cs: seq<Candidate>, vs: seq<Vote>, v: Vote)
    ensures SumCounts(cs, vs + [v]) == SumCounts(cs, vs) + Hits(cs, v.candidateId)
    decreases |cs|
  {
    if cs != [] {
      SumCountsAppend(cs[1..], vs, v);
      FilterAppend(vs, v, (w: Vote) => w.candidateId == cs[0].id);
    }
  }

  /** With distinct ids, a candidate id is hit once if present and never otherwise. */
  lemma {:induction false} HitsDistinct(cs: seq<Candidate>, x: int)
    requires Increasing(cs, CandidateId)
    ensures Hits(cs, x) == if exists c :: c in cs && c.id == x then 1 else 0
    decreases |cs|
  {
    if cs != [] {
      assert Increasing(cs[1..], CandidateId) by {
        forall i, j | 0 <= i < j < |cs[1..]|
          ensures CandidateId(cs[1..][i]) < CandidateId(cs[1..][j])
        {
          assert CandidateId(cs[i + 1]) < CandidateId(cs[j + 1]);
        }
      }
      HitsDistinct(cs[1..], x);
      if cs[0].id == x {
        forall c | c in cs[1..]
          ensures c.id != x
        {
          var k :| 0 <= k < |cs[1..]| && cs[1..][k] == c;
          assert CandidateId(cs[0]) < CandidateId(cs[k + 1]);
        }
      } else {
        forall c | c in cs && c.id == x
          ensures c in cs[1..]
        {
          var k :| 0 <= k < |cs| && cs[k] == c;
          assert k != 0;
          assert cs[1..][k - 1] == c;
        }
      }
    }
  }

  /** Double counting: summing the per-candidate counts over the candidates of
      an election counts each vote of that election once and no other vote. */
  lemma {:induction false} CountsCoverElection(all: seq<Candidate>, cs: seq<Candidate>, vs: seq<Vote>, e: int)
    requires Increasing(all, CandidateId) && Increasing(cs, CandidateId)
    requires forall c :: c in cs <==> c in all && c.electionId == e
    requires forall v :: v in vs ==> RefersWithin(all, v)
    ensures SumCounts(cs, vs) == |Filter(vs, (v: Vote) => v.electionId == e)|
    decreases |vs|
  {
    if vs == [] {
      assert SumCounts(cs, vs) == 0 by { NoVotesNoCounts(cs, vs); }
    } else {
      var init, v := vs[..|vs| - 1], vs[|vs| - 1];
      assert vs == init + [v];
      CountsCoverElection(all, cs, init, e);
      SumCountsAppend(cs, init, v);
      FilterAppend(init, v, (w: Vote) => w.electionId == e);
      HitsDistinct(cs, v.candidateId);
      assert v in vs;
      var owner :| owner in all && owner.id == v.candidateId && owner.electionId == v.electionId;
      if v.electionId == e {
        assert owner in cs;
      } else {
        forall c | c in cs
          ensures c.id != v.candidateId
        {
          if c.id == v.candidateId {
            IdsDetermineCandidate(all, c, owner);
          }
        }
      }
    }
  }

  lemma {:induction false} NoVotesNoCounts(cs: seq<Candidate>, vs: seq<Vote>)
    requires vs == []
    ensures SumCounts(cs, vs) == 0
    decreases |cs|
  {
    if cs != [] {
      NoVotesNoCounts(cs[1..], vs);
    }
  }

  /** The tally's total is exactly the number of votes cast in the election. */
  lemma TallyTotalIsVoteCount(t: Tables, e: int)
    requires Valid(t)
    ensures TotalVotes(TallyOf(t, e)) == |VotesOf(t, e)|
  {
    var cs := CandidatesOf(t, e);
    FilterIncreasing(t.candidates, (c: Candidate) => c.electionId == e, CandidateId);
    TotalSorted(JoinRows(cs, t.votes));
    JoinTotal(cs, t.votes);
    CountsCoverElection(t.candidates, cs, t.votes, e);
  }

  /** The tally lists every candidate of the election once, NOTA and zero-vote
      candidates included, sorted by votes. */
  lemma TallyCoversCandidates(t: Tables, e: int)
    ensures |TallyOf(t, e)| == |CandidatesOf(t, e)|
    ensures SortedByVotes(TallyOf(t, e))
    ensures multiset(TallyOf(t, e)) == multiset(JoinRows(CandidatesOf(t, e), t.votes))
  {
    var rows := JoinRows(CandidatesOf(t, e), t.votes);
    assert |multiset(TallyOf(t, e))| == |multiset(rows)|;
  }
}
