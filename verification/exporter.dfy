/** The aggregation step of the results export: the election's name, the total
    number of votes and one record per candidate. Writing the records to files
    is not part of this model. */
module Exporter {
  import opened Store
  import opened Tally

  /** One record of `results_data`; `percentage` is kept unrounded. */
  datatype Entry = Entry(candidate: string, votes: nat, percentage: real, symbolPath: Option<string>)

  datatype Report = Report(electionName: string, totalVotes: nat, results: seq<Entry>)

  /** A missing election raises "Election not found" before anything is built. */
  datatype ExportOutcome = ElectionNotFound | Exported(report: Report)

  function EntryOf(r: Row, total: nat): Entry {
    Entry(r.name, r.votes, Percent(r.votes, total), r.symbolPath)
  }

  /** The records built from the query rows, one per row and in row order. */
  function Entries(rows: seq<Row>, total: nat): (es: seq<Entry>)
    ensures |es| == |rows|
    ensures forall i :: 0 <= i < |rows| ==>
      es[i].candidate == rows[i].name && es[i].votes == rows[i].votes &&
      es[i].symbolPath == rows[i].symbolPath
  {
    seq(|rows|, i requires 0 <= i < |rows| => EntryOf(rows[i], total))
  }

  /** What the export of election `e` produces from tables `t`. */
  function ReportOf(t: Tables, e: int): (out: ExportOutcome)
    ensures out.ElectionNotFound? <==> !HasElection(t, e)
  {
    match FindElection(t.elections, e)
    case None => ElectionNotFound
    case Some(el) =>
      var rows := TallyOf(t, e);
      var total := TotalVotes(rows);
      Exported(Report(el.name, total, Entries(rows, total)))
  }

  /** The aggregation as the exporter performs it: look the election up, run
      the tally query, sum the counts, then build the records one by one. */
  method ExportResults(db: Database, e: int) returns (out: ExportOutcome)
    ensures out == ReportOf(db.tables, e)
  {
    var found := FindElection(db.tables.elections, e);
    if found.None? {
      return ElectionNotFound;
    }
    var rows := TallyOf(db.tables, e);
    var total := TotalVotes(rows);
    var results: seq<Entry> := [];
    for i := 0 to |rows|
      invariant results == Entries(rows[..i], total)
    {
      results := results + [EntryOf(rows[i], total)];
    }
    assert rows[..|rows|] == rows;
    return Exported(Report(found.value.name, total, results));
  }

  function SumEntryPercents(es: seq<Entry>): real {
    if es == [] then 0.0 else es[0].percentage + SumEntryPercents(es[1..])
  }

  lemma {:induction false} EntryPercentsAreRowPercents(rows: seq<Row>, total: nat)
    ensures SumEntryPercents(Entries(rows, total)) == SumPercents(rows, total)
    decreases |rows|
  {
    if rows != [] {
      assert Entries(rows, total)[1..] == Entries(rows[1..], total);
      EntryPercentsAreRowPercents(rows[1..], total);
    }
  }

  /** What an export of an existing election reports: one record per
      candidate (NOTA and zero-vote candidates included) in non-increasing
      vote order, a total equal to the number of votes cast in the election,
      percentages in [0, 100] that are all 0 without votes and add up to 100
      otherwise. */
  lemma ReportFacts(t: Tables, e: int)
    requires Valid(t) && HasElection(t, e)
    ensures var out := ReportOf(t, e);
      && out.Exported?
      && out.report.totalVotes == |VotesOf(t, e)|
      && |out.report.results| == |CandidatesOf(t, e)|
      && (forall i, j :: 0 <= i < j < |out.report.results| ==>
            out.report.results[i].votes >= out.report.results[j].votes)
      && (forall i :: 0 <= i < |out.report.results| ==>
            0.0 <= out.report.results[i].percentage <= 100.0)
      && (out.report.totalVotes == 0 ==> forall i :: 0 <= i < |out.report.results| ==>
            out.report.results[i].percentage == 0.0)
      && (out.report.totalVotes > 0 ==> SumEntryPercents(out.report.results) == 100.0)
  {
    var rows := TallyOf(t, e);
    var total := TotalVotes(rows);
    TallyTotalIsVoteCount(t, e);
    TallyCoversCandidates(t, e);
    PercentsInRange(rows);
    EntryPercentsAreRowPercents(rows, total);
    if total > 0 {
      PercentsSumTo100(rows);
    }
  }

  /** The report's total is the sum of its records' counts. */
  lemma {:induction false} TotalIsSumOfEntries(rows: seq<Row>, total: nat)
    ensures SumEntryVotes(Entries(rows, total)) == TotalVotes(rows)
    decreases |rows|
  {
    if rows != [] {
      assert Entries(rows, total)[1..] == Entries(rows[1..], total);
      TotalIsSumOfEntries(rows[1..], total);
    }
  }

  function SumEntryVotes(es: seq<Entry>): nat {
    if es == [] then 0 else es[0].votes + SumEntryVotes(es[1..])
  }
}
