/** Symbol checks of the administrator window: the per-candidate uniqueness
    check run when a candidate is added or edited, and the whole-election check
    that gates the start of voting. The filesystem enters as two parameters:
    `fileExists` (whether a path names an existing file) and `normPath` (the
    platform's lexical path normalisation). */
module Symbols {
  import opened Store

  // ---------------------------------------------------------------------------
  // The whole-election check

  /** Outcome of the check; the first failing condition wins. */
  datatype Verdict =
    | SymbolsOk
    | NoElection
    | NoCandidates
    | Missing(names: seq<string>)
    /** (later candidate, earlier candidate) for each repeat of a normalised path */
    | Duplicates(pairs: seq<(string, string)>)

  /** The stored symbol path, with NULL read as the empty path. */
  function PathOf(c: Candidate): string {
    if c.symbolPath.Some? then c.symbolPath.value else ""
  }

  /** The candidate has a non-empty symbol path naming an existing file. */
  predicate HasSymbol(c: Candidate, fileExists: string -> bool) {
    PathOf(c) != "" && fileExists(PathOf(c))
  }

  /** The names of `cs`, in order. */
  function Names(cs: seq<Candidate>): (names: seq<string>)
    ensures |names| == |cs| && forall i :: 0 <= i < |cs| ==> names[i] == cs[i].name
  {
    seq(|cs|, i requires 0 <= i < |cs| => cs[i].name)
  }

  /** Names of the candidates without a usable symbol, in row order. */
  function MissingNames(cs: seq<Candidate>, fileExists: string -> bool): (names: seq<string>)
    ensures names == [] <==> forall c :: c in cs ==> HasSymbol(c, fileExists)
    ensures |names| <= |cs|
  {
    if cs == [] then []
    else
      var init, last := cs[..|cs| - 1], cs[|cs| - 1];
      assert cs == init + [last];
      MissingNames(init, fileExists) + (if HasSymbol(last, fileExists) then [] else [last.name])
  }

  /** The missing names are exactly the names of the candidates without a
      usable symbol, each once and in row order. */
  lemma {:induction false} MissingNamesAreFiltered(cs: seq<Candidate>, fileExists: string -> bool)
    ensures MissingNames(cs, fileExists) == Names(Filter(cs, (c: Candidate) => !HasSymbol(c, fileExists)))
    decreases |cs|
  {
    if cs != [] {
      var init, last := cs[..|cs| - 1], cs[|cs| - 1];
      var keep := (c: Candidate) => !HasSymbol(c, fileExists);
      var extra := if keep(last) then [last] else [];
      assert cs == init + [last];
      assert MissingNames(cs, fileExists) == MissingNames(init, fileExists) + Names(extra);
      MissingNamesAreFiltered(init, fileExists);
      FilterAppend(init, last, keep);
      NamesAppend(Filter(init, keep), extra);
    }
  }

  lemma NamesAppend(a: seq<Candidate>, b: seq<Candidate>)
    ensures Names(a + b) == Names(a) + Names(b)
  {
  }

  /** (normalised path, name) of each candidate with a usable symbol, in row order. */
  function PathPairs(cs: seq<Candidate>, fileExists: string -> bool, normPath: string -> string): (ps: seq<(string, string)>)
    ensures (forall c :: c in cs ==> HasSymbol(c, fileExists)) ==>
      |ps| == |cs| &&
      forall i :: 0 <= i < |cs| ==> ps[i] == (normPath(PathOf(cs[i])), cs[i].name)
  {
    if cs == [] then []
    else
      var init, last := cs[..|cs| - 1], cs[|cs| - 1];
      assert cs == init + [last];
      PathPairs(init, fileExists, normPath) +
        (if HasSymbol(last, fileExists) then [(normPath(PathOf(last)), last.name)] else [])
  }

  /** The name first recorded for path `p` (the `seen_symbols` entry). */
  function FirstNameFor(ps: seq<(string, string)>, p: string): (r: Option<string>)
    ensures r.None? <==> forall i :: 0 <= i < |ps| ==> ps[i].0 != p
    ensures r.Some? ==> exists i :: 0 <= i < |ps| && ps[i] == (p, r.value) &&
                                    (forall j :: 0 <= j < i ==> ps[j].0 != p)
  {
    if ps == [] then None
    else
      var init, last := ps[..|ps| - 1], ps[|ps| - 1];
      var r0 := FirstNameFor(init, p);
      assert forall i :: 0 <= i < |init| ==> ps[i] == init[i];
      if r0.Some? then r0
      else if last.0 == p then Some(last.1)
      else None
  }

  /** One (name, first name) entry for every pair whose path was seen before. */
  function DuplicatePairs(ps: seq<(string, string)>): seq<(string, string)> {
    if ps == [] then []
    else
      var init, last := ps[..|ps| - 1], ps[|ps| - 1];
      var first := FirstNameFor(init, last.0);
      DuplicatePairs(init) + (if first.Some? then [(last.1, first.value)] else [])
  }

  /** The symbol check of election `current` in tables `t`. */
  function Check(t: Tables, current: Option<int>, fileExists: string -> bool, normPath: string -> string): Verdict {
    if current.None? then NoElection
    else
      var cs := NonNotaOf(t, current.value);
      if cs == [] then NoCandidates
      else
        var missing := MissingNames(cs, fileExists);
        if missing != [] then Missing(missing)
        else
          var dups := DuplicatePairs(PathPairs(cs, fileExists, normPath));
          if dups != [] then Duplicates(dups)
          else SymbolsOk
  }

  /** The text returned beside the verdict. */
  function Message(v: Verdict): string {
    match v
    case SymbolsOk => "All symbols are valid and unique"
    case NoElection => "No election selected"
    case NoCandidates => "No candidates found"
    case Missing(names) => "Missing symbols for: " + Join(names, ", ")
    case Duplicates(pairs) => "Duplicate symbols found: " + Join(PairTexts(pairs), "; ")
  }

  function PairTexts(pairs: seq<(string, string)>): seq<string> {
    seq(|pairs|, i requires 0 <= i < |pairs| => pairs[i].0 + " and " + pairs[i].1)
  }

  function Join(parts: seq<string>, sep: string): string {
    if parts == [] then ""
    else if |parts| == 1 then parts[0]
    else parts[0] + sep + Join(parts[1..], sep)
  }

  // ---------------------------------------------------------------------------
  // Properties of the whole-election check

  ghost predicate DistinctPaths(ps: seq<(string, string)>) {
    forall i, j :: 0 <= i < j < |ps| ==> ps[i].0 != ps[j].0
  }

  /** No duplicate is reported exactly when the paths are pairwise distinct. */
  lemma {:induction false} NoDuplicatesIffDistinct(ps: seq<(string, string)>)
    ensures DuplicatePairs(ps) == [] <==> DistinctPaths(ps)
    decreases |ps|
  {
    if ps != [] {
      var init, last := ps[..|ps| - 1], ps[|ps| - 1];
      NoDuplicatesIffDistinct(init);
      assert forall i :: 0 <= i < |init| ==> ps[i] == init[i];
      if DistinctPaths(ps) {
        assert DistinctPaths(init);
        assert forall i :: 0 <= i < |init| ==> init[i].0 != last.0;
      } else if DuplicatePairs(init) == [] && FirstNameFor(init, last.0).None? {
        forall i, j | 0 <= i < j < |ps|
          ensures ps[i].0 != ps[j].0
        {
          if j < |ps| - 1 {
            assert init[i].0 != init[j].0;
          } else {
            assert init[i].0 != last.0;
          }
        }
      }
    }
  }

  function Paths(ps: seq<(string, string)>): set<string> {
    set i | 0 <= i < |ps| :: ps[i].0
  }

  /** Every path shared by k candidates contributes exactly k - 1 entries:
      the entries and the distinct paths together account for every pair. */
  lemma {:induction false} DuplicateCount(ps: seq<(string, string)>)
    ensures |DuplicatePairs(ps)| + |Paths(ps)| == |ps|
    decreases |ps|
  {
    if ps == [] {
      assert Paths(ps) == {};
    } else {
      var init, last := ps[..|ps| - 1], ps[|ps| - 1];
      DuplicateCount(init);
      assert Paths(ps) == Paths(init) + {last.0} by {
        forall p | p in Paths(ps)
          ensures p in Paths(init) + {last.0}
        {
          var i :| 0 <= i < |ps| && ps[i].0 == p;
          if i < |init| {
            assert init[i] == ps[i];
          }
        }
        forall p | p in Paths(init)
          ensures p in Paths(ps)
        {
          var i :| 0 <= i < |init| && init[i].0 == p;
          assert ps[i] == init[i];
        }
      }
      if FirstNameFor(init, last.0).Some? {
        var i :| 0 <= i < |init| && init[i].0 == last.0;
        assert last.0 in Paths(init);
      } else {
        assert last.0 !in Paths(init);
      }
    }
  }

  /** Voting may start exactly when an election is selected, it has at least
      one regular candidate, every regular candidate has an existing symbol
      file, and no two of them share a normalised symbol path. */
  lemma CheckOkIff(t: Tables, current: Option<int>, fileExists: string -> bool, normPath: string -> string)
    ensures Check(t, current, fileExists, normPath) == SymbolsOk <==>
      && current.Some?
      && NonNotaOf(t, current.value) != []
      && (forall c :: c in NonNotaOf(t, current.value) ==> HasSymbol(c, fileExists))
      && (forall i, j :: 0 <= i < j < |NonNotaOf(t, current.value)| ==>
            normPath(PathOf(NonNotaOf(t, current.value)[i])) !=
            normPath(PathOf(NonNotaOf(t, current.value)[j])))
  {
    if current.Some? {
      var cs := NonNotaOf(t, current.value);
      var ps := PathPairs(cs, fileExists, normPath);
      NoDuplicatesIffDistinct(ps);
      if forall c :: c in cs ==> HasSymbol(c, fileExists) {
        assert forall i :: 0 <= i < |cs| ==> ps[i].0 == normPath(PathOf(cs[i]));
      }
    }
  }

  // ---------------------------------------------------------------------------
  // The per-candidate uniqueness check

  /** Names of the other regular candidates of `e` whose stored symbol path
      equals `key`; `exclude` is the candidate being edited, if any. */
  function Holders(cs: seq<Candidate>, e: int, key: string, exclude: Option<int>, stored: string -> string): (names: seq<string>)
    ensures names == [] <==> forall c :: c in cs ==>
      (c.electionId == e && !c.isNota && c.symbolPath.Some? && stored(c.symbolPath.value) == key ==> exclude == Some(c.id))
  {
    if cs == [] then []
    else
      var init, last := cs[..|cs| - 1], cs[|cs| - 1];
      assert cs == init + [last];
      var hit := last.electionId == e && !last.isNota && last.symbolPath.Some? &&
        stored(last.symbolPath.value) == key && exclude != Some(last.id);
      Holders(init, e, key, exclude, stored) + (if hit then [last.name] else [])
  }

  /** The uniqueness check as the administrator window performs it: the new
      path is normalised but compared with the stored paths as they are. */
  predicate SymbolIsUniqueAsWritten(t: Tables, current: Option<int>, path: string, exclude: Option<int>, normPath: string -> string) {
    path == "" || current.None? ||
    Holders(t.candidates, current.value, normPath(path), exclude, p => p) == []
  }

  /** The uniqueness check with both sides normalised. */
  predicate SymbolIsUnique(t: Tables, current: Option<int>, path: string, exclude: Option<int>, normPath: string -> string) {
    path == "" || current.None? ||
    Holders(t.candidates, current.value, normPath(path), exclude, normPath) == []
  }

  /** No two regular candidates of `e` have symbol paths with the same normal form. */
  ghost predicate DistinctSymbols(cs: seq<Candidate>, e: int, normPath: string -> string) {
    forall c1, c2 :: c1 in cs && c2 in cs ==>
      (c1.electionId == e && c2.electionId == e && !c1.isNota && !c2.isNota &&
       c1.symbolPath.Some? && c2.symbolPath.Some? && c1.id != c2.id ==>
       normPath(c1.symbolPath.value) != normPath(c2.symbolPath.value))
  }

  /** A candidate admitted by the normalising check never introduces a
      duplicate symbol. */
  lemma AddKeepsDistinctSymbols(t: Tables, e: int, name: string, path: string, normPath: string -> string)
    requires Valid(t) && HasElection(t, e)
    requires DistinctSymbols(t.candidates, e, normPath)
    requires path != "" && SymbolIsUnique(t, Some(e), path, None, normPath)
    ensures var r := InsertCandidate(t, e, name, Some(path), false);
      r.Ok? && DistinctSymbols(r.value.0.candidates, e, normPath)
  {
    var n := Candidate(t.nextCandidateId, e, name, Some(path), false);
    forall c | c in t.candidates
      ensures c.id != n.id
    {
    }
    assert InsertCandidate(t, e, name, Some(path), false).value.0.candidates == t.candidates + [n];
  }

  /** An edit admitted by the normalising check never introduces a duplicate
      symbol either. */
  lemma EditKeepsDistinctSymbols(t: Tables, e: int, cid: int, name: string, path: string, normPath: string -> string)
    requires Valid(t)
    requires DistinctSymbols(t.candidates, e, normPath)
    requires path != "" && SymbolIsUnique(t, Some(e), path, Some(cid), normPath)
    ensures DistinctSymbols(UpdateCandidate(t, cid, name, Some(path)).candidates, e, normPath)
  {
    var cs, cs' := t.candidates, UpdateCandidate(t, cid, name, Some(path)).candidates;
    forall c1, c2 | c1 in cs' && c2 in cs' && c1.electionId == e && c2.electionId == e &&
      !c1.isNota && !c2.isNota && c1.symbolPath.Some? && c2.symbolPath.Some? && c1.id != c2.id
      ensures normPath(c1.symbolPath.value) != normPath(c2.symbolPath.value)
    {
      var i :| 0 <= i < |cs'| && cs'[i] == c1;
      var j :| 0 <= j < |cs'| && cs'[j] == c2;
      if cs[i].id == cid {
        assert cs[j].id != cid && cs[j] == c2 && cs[j] in cs;
      } else if cs[j].id == cid {
        assert cs[i] == c1 && cs[i] in cs;
      } else {
        assert cs[i] == c1 && cs[j] == c2;
      }
    }
  }

  /** A normalisation that rewrites forward slashes of one path, as on Windows. */
  function WinNorm(p: string): string {
    if p == "C:/s/a.png" then "C:\\s\\a.png" else p
  }

  /** An election whose one candidate stores its symbol as "C:/s/a.png". */
  function SlashExample(): Tables {
    Tables([Election(1, "E", "h")], [Candidate(1, 1, "A", Some("C:/s/a.png"), false)], [], 2, 2, 1)
  }

  lemma SlashExampleValid()
    ensures Valid(SlashExample()) && HasElection(SlashExample(), 1)
    ensures DistinctSymbols(SlashExample().candidates, 1, WinNorm)
  {
    assert SlashExample().elections[0].id == 1;
  }

  lemma SlashExampleChecks()
    ensures SymbolIsUniqueAsWritten(SlashExample(), Some(1), "C:/s/a.png", None, WinNorm)
    ensures !SymbolIsUnique(SlashExample(), Some(1), "C:/s/a.png", None, WinNorm)
  {
    assert "C:\\s\\a.png" != "C:/s/a.png" by { assert "C:\\s\\a.png"[2] != "C:/s/a.png"[2]; }
    assert SlashExample().candidates[0] in SlashExample().candidates;
  }

  /** The check as written lets a duplicate through whenever the stored path is
      not already in normal form: a symbol stored as "C:/s/a.png" is not found
      when the same file is chosen again and normalised to "C:\s\a.png". */
  lemma AsWrittenAdmitsDuplicate()
    ensures Valid(SlashExample()) && DistinctSymbols(SlashExample().candidates, 1, WinNorm)
    ensures SymbolIsUniqueAsWritten(SlashExample(), Some(1), "C:/s/a.png", None, WinNorm)
    ensures !SymbolIsUnique(SlashExample(), Some(1), "C:/s/a.png", None, WinNorm)
    ensures InsertCandidate(SlashExample(), 1, "B", Some("C:/s/a.png"), false).Ok?
    ensures !DistinctSymbols(InsertCandidate(SlashExample(), 1, "B", Some("C:/s/a.png"), false).value.0.candidates, 1, WinNorm)
  {
    SlashExampleValid();
    SlashExampleChecks();
    var a := SlashExample().candidates[0];
    var b := Candidate(2, 1, "B", Some("C:/s/a.png"), false);
    var cs := InsertCandidate(SlashExample(), 1, "B", Some("C:/s/a.png"), false).value.0.candidates;
    assert cs == [a, b];
    assert a in cs && b in cs;
  }
}
