# Kiosk election: a verified model of the ballot session, the administrator window and the results export

The application runs an election on a single kiosk. An administrator creates
password-protected elections, adds candidates with a symbol image each, and
opens a full-screen ballot session. In that session a voter picks one ballot
line (a candidate or NOTA, "none of the above") and presses Return to cast it.
The ballot then stays locked until the polling officer releases it with Space.
Tab undoes the last vote. Ctrl+q with the administrator password ends the
session. The live tally and the exported report count each election's votes
per candidate and give each candidate's percentage.

The project models these parts of the application:

- `store.dfy` (module `Store`): the three SQLite relations (Elections,
  Candidates, Votes) and every statement the application issues against them.
  - Each statement is a function from the tables before it to the tables after it.
  - Foreign keys, cascades, the UNIQUE election name and AUTOINCREMENT ids are included.
  - `Valid` is the invariant every statement keeps: referential integrity, increasing ids, unique election names, and at most one NOTA row per election.
  - The shared `DatabaseManager` is the class `Database`, whose `tables` field the other components reassign.
- `tally.dfy` (module `Tally`): the outer join of an election's candidates with their votes.
  - The rows are ordered by votes, descending.
  - It also gives the total and each row's percentage.
- `symbols.dfy` (module `Symbols`): the two symbol checks.
  - The whole-election check gates the start of voting.
  - The per-candidate uniqueness check runs on add and edit.
- `voting.dfy` (module `Voting`): the ballot session, the class `BallotSession`.
  - It holds a fixed roster, one tentative selection and the two lock flags.
  - Casting and undoing are functions on the store, with lemmas about them.
- `admin.dfy` (module `Admin`): the administrator window, the class `ElectionApp`.
  - It holds the current election and switches it behind the password prompt.
  - It creates and deletes elections; adds, edits and deletes candidates; and clears results.
  - It gates the start of voting and shows the results window.
  - The two loops of the pre-voting check are the methods `CollectSymbols` and `FindDuplicates`.
- `exporter.dfy` (module `Exporter`): the aggregation step of the results export.
  - It looks up the election, runs the tally query and sums the total.
  - It then builds one record per candidate.

Calls the model cannot see become parameters:

- the password hash (SHA-256) is `hash: string -> string`;
- `os.path.exists` is `fileExists`;
- `os.path.normpath` is `normPath`;
- the clock behind `CURRENT_TIMESTAMP` is `now`;
- a password prompt is `Option<string>` (`None` when cancelled);
- a yes/no confirmation is `confirmed`;
- a candidate dialog is `Option<(name, path)>`;
- a list or tree selection is `Option<id>`.

## Model

| member | source | states |
|---|---|---|
| Store.Database.constructor | election_app/db.py:17-59 | A freshly created database has no rows and satisfies the store invariant. |
| Store.FindElection | election_app/exporter.py:16-18 | The lookup returns a row of the table with the requested id; it returns none exactly when no row has that id. |
| Store.InsertElection | election_app/db.py:22-29 | Creating an election fails with a unique-constraint error exactly when an election of that name already exists. |
| Store.InsertCandidate | election_app/db.py:31-39 | Inserting a candidate fails with a foreign-key error exactly when its election does not exist. |
| Store.InsertVote | election_app/db.py:47-56 | Inserting a vote fails with a foreign-key error exactly when its election or its candidate does not exist. |
| Store.UpdateCandidate | election_app/ui.py:549-550 | Editing candidate `cid` gives its row the new name and symbol path. Every other id finds its row unchanged. Elections, votes and id counters stay as they were. Each row keeps its id, its election and its NOTA flag. |
| Store.InsertElectionValid | election_app/ui.py:264 | A successful election insert keeps the store valid, hands out an id no existing election has, makes the new row findable by that id, and leaves candidates and votes unchanged. |
| Store.InsertCandidateValid | election_app/ui.py:519-520 | A candidate insert keeps the store valid (a NOTA row only when the election has none), appends exactly the new row under an unused id, and leaves elections and votes unchanged. |
| Store.InsertVoteValid | election_app/voting.py:341-343 | A vote insert for a candidate of the same election keeps the store valid, appends exactly one vote under an unused id, and leaves elections and candidates unchanged. |
| Store.UpdateCandidateValid | election_app/ui.py:549-550 | Updating a candidate's name and symbol keeps the store valid. |
| Store.FilterVotesValid | election_app/ui.py:649 | Deleting any set of votes keeps the store valid. |
| Store.DeleteCandidateValid | election_app/db.py:54 | Deleting a candidate, with the cascade to its votes, keeps the store valid. |
| Store.DeleteElectionValid | election_app/db.py:31-56 | Deleting an election, with the cascades to its candidates and their votes, keeps the store valid. |
| Store.NotaAtMostOne | election_app/voting.py:333-341 | In a valid store every election has at most one NOTA candidate row. |
| Tally.JoinRows | election_app/exporter.py:23-30 | The join yields one row per candidate, zero-vote candidates included, carrying that candidate's name and symbol, and the number of votes that reference it. |
| Tally.InsertByVotes | election_app/exporter.py:29 | Placing a row into the ordered rows adds exactly that row. |
| Tally.InsertSorted | election_app/exporter.py:29 | Placing a row into rows in non-increasing vote order keeps them in that order. |
| Tally.SortByVotes | election_app/exporter.py:29 | Ordering by votes yields non-increasing counts and is a permutation of its input. |
| Tally.TallyTotalIsVoteCount | election_app/ui.py:593-601 | In a valid store the tally's total equals the number of votes cast in the election, so every vote is counted exactly once. |
| Tally.CountsCoverElection | election_app/exporter.py:23-32 | Summing per-candidate counts over an election's candidates counts every vote of that election once and no vote of another election. |
| Tally.TallyCoversCandidates | election_app/ui.py:593-600 | The tally has one row per candidate of the election, NOTA included, in non-increasing vote order, and is a permutation of the joined rows. |
| Tally.RowBelowTotal | election_app/ui.py:601 | No row has more votes than the total. |
| Tally.ZeroTotal | election_app/ui.py:601 | A zero total means that every row has zero votes. |
| Tally.PercentBounds | election_app/ui.py:630 | A count no larger than the total gives a percentage between 0 and 100. |
| Tally.SumPercentsScaled | election_app/exporter.py:36 | With a positive total, the percentages of any rows add up to their share of that total, times 100. |
| Tally.PercentsSumTo100 | election_app/ui.py:629-630 | Once any vote is cast, the unrounded percentages add up to exactly 100. |
| Tally.PercentsInRange | election_app/ui.py:629-630 | Every percentage lies in [0, 100], and with no votes every count is 0. |
| Tally.TotalSorted | election_app/ui.py:601 | Ordering the rows does not change their total. |
| Tally.JoinTotal | election_app/exporter.py:32 | The total of the joined rows is the sum of the per-candidate counts. |
| Symbols.MissingNames | election_app/ui.py:195-200 | The list of names without a usable symbol is empty exactly when every candidate has a non-empty path naming an existing file. |
| Symbols.MissingNamesAreFiltered | election_app/ui.py:198-200 | The missing names are exactly the names of the candidates without a usable symbol, each once and in row order. |
| Symbols.PathPairs | election_app/ui.py:201-203 | When every candidate has a symbol, the i-th pair is the normalised path and the name of the i-th candidate. |
| Symbols.FirstNameFor | election_app/ui.py:208-215 | The remembered name for a path is absent exactly when no pair has that path. Otherwise it is the name of the first pair with that path, the one `seen_symbols` keeps. |
| Symbols.NoDuplicatesIffDistinct | election_app/ui.py:208-218 | No duplicate is reported exactly when all normalised paths are pairwise distinct. |
| Symbols.DuplicateCount | election_app/ui.py:208-215 | The duplicate entries and the distinct paths together account for every pair, so k candidates sharing a path give k-1 entries. |
| Symbols.CheckOkIff | election_app/ui.py:182-220 | The check passes exactly when an election is selected, it has a regular candidate, every regular candidate has an existing symbol, and no two regular candidates share a normalised path. |
| Symbols.Holders | election_app/ui.py:163-172 | No holder is found exactly when every other regular candidate of the election has a stored path different from the key, the edited candidate excepted. |
| Symbols.AddKeepsDistinctSymbols | election_app/ui.py:516-520 | A candidate admitted by the normalising uniqueness check never gives two regular candidates of the election the same normalised symbol. |
| Symbols.EditKeepsDistinctSymbols | election_app/ui.py:546-550 | An edit admitted by the normalising uniqueness check never introduces a shared normalised symbol either. |
| Symbols.AsWrittenAdmitsDuplicate | election_app/ui.py:156-180 | The check as written, which compares stored raw paths with the normalised new path, admits a second candidate for a file already in use. |
| Exporter.Entries | election_app/exporter.py:34-42 | The export makes one record per query row, in row order, with the row's name, count and symbol path unchanged. |
| Exporter.ReportOf | election_app/exporter.py:16-18 | The export fails with "election not found" exactly when the election does not exist. |
| Exporter.ExportResults | election_app/exporter.py:16-42 | The record-building loop produces exactly the report of the election. |
| Exporter.EntryPercentsAreRowPercents | election_app/exporter.py:36 | The records' percentages add up to the same sum as the rows' percentages. |
| Exporter.ReportFacts | election_app/exporter.py:23-42 | An export of an existing election reports every candidate once, in non-increasing vote order, with a total equal to the votes cast. Every percentage lies in [0, 100], all are 0 without votes, and they add up to 100 otherwise. |
| Exporter.TotalIsSumOfEntries | election_app/exporter.py:32 | The reported total is the sum of the records' counts. |
| Voting.RosterShape | election_app/voting.py:131-134 | The roster lists the election's regular candidates in query order, followed by exactly one NOTA entry, which is the last line. |
| Voting.CastFailsOnlyOnMissingRows | election_app/voting.py:331-343 | A cast fails only when the election, or the selected regular candidate, no longer exists. |
| Voting.CastRecordsOneVote | election_app/voting.py:333-343 | A cast on a valid store appends exactly one vote, for this election and the counted candidate, and keeps the store valid. A NOTA cast reuses the election's NOTA row or creates one, and afterwards the election has exactly one. |
| Voting.CastForRegular | election_app/voting.py:342-343 | A vote for a regular candidate appends one vote and leaves candidates unchanged. |
| Voting.CastForExistingNota | election_app/voting.py:333-341 | A NOTA vote reuses the existing NOTA row and adds no candidate. |
| Voting.CastForNewNota | election_app/voting.py:336-341 | A NOTA vote in an election without a NOTA row creates exactly one, under the next id, and counts the vote for it. |
| Voting.CastCountsOnce | election_app/voting.py:341-343 | A cast adds one vote to the counted candidate, leaves every other candidate's count unchanged, and adds one vote to the election. |
| Voting.CastKeepsRoster | election_app/voting.py:333-341 | After a cast every roster line still names a regular candidate of the election. |
| Voting.LatestVote | election_app/voting.py:363-368 | The query finds no vote exactly when there are none; otherwise it finds a vote with the greatest timestamp. |
| Voting.UndoRemovesLatest | election_app/voting.py:361-379 | An undo deletes exactly one vote of this election with the greatest timestamp, or nothing when it has none. The store stays valid, and no other election's votes, candidate or election changes. |
| Voting.UndoAfterCastRestoresVotes | election_app/voting.py:361-371 | When every earlier vote of the election carries an older timestamp than the cast, the undo right after the cast deletes exactly that cast's vote. No tie is involved, so the model's tie rule plays no part. |
| Voting.UndoAfterClockStepBack | election_app/voting.py:363-371 | When the clock steps back between two casts, the undo after the second cast deletes the first ballot's vote. |
| Voting.BallotSession.constructor | election_app/voting.py:73-136 | A new session shows the election's roster with nothing selected and both flags clear. |
| Voting.BallotSession.Select | election_app/voting.py:315-320 | A selection is ignored while the ballot is locked or after the session has ended. Otherwise it replaces the single tentative choice. |
| Voting.BallotSession.Cast | election_app/voting.py:327-351 | With nothing selected, a locked ballot or an ended session, nothing is written. Otherwise exactly the cast's statements run, both flags are set and the selection is cleared. The flags stay equal throughout. |
| Voting.BallotSession.NextBallot | election_app/voting.py:353-359 | A locked ballot of a running session is released with both flags and the selection cleared. Otherwise nothing changes. |
| Voting.BallotSession.DeleteLastVote | election_app/voting.py:361-379 | On a locked ballot of a running session, the election's latest vote is deleted and the ballot is released exactly as NextBallot does. Otherwise nothing changes. |
| Voting.BallotSession.OnKey | election_app/voting.py:381-400 | The session ends only on Ctrl+q followed by the administrator's password, and stays ended. A cancelled prompt or a wrong password changes nothing. Once ended, Select, Cast, NextBallot and DeleteLastVote do nothing, as the destroyed window receives no more events. |
| Admin.SelectOutcomeFacts | election_app/ui.py:326-414 | Clearing the list selection clears the current election, and re-choosing the current election is a no-op. Another election becomes current exactly when it was chosen and its password given. A refused or cancelled switch restores the previous election when it is still listed under a non-empty name, and clears it otherwise. |
| Admin.ViewAgreesWithExport | election_app/ui.py:593-630 | The results window and the export show the same candidates, counts and percentages in the same order. |
| Admin.NewElectionIsEmpty | election_app/ui.py:263-266 | A newly created election is findable by its id and has no candidates and no votes. |
| Admin.DeleteElectionEffect | election_app/ui.py:294 | Deleting an election removes it with all its candidates and votes. Every other election is found with the same row, the same candidates and the same votes. |
| Admin.DeleteCandidateEffect | election_app/ui.py:565-566 | Deleting a candidate's votes and then its row equals the cascade alone. It removes exactly that candidate and its votes, and leaves every other candidate's row and votes as they were. |
| Admin.ClearResultsEffect | election_app/ui.py:649 | Clearing removes exactly the election's votes; elections, candidates and other elections' votes are unchanged. |
| Admin.CollectSymbols | election_app/ui.py:195-206 | The first loop yields exactly the missing names and the (normalised path, name) pairs the check specifies. |
| Admin.FindDuplicates | election_app/ui.py:208-215 | The second loop, with its map of first-seen names, yields exactly the specified duplicate entries. |
| Admin.ElectionApp.constructor | election_app/ui.py:26-33 | The window starts with no current election. |
| Admin.ElectionApp.CreateElection | election_app/ui.py:257-269 | A taken name changes nothing. Otherwise the election is inserted with the password's hash and becomes current. |
| Admin.ElectionApp.SelectElection | election_app/ui.py:326-414 | The current election becomes the password-gated outcome of the list selection. It always names an existing election or none. |
| Admin.ElectionApp.DeleteElection | election_app/ui.py:271-303 | The election is deleted only with its password and a confirmation. Deleting the current election clears it. |
| Admin.ElectionApp.AddCandidate | election_app/ui.py:499-522 | A candidate is inserted, with its raw path, exactly when an election is current and the path is non-blank, names an existing file and passes the uniqueness check. Otherwise nothing is written. |
| Admin.ElectionApp.EditCandidate | election_app/ui.py:524-552 | A candidate is updated exactly when the dialog was confirmed and the path passes the same three checks, the candidate's own row excepted. Otherwise nothing is written. |
| Admin.ElectionApp.DeleteCandidate | election_app/ui.py:554-568 | A confirmed deletion removes the candidate's votes and then its row; otherwise nothing is written. |
| Admin.ElectionApp.ClearResults | election_app/ui.py:639-650 | A confirmed clear removes the current election's votes; otherwise nothing is written. |
| Admin.ElectionApp.ValidateElectionSymbols | election_app/ui.py:182-220 | The verdict is the specified check, with its message. |
| Admin.ElectionApp.StartVoting | election_app/ui.py:570-587 | A session opens exactly when the symbol check passes. It opens on the current election, with its stored password hash, its roster and a clear ballot. |
| Admin.ElectionApp.ViewResults | election_app/ui.py:589-631 | Without a current election nothing is shown; otherwise the lines are the election's tally with its percentages. |

## Left out

- Tk presentation is not modelled: windows, layout, scrolling, message boxes, election-list loading and refreshes, and the guard against selection events during loading.
  - A list or tree selection enters as the id it denotes.
  - The election list's ordering by creation time is therefore not modelled.
- Dialog forms (`election_app/dialogs.py`) are not modelled.
  - Names and passwords are taken as the dialogs return them.
  - The dialogs' own "required" checks are not repeated.
- SQLite connections, the lock and concurrency are not modelled.
  - Each statement is one atomic function on the tables.
  - The NOTA lookup-then-insert is not atomic in the original, and the race it permits is out of scope.
- Timestamps are abstract integers (`now`); the one-second resolution of `CURRENT_TIMESTAMP` is not modelled.
- Ties are an assumption of the model, because SQLite leaves both orders unspecified:
  - among votes with equal timestamps, the undo takes the one stored last;
  - candidates with equal counts keep their insertion order.
- Percentages are exact reals. The `round(…, 2)` of the export and the two-decimal display of the results window are not modelled.
- The export that runs when a session ends is not modelled: files, directories, formats, timestamps.
  - `Voting.BallotSession.OnKey` only records that the session has ended.
  - The interactive export button of the administrator window, which asks for a directory and writes files, is not modelled either.
- Audio, image rendering and keyboard remapping are not modelled.
- SHA-256, `os.path.exists` and `os.path.normpath` are uninterpreted function parameters.
- `Admin.IsSpace` covers the ASCII whitespace that `str.strip` removes; other Unicode whitespace is not modelled.
- `Voting.CtrlQ` compares the key name with "q" and "Q". Other key names whose lower-case form is "q" are not modelled.
- `Voting.BallotSession.NextBallot`: calling it twice is the same as calling it once. This follows from its contract but is not a separate lemma, because lemmas cannot call methods.
- `Admin.ElectionApp.AddCandidate` and `Admin.ElectionApp.EditCandidate` use the corrected, normalising uniqueness check described under Findings. The check as written is modelled by `Symbols.SymbolIsUniqueAsWritten`.
- `Admin.ElectionApp.SelectElection` and `Admin.ElectionApp.DeleteElection` require the selected id to be an existing election, because the list shows only existing elections.
- `Admin.ElectionApp.EditCandidate` requires the selected id to be an existing candidate, because the tree shows only existing candidates.

## Findings

| source | as written | input that shows it | evidently intended | confidence | as-written member | corrected member |
|---|---|---|---|---|---|---|
| election_app/ui.py:161-172 | The uniqueness check normalises the new path, then compares it with the stored paths as they are. Add and edit store the raw path. | Stored symbol "C:/s/a.png", where normalisation maps "C:/s/a.png" to "C:\s\a.png". Adding another candidate with "C:/s/a.png" passes the check. | Compare normalised with normalised, so that no two candidates of an election share a symbol file. The pre-voting check compares them that way. | not executed | Symbols.AsWrittenAdmitsDuplicate | Symbols.AddKeepsDistinctSymbols |
