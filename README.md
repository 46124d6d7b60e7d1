# durn-the-third: a verified model of the vote tally, the election rules and the ballot screen

durn-the-third is an election system. Its Go server keeps elections, candidates and ballots and counts them. Two counts exist:

- Schulze: a pairwise preference matrix, then strongest paths, then a ranking.
- Instant runoff: stage by stage, the candidate with the fewest first choices is eliminated.

Its React client shows the results, lets a voter order the candidates by dragging them, and lets an administrator create an election.

This project models the core of both halves in Dafny and proves what each part promises.

Server side:

| file | what it models |
|---|---|
| `schulze_paths.dfy` | `StrongestPaths`: the in-place Floyd–Warshall widest-path pass, proved to compute, for every pair, the widest path of the input matrix |
| `preferences.dfy` | the preference matrix of `CountVotesSchultze`: `prefer[a][b]` counts the voters who rank a above b |
| `ranking_order.dfy` | the result permutation and the reordered `VoteMatrix`/`SchultzeMatrix` |
| `ballot_rows.dfy` | the (vote, rank, candidate) rows `CastVote` writes, and the rebuild `GetVotes`/`CountVotes` perform |
| `instant_runoff.dfy` | one stage of `CountVotes`, and its loop bounded by fuel |
| `election_store.dfy` | the handlers of `elections.go` and `CastVote` as a `Store` class over maps; every handler keeps the store's invariant, and none ever clears `Finalized` |
| `json_time.dfy`, `time_interval.dfy` | `NullTime` with its JSON null branch, and `TimeIsInValidInterval` |

Client side:

| file | what it models |
|---|---|
| `seat_bands.dfy` | the elected, substitute ("Suppleang", as the page spells it) and not-elected bands of `DisplaySchultzeResult`, and the matrix cell colours |
| `voting_order.dfy` | the drag-and-drop remap, the `-` labels, the initial sort key, `disabled` and the secret check of `Voting.tsx` |
| `compare_list.dfy` | `compareList`, proved equal to a recursive lexicographic order |
| `create_election.dfy` | the `onSubmit` checks and the candidate-list handlers of `CreateElection.tsx` |
| `get_params.dfy` | the query-string cut of `useGetParams` |

Modelling conventions:

- UUIDs are natural numbers. The store hands them out from a counter `nextId`, in place of `uuid.NewV4`.
- Times are integers. The current time is a parameter `now`.
- Strings are `seq<char>`. JSON bytes are `seq<bv8>`.
- The names `util.BlankCandidate` and `util.VacantCandidate` are `"Blank"` and `"Vakant"`, as the client's texts show them. The proofs rely only on the two being different.
- The constants `util.InvalidElection` and `util.InvalidElectionMessage` are both read as "Invalid election specified".

## Model

| member | source | states |
|---|---|---|
| SchulzePaths.StrongestPaths | server/actions/votes.go:409-425 | the result is a new square matrix of the same size, so the input is unchanged; the diagonal is copied; no entry is lowered; every off-diagonal entry is the widest-path value of the input (the largest, over walks from i to j, of the smallest edge on the walk); and `res[i][j] >= min(res[i][k], res[k][j])` for distinct i, j, k |
| SchulzePaths.RelaxRound | server/actions/votes.go:412-421 | one pass of the outer loop over k turns every entry from its value after round k into its value after round k + 1 |
| SchulzePaths.RelaxRow | server/actions/votes.go:413-420 | one pass of the loop over i updates row i to its value after round k + 1 and leaves every other row as it was |
| SchulzePaths.PivotUnchanged | server/actions/votes.go:415-419 | round k never changes row k or column k, which is why the update can be done in place |
| SchulzePaths.FinalStageIsWidest | server/actions/votes.go:411-422 | after the k-th round of the triple loop every pair holds the widest value over walks whose inner vertices are below k; after all rounds this is the widest value over all walks |
| SchulzePaths.StageIsUpperBound | server/actions/votes.go:411-422 | no walk with inner vertices below k is wider than the value after round k |
| SchulzePaths.UpperBoundThroughPivot | server/actions/votes.go:415-419 | a walk through k - 1 is no wider than the value after round k: cut it at its first and last visit of k - 1 |
| SchulzePaths.StageIsReached | server/actions/votes.go:411-422 | some walk with inner vertices below k attains the value after round k |
| SchulzePaths.StageDiagonal | server/actions/votes.go:414 | the `i != j && j != k && k != i` guard leaves the diagonal as it was |
| SchulzePaths.WidestIsAnEntry | server/actions/votes.go:415-418 | a widest-path value is an off-diagonal entry of the input, since only max and min produce it |
| SchulzePaths.WidestBounds | server/actions/votes.go:415-418 | a widest-path value lies between the least and the largest off-diagonal input entry (so it is non-negative for non-negative input) |
| SchulzePaths.WidestAtLeastDirect | server/actions/votes.go:415-418 | a widest-path value is at least the direct edge |
| SchulzePaths.WidestTriangle | server/actions/votes.go:411-422 | widest-path values satisfy `v[i][j] >= min(v[i][k], v[k][j])` |
| SchulzePaths.StrengthSplit | server/actions/votes.go:417 | the strength of a walk is the minimum of the strengths of its two halves |
| SchulzePaths.StrengthIsAnEdge | server/actions/votes.go:417 | the strength of a walk is the weight of one of its edges |
| Preferences.BuildPreferences | server/actions/votes.go:342-364 | `prefer[a][b]` is the number of pairs (a before b) over all ballots, after the ids are translated to candidate indices |
| Preferences.IndexCandidates | server/actions/votes.go:342-354 | `candidateIndexes` maps each candidate id to its index, and the matrix starts at all zeros |
| Preferences.AddBallot | server/actions/votes.go:357-363 | one ballot adds, to each entry, the number of its pairs ranked in that order, and changes nothing else |
| Preferences.IndexMap | server/actions/votes.go:348-349 | the index map covers exactly the candidate ids, and each index points back to its id |
| PreferenceFacts.PreferencesCountVoters | server/actions/votes.go:345-364 | when every ballot lists each candidate once, `prefer[a][b]` is the number of voters who rank a above b, and `prefer[a][b] + prefer[b][a]` is the number of votes for a != b |
| PreferenceFacts.BallotCounts | server/actions/votes.go:359-361 | one complete ballot adds one to `prefer[a][b]` exactly when it ranks a above b, and adds one to exactly one of `prefer[a][b]` and `prefer[b][a]` |
| PreferenceFacts.TranslatedBallotCovers | server/actions/votes.go:359-361 | a translated complete ballot holds every candidate index |
| PreferenceFacts.TallyCountsVoters | server/actions/votes.go:356-364 | for ballots without repeats, the pair count equals the number of voters who put a before b |
| PreferenceFacts.TallyComplement | server/actions/votes.go:356-364 | for complete ballots and a != b, the two opposite counts add up to the number of ballots |
| PreferenceFacts.TallyDiagonal | server/actions/votes.go:350-364 | the diagonal stays 0 |
| PreferenceFacts.TallyUnanimous | server/actions/votes.go:356-364 | when every voter puts a before b, `prefer[a][b]` is the number of votes and `prefer[b][a]` is 0 |
| PreferenceFacts.TranslatedBallotOrder | server/actions/votes.go:359-361 | translating ids to indices keeps the order of every pair |
| PreferenceFacts.BeforeExclusive | server/actions/votes.go:356-364 | in a ballot without repeats, exactly one of two listed candidates comes first |
| SchulzeRanking.TieOrder | server/actions/votes.go:368-381 | the shuffled and sorted `result` is a permutation of 0..N-1 |
| SchulzeRanking.BuildResponse | server/actions/votes.go:394-404 | `Ranking[r]` is candidate `result[r]`; both matrices are `prefer` and `p` with rows and columns reordered by `result` |
| SchulzeRanking.ReorderingKeepsEntries | server/actions/votes.go:394-404 | every entry of the input matrix appears in the reordered one, at the positions of its two candidates |
| SchulzeRanking.RankingIsPermutation | server/actions/votes.go:394-395 | the returned ranking lists the same candidates as the election, each once |
| SchulzeRanking.BeatsTransitive | server/actions/votes.go:377-381 | on a matrix closed under the triangle rule, "beats" (`p[a][b] > p[b][a]`, the strict part of the sort's non-strict comparator `p[a][b] >= p[b][a]`) is transitive; this is a fact about the matrix, not about the returned `result`, of which `TieOrder` proves only that it is a permutation |
| SchulzeRanking.UnbeatenExists | server/actions/votes.go:377-381 | on such a matrix every non-empty prefix of candidates has one that no other beats in that strict sense, so a Schulze winner exists; like `BeatsTransitive` it is about the matrix, and it is not proved that `result` puts such a candidate first |
| BallotRows.WriteRows | server/actions/votes.go:113-123 | rank r is written as the row (vote, r, ranking[r]) |
| BallotRows.Rebuild | server/actions/votes.go:188-192 | `Rankings[row.Rank] = row.CandidateID` over the rows gives `Rebuilt` |
| BallotRows.RebuiltAt | server/actions/votes.go:188-192 | a slot holds the candidate of the row with that rank |
| BallotRows.RoundTrip | server/actions/votes.go:113-118 | rebuilding the written rows, listed in any order, gives back the submitted ranking |
| InstantRunoff.FirstActive | server/actions/votes.go:262-268 | a ballot counts for a candidate on it that is not eliminated, and for nobody exactly when all its candidates are eliminated |
| InstantRunoff.FirstActiveAt | server/actions/votes.go:263-267 | the ballot counts for its first candidate that is not eliminated |
| InstantRunoff.CountFirstChoices | server/actions/votes.go:260-269 | `count` holds exactly the candidates with votes, each with the number of ballots whose first active candidate it is |
| InstantRunoff.VotesPositive | server/actions/votes.go:262-268 | each ballot that counts adds a vote to its candidate |
| InstantRunoff.CountSum | server/actions/votes.go:273-279 | summing counts over the map's keys, in any order, is the number of ballots that count for a candidate the filter selects |
| InstantRunoff.ChooseElimination | server/actions/votes.go:271-286 | `total` is the sum of all non-Blank counts; `Blanks` is the Blank count; the eliminated candidate is neither Blank nor Vacant and has the fewest votes of those, and none is chosen when no candidate may be eliminated |
| InstantRunoff.StageRows | server/actions/votes.go:289-298 | one row per counted non-Blank candidate, with its name and votes, flagged exactly when it is the eliminated one |
| InstantRunoff.SortByVotes | server/actions/votes.go:300-302 | the rows are sorted by descending votes and are a permutation of the input |
| InstantRunoff.TopOfSorted | server/actions/votes.go:300-304 | the first sorted row has the most votes |
| InstantRunoff.DoneIsMajority | server/actions/votes.go:304 | the stop test `Candidates[0].Votes*2 > total` holds exactly when some non-Blank candidate has more than half of the non-Blank votes |
| InstantRunoff.RunStage | server/actions/votes.go:259-307 | a stage panics exactly when it has no row to read; otherwise its rows are, as a multiset, exactly one row (name, votes, eliminated flag) for each non-Blank candidate with votes, listed in a visit order that names each such candidate once, sorted by descending votes; it also reports the Blank votes, a fewest-votes eliminable candidate (or none when there is none) and whether a majority was reached |
| InstantRunoff.CountStages | server/actions/votes.go:258-309 | the stages form a run: each stage starts from the eliminated set the previous one left, eliminates a fewest-votes eliminable candidate or nobody, and lists exactly one row per non-Blank candidate with votes, sorted by descending votes, together with its Blank count; it ends with a decision exactly when the last stage had a majority, and no earlier stage had one |
| InstantRunoff.RunShowsCounted | server/actions/votes.go:289-298 | in every stage of a run, each non-Blank candidate with votes has a row with its name and its votes |
| InstantRunoff.RunRowsAreCounted | server/actions/votes.go:289-298 | in every stage of a run, each row shows a non-Blank candidate with votes, with those votes |
| InstantRunoff.CountedIsListed | server/actions/votes.go:289-298 | the rows of a stage hold the row of every counted non-Blank candidate |
| InstantRunoff.ListedIsCounted | server/actions/votes.go:289-298 | every row of a stage is the row of a counted non-Blank candidate of the visit order |
| InstantRunoff.SymbolicNeverEliminated | server/actions/votes.go:280-287 | across a whole run, Blank and Vacant are never in the eliminated set |
| JsonTime.ConvertNullTime | server/util/json.go:106-111 | copies Time and Valid |
| JsonTime.ConvertSqlNullTime | server/util/json.go:113-118 | copies Time and Valid |
| JsonTime.ConversionsAreInverse | server/util/json.go:106-118 | the two conversions are mutual inverses |
| JsonTime.MarshalJSON | server/util/json.go:99-104 | an invalid time gives exactly the bytes "null", a valid one its encoded time |
| JsonTime.Unmarshalled | server/util/json.go:86-97 | the receiver and error `UnmarshalJSON` leaves: "null" clears Valid and keeps Time with no error; any other input stores the decoded time, sets Valid and passes on the decoder's error |
| JsonTime.NullTimeVar.UnmarshalJSON | server/util/json.go:86-97 | the receiver's new value and the error are those `Unmarshalled` describes |
| JsonTime.UnmarshalNull | server/util/json.go:86-90 | "null" sets Valid to false, keeps Time, and reports no error |
| JsonTime.UnmarshalOther | server/util/json.go:92-96 | any other input sets Valid to true, even when the parse reports an error |
| JsonTime.RoundTripInvalid | server/util/json.go:86-102 | unmarshalling the marshalled form of an invalid time gives an invalid time |
| JsonTime.RoundTripValid | server/util/json.go:92-104 | a valid time comes back whole when the time encoding round-trips |
| TimeInterval.TimeIsInValidInterval | server/util/misc.go:17-25 | true exactly when both bounds are set and start <= time <= end, both ends inclusive |
| TimeInterval.UnsetBoundIsClosed | server/util/misc.go:18-20 | a missing bound makes every time fall outside |
| TimeInterval.ReversedIntervalIsEmpty | server/util/misc.go:21-23 | with start after end, no time is inside |
| TimeInterval.EndsAreInside | server/util/misc.go:21-23 | both endpoints of a well-formed interval are inside |
| ElectionStore.EditChangesOnlyPresentFields | server/actions/elections.go:144-155 | an edit changes only the fields present in the body; absent fields, `Published`, `Finalized` and the mandates keep their values |
| ElectionStore.Store.CreateElection | server/actions/elections.go:61-83 | a fresh election, unpublished, unfinalized, with an empty description and no times, plus exactly two new symbolic candidates, Vacant and Blank; nothing else changes |
| ElectionStore.Store.EditElection | server/actions/elections.go:132-155 | an unknown id and a finalized election are rejected with their messages and change nothing; otherwise only the present fields change |
| ElectionStore.Store.SetPublished | server/actions/elections.go:176-182 | sets `Published` to the given value and nothing else, so publishing or unpublishing twice changes nothing |
| ElectionStore.Store.Finalize | server/actions/elections.go:216-222 | sets `Finalized` to true and nothing else |
| ElectionStore.Store.AddCandidate | server/actions/elections.go:343-369 | the reserved names, an unknown election and a published election are rejected in that order with their messages; otherwise exactly one new, non-symbolic candidate is added |
| ElectionStore.Store.EditCandidate | server/actions/elections.go:399-413 | an unknown candidate is rejected; otherwise only the present fields of that candidate change |
| ElectionStore.Store.RemoveCandidate | server/actions/elections.go:436-458 | rejected, in this order, when the open time is set and has passed, when the election is finalized, or when it has votes; otherwise exactly that candidate is removed |
| ElectionStore.Store.CastVote | server/actions/votes.go:64-123 | rejects an unknown election, a finalized or closed one, and a ranking whose set of ids differs from the candidate set or whose length differs from the number of candidates (the corrected test of the Findings table; the source applies the set test alone); an accepted ballot is stored row by row and other ballots are kept; a voter with an earlier vote (same user hash) has that vote's rankings replaced, with no new Vote or CastedVote |
| ElectionStore.Store.FindOrCreateVote | server/actions/votes.go:92-111 | finds the vote with the user hash and clears its rankings, or creates the Vote and the CastedVote |
| ElectionStore.Store.AddVote | server/actions/votes.go:95-106 | a fresh vote id maps to the new Vote, the CastedVote for the email and election is added, and nothing else changes |
| ElectionStore.Store.ClearRankings | server/actions/votes.go:108-110 | no ranking of the vote remains, the rankings of every other vote are kept, and nothing else changes |
| ElectionStore.Store.WriteRankings | server/actions/votes.go:113-123 | writes one ranking row per rank for the vote and keeps all other rows |
| ElectionStore.Store.CountGuard | server/actions/votes.go:326-340 | counting is refused for an unknown election, an unfinalized one and one without votes, with those messages, and allowed otherwise |
| ElectionStore.StoredBallotRebuilds | server/actions/votes.go:240-243 | the stored rows of a ballot, loaded in any order, rebuild the ballot that was cast |
| ElectionStore.RepeatedCandidatePassesSameSet | server/actions/votes.go:82-88 | the as-written set test accepts the ballot [1, 1, 2] for the candidates {1, 2} |
| ElectionStore.CorrectedTestRefusesOnlyRepeats | server/actions/votes.go:82-88 | every ranking the corrected test accepts passes the set test, and of the rankings the set test accepts, the corrected test refuses exactly those that name a candidate twice |
| ElectionStore.AcceptedBallotIsComplete | server/actions/votes.go:82-88 | a ballot the corrected test accepts lists every candidate exactly once, which is what the preference builder needs |
| SeatBands.FirstSymbolic | client/src/components/DisplayResult.tsx:134-140 | the index of the first symbolic candidate, or the ranking's length when there is none |
| SeatBands.FirstSymbolicUnique | client/src/components/DisplayResult.tsx:134-140 | only one index fits that description |
| SeatBands.Slice | client/src/components/DisplayResult.tsx:165 | `slice` with in-range bounds is the sub-sequence, and an empty one when the end is not past the start |
| SeatBands.Numbered | client/src/components/DisplayResult.tsx:168 | row i of a band starting at offset shows rank i + 1 + offset |
| SeatBands.Elected | client/src/components/DisplayResult.tsx:153-165 | the elected band: the first min(mandates, firstSymbolic) candidates, numbered from 1, and nothing when firstSymbolic is 0 |
| SeatBands.Secondary | client/src/components/DisplayResult.tsx:180-199 | the substitutes' band: candidates from mandates up to min(mandates + extraMandates, firstSymbolic), numbered on from mandates, shown only when extraMandates > 0 and firstSymbolic > mandates |
| SeatBands.NotElected | client/src/components/DisplayResult.tsx:214-230 | the not-elected band: every candidate from min(mandates + extraMandates, firstSymbolic) on, numbered on from there, shown only when that band is non-empty |
| SeatBands.ElectedAreNotSymbolic | client/src/components/DisplayResult.tsx:153-165 | the elected band has min(mandates, firstSymbolic) candidates and none is symbolic |
| SeatBands.SecondaryAreNotSymbolic | client/src/components/DisplayResult.tsx:180-199 | the substitutes' band holds no symbolic candidate and is non-empty whenever it is shown |
| SeatBands.NotElectedShownIffNonEmpty | client/src/components/DisplayResult.tsx:214-230 | the not-elected table is shown exactly when its band is non-empty |
| SeatBands.BandsPartitionRanking | client/src/components/DisplayResult.tsx:165-237 | the three tables, concatenated, list the whole ranking in order, each row with its place plus one |
| SeatBands.GetBoxClass | client/src/components/DisplayResult.tsx:272-276 | `getBoxClass(a, b)`: bad when a < b, good when b < a, neutral when equal |
| SeatBands.BoxClassOfMirror | client/src/components/DisplayResult.tsx:272-276 | bad when a < b, good when b < a, neutral when equal; a cell and its mirror get swapped classes |
| SeatBands.CellsAgainstMirror | client/src/components/DisplayResult.tsx:292-299 | a diagonal cell prints "-" and is neutral; any other cell prints its entry and is coloured against its mirror |
| CompareList.Lex | client/src/util/funcs.ts:1-8 | the lexicographic order returns -1, 0 or 1 |
| CompareList.Compare | client/src/util/funcs.ts:1-8 | the index loop with its early returns, including the step at index min(length) where one list has no entry, returns the lexicographic order |
| CompareList.LexDropPrefix | client/src/util/funcs.ts:2-5 | a common prefix does not change the result |
| CompareList.LexReflexive | client/src/util/funcs.ts:1-8 | every list compares equal to itself |
| CompareList.LexAntisymmetric | client/src/util/funcs.ts:2-7 | swapping the arguments negates the result |
| CompareList.LexZeroIffEqual | client/src/util/funcs.ts:2-7 | the result is 0 exactly for equal lists |
| CompareList.FirstDifferenceDecides | client/src/util/funcs.ts:3-4 | the first index where the lists differ decides |
| CompareList.ProperPrefixIsLess | client/src/util/funcs.ts:6-7 | a proper prefix compares as -1 |
| VotingOrder.MapOfKeys | client/src/components/Voting.tsx:200 | `new Map(entries)` has exactly the entries' keys |
| VotingOrder.MapOfLookup | client/src/components/Voting.tsx:200 | with distinct keys, each key maps to its entry's value |
| VotingOrder.Remap | client/src/components/Voting.tsx:200-207 | the index `handleItemUpdate` gives an item while the item at source is held over destination |
| VotingOrder.RemapMoves | client/src/components/Voting.tsx:200-207 | the dragged item goes to the destination; equal source and destination give the identity; items between the two, and the destination slot, shift one step toward the source; others stay |
| VotingOrder.RemapIsPermutation | client/src/components/Voting.tsx:200-207 | the remap stays in 0..n-1, and the remap with source and destination swapped undoes it |
| VotingOrder.MoveFollowsRemap | client/src/components/Voting.tsx:200-215 | the remove-then-insert move puts each item at its remapped index |
| VotingOrder.Move | client/src/components/Voting.tsx:211-215 | `reorder`: take the item at `from` out and insert it back at `to`, keeping the length |
| VotingOrder.MoveIsPermutation | client/src/components/Voting.tsx:211-215 | a move keeps the same items |
| VotingOrder.MovedPositions | client/src/components/Voting.tsx:200-215 | the moved list and the remap agree in both directions |
| VotingOrder.AdjustedIndexesArePositionsAfterMove | client/src/components/Voting.tsx:198-215 | the indices `handleItemUpdate` computes are the positions in the list `handleItemDrop` produces |
| VotingOrder.Ballot.HandleItemDrop | client/src/components/Voting.tsx:211-215 | a drop moves the item from source to destination; a drop outside the list leaves the order as it was |
| VotingOrder.UpdateDisplayIndex | client/src/components/Voting.tsx:187-196 | `firstSymbolic` is the least index of a symbolic candidate, or the list length; every candidate gets the label for its index |
| VotingOrder.FirstSymbolicOfPositions | client/src/components/Voting.tsx:188-191 | with the list's own positions, `firstSymbolic` is the index of the first symbolic candidate |
| VotingOrder.DashBelowFirstSymbolic | client/src/components/Voting.tsx:192-195 | a label is "-" exactly when the index is above `firstSymbolic`; the first symbolic candidate is numbered |
| VotingOrder.SymbolicCandidatesLast | client/src/components/Voting.tsx:142-156 | an order sorted by the key `[symbolic ? 1 : 0, random]` under `compareList` puts every non-symbolic candidate before every symbolic one |
| VotingOrder.Disabled | client/src/components/Voting.tsx:175-185 | `disabled`: already voted, finalized, not opened (a missing open time counts as not opened), closed (a missing close time counts as closed), or not allowed to vote, with strict `isAfter` |
| VotingOrder.EnabledMeansOpen | client/src/components/Voting.tsx:175-185 | voting is enabled exactly when the voter has not voted, the election is not finalized, voting is allowed, and both times are set with open < now <= close; then the server's interval test also accepts `now` |
| VotingOrder.SecretError | client/src/components/Voting.tsx:171 | the secret check's message when the secret is shorter than 10 characters, and no error otherwise |
| VotingOrder.SecretErrorIffShort | client/src/components/Voting.tsx:170-172 | the secret fails validation exactly when it is shorter than 10 characters |
| CreateElectionForm.OnSubmit | client/src/views/admin/CreateElection.tsx:85-101 | `onSubmit`: an empty title, a close time without an open time, an open time not after now, and a close time not after the open time are refused in that order with their messages; otherwise the form submits |
| CreateElectionForm.SubmitChecksInOrder | client/src/views/admin/CreateElection.tsx:85-101 | the four checks fire in a fixed order, each with its message; the election is submitted exactly when none fires |
| CreateElectionForm.SubmittedIntervalIsAhead | client/src/views/admin/CreateElection.tsx:91-97 | a submitted election opens after now, and the server accepts every time after the open time up to the close time and none up to now |
| CreateElectionForm.CandidateList.AddCandidate | client/src/views/admin/CreateElection.tsx:44-46 | appends the candidate at the end |
| CreateElectionForm.CandidateList.RemoveCandidate | client/src/views/admin/CreateElection.tsx:48-50 | drops every entry with the candidate's id and keeps exactly the others |
| CreateElectionForm.WithoutConcat | client/src/views/admin/CreateElection.tsx:48-50 | the filter splits over concatenation, so kept entries stay in order |
| CreateElectionForm.WithoutMembers | client/src/views/admin/CreateElection.tsx:48-50 | an entry remains exactly when it was there and has another id |
| CreateElectionForm.CandidateList.CandidateChanged | client/src/views/admin/CreateElection.tsx:52-60 | applies the replace-where to the list |
| CreateElectionForm.ReplaceWhereTouchesOnlyMatches | client/src/views/admin/CreateElection.tsx:52-60 | entries with the candidate's id become the candidate with `changed: false`; all others stay where and as they were |
| GetParams.IndexOf | client/src/hooks/useGetParams.ts:4 | `indexOf` is the first index holding the character, or -1 exactly when there is none |
| GetParams.SecondPiece | client/src/hooks/useGetParams.ts:3 | `split('?')[1]`: undefined when there is no '?', else the text after the first '?' up to the next one or the end |
| GetParams.QueryOf | client/src/hooks/useGetParams.ts:3-4 | the query text: the second piece, written "undefined" when missing, cut at its first '#' |
| GetParams.SecondPieceShape | client/src/hooks/useGetParams.ts:3 | `split('?')[1]` is undefined exactly when there is no '?'; otherwise it holds no '?' and is the text after the first '?' up to the next one or the end |
| GetParams.QueryIsPieceCutAtHash | client/src/hooks/useGetParams.ts:3-4 | the query holds no '#', is a prefix of that piece, is the piece cut at its first '#', and is the whole piece when it has no '#' |
| GetParams.NoQuestionMarkGivesUndefined | client/src/hooks/useGetParams.ts:3-4 | an address without '?' gives the text "undefined" |

## Left out

- HTTP and storage: gin request binding and responses, gorm queries, transactions and soft deletes are replaced by the `Store` class over maps. Malformed UUIDs, malformed bodies and database failures are not modelled.
- The global database mutex: it exists only for concurrency.
- Hashing and email parsing: `calculateVoteHash`, `GetVoteHash` and `ValidEmail` call foreign crypto and parsing code. The user hash is a parameter of `CastVote`.
- The time encoding inside `NullTime`: it is passed to the model as `encode`/`decode` functions, and the HTTP fetchers in json.go are not modelled.
- The voters, authentication, configuration and read-only election endpoints (`GetElection(s)`, `GetPublicElection(s)`, `HasVoted`, `GetHashes`): they are not part of this model.
- React rendering, dayjs, axios, localStorage and the Mantine `useListState`/`useForm` internals: the handlers are modelled by what they do to their list or form values. The page address in `useGetParams` is a parameter, and `URLSearchParams` is not modelled.
- Percentages computed with `toFixed`: floating point.
- Preferences.BuildPreferences: it takes each ballot as its candidates in rank order. In the source, `vote.Rankings` is the loaded row list, and the model assumes it comes back in rank order.
- Preferences.BuildPreferences: its precondition that every ballot has exactly one entry per candidate excludes the ballots on which the slice `vote.Rankings[i+1 : N]` (votes.go:358) panics, such as the repeated-candidate ballot of the Findings table. It also excludes ballots shorter than the candidate list, which the source can reach: `CastVote` does not check `Published`, and `AddCandidate` refuses only published elections (elections.go:343-369), so a candidate added after votes were cast leaves the stored ballots one entry short; the slice then panics or reads past the ballot's length, depending on its capacity. Neither case is modelled.
- InstantRunoff.CountStages: the Go loop has no bound. The model runs at most `fuel` stages, so a run that never reaches a majority is seen only up to that bound.
- InstantRunoff.ChooseElimination: Go's map iteration order picks among tied candidates. The model picks any of them.
- InstantRunoff.RunStage: when no candidate may be eliminated, Go marks the zero UUID as eliminated. No candidate has that id, so the model adds nothing to the eliminated set.
- SchulzeRanking.TieOrder: `rand.Shuffle` followed by `sort.SliceStable` is modelled as a sequence of swaps. It states only that `result` is a permutation, not the sorted order nor the randomness.
- VotingOrder.SymbolicCandidatesLast: JavaScript's sort and `Math.random` are not modelled. The lemma assumes the list is sorted by the key.
- VotingOrder.SecretErrorIffShort: JavaScript string length counts UTF-16 code units. The model counts characters.
- ElectionStore.Store.CastVote: the id of the stored vote is returned as a ghost value. The vote time is `now`.
- ElectionStore.Store.CastVote: it applies the corrected ballot test (same set of ids and one entry per candidate), where votes.go:85 applies the set test alone. A ranking that names a candidate twice, such as [1, 1, 2] for {1, 2}, is refused here but stored by the source; `CorrectedTestRefusesOnlyRepeats` states that these are the only rankings on which the two differ.
- ElectionStore.Store.RemoveCandidate: `time.Now()` is the parameter `now`, and the deletion is a hard delete.
- ElectionStore.Store.CountGuard: only the guards of `CountVotes` and `CountVotesSchultze` are modelled here. The counts themselves are in `InstantRunoff` and `Preferences`/`SchulzePaths`.
- CompareList.Compare: the lists are of integers. The source compares arbitrary values with `<`, including the float key `Math.random()` of Voting.tsx; only the order of the entries matters, so integers stand for any totally ordered entries.
- util.SameSet, util.Copy2DSlice, util.Max and util.Min are not part of this model. They are read as set equality, a deep copy and integer max/min.

## Findings

| source | as written | input that shows it | evidently intended | confidence | as-written member | corrected member |
|---|---|---|---|---|---|---|
| server/actions/votes.go:82-88 | `CastVote` accepts a ballot when its set of ids equals the set of the election's candidates; repeats are not rejected | candidates {1, 2} and ranking [1, 1, 2]: the set test passes, the ballot is stored, and `CountVotesSchultze` later slices `vote.Rankings[3:2]` (votes.go:358) and panics | accept only a ballot that lists each candidate exactly once (same set and same length) | low — not executed; util.SameSet is not part of this model and is read as set equality; the model's `CastVote` applies the corrected test | ElectionStore.RepeatedCandidatePassesSameSet | ElectionStore.AcceptedBallotIsComplete |
