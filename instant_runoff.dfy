/** The instant-runoff count (`CountVotes` in server/actions/votes.go).
    Every stage gives each ballot to its first candidate that is not yet
    eliminated, adds up the votes of every candidate except Blank, eliminates
    a non-Blank, non-Vacant candidate with the fewest votes and stops once the
    leading candidate has more than half of that total.  Go visits the
    entries of a map in an unspecified order; the model visits them through
    an arbitrary choice, so a tie for the fewest votes may eliminate any of
    the tied candidates. */
module InstantRunoff {
  import opened Common

  /** `candidateNames[c]`: an id missing from the map reads as "". */
  function NameOf(names: map<nat, string>, c: nat): string
  {
    if c in names then names[c] else ""
  }

  /** A candidate that may be eliminated. */
  predicate Eliminable(names: map<nat, string>, c: nat)
  {
    NameOf(names, c) != Blank && NameOf(names, c) != Vacant
  }

  /** The candidate a ballot counts for: its first one not yet eliminated. */
  function FirstActive(ballot: seq<nat>, eliminated: set<nat>): (r: Option<nat>)
    ensures r.Some? ==> r.value in ballot && r.value !in eliminated
    ensures r.None? <==> forall x :: 0 <= x < |ballot| ==> ballot[x] in eliminated
  {
    if ballot == [] then None
    else if ballot[0] !in eliminated then Some(ballot[0])
    else
      var r := FirstActive(ballot[1..], eliminated);
      assert forall x :: 0 < x < |ballot| ==> ballot[x] == ballot[1..][x - 1];
      r
  }

  /** The number of ballots that count for `c`. */
  function Votes(ballots: seq<seq<nat>>, eliminated: set<nat>, c: nat): nat
  {
    if ballots == [] then 0
    else
      var last := if FirstActive(ballots[|ballots| - 1], eliminated) == Some(c) then 1 else 0;
      Votes(ballots[..|ballots| - 1], eliminated, c) + last
  }

  /** `count` holds exactly the candidates with at least one vote, each with
      its number of votes. */
  ghost predicate IsCount(count: map<nat, nat>, ballots: seq<seq<nat>>, eliminated: set<nat>)
  {
    forall c :: (c in count <==> Votes(ballots, eliminated, c) > 0)
      && (c in count ==> count[c] == Votes(ballots, eliminated, c))
  }

  /** The first loop of a stage. */
  method CountFirstChoices(ballots: seq<seq<nat>>, eliminated: set<nat>) returns (count: map<nat, nat>)
    ensures IsCount(count, ballots, eliminated)
  {
    count := map[];
    var v := 0;
    while v < |ballots|
      invariant 0 <= v <= |ballots|
      invariant IsCount(count, ballots[..v], eliminated)
    {
      var vote := ballots[v];
      var x := 0;
      while x < |vote| && vote[x] in eliminated
        invariant 0 <= x <= |vote|
        invariant forall y :: 0 <= y < x ==> vote[y] in eliminated
      {
        x := x + 1;
      }
      FirstActiveAt(vote, eliminated, x);
      assert ballots[..v + 1][..v] == ballots[..v];
      if x < |vote| {
        var candidate := vote[x];
        count := count[candidate := (if candidate in count then count[candidate] else 0) + 1];
      }
      v := v + 1;
    }
    assert ballots[..v] == ballots;
  }

  /** Stopping the scan at the first active entry finds `FirstActive`. */
  lemma {:induction false} FirstActiveAt(ballot: seq<nat>, eliminated: set<nat>, x: nat)
    requires x <= |ballot| && forall y :: 0 <= y < x ==> ballot[y] in eliminated
    requires x < |ballot| ==> ballot[x] !in eliminated
    ensures FirstActive(ballot, eliminated) == if x < |ballot| then Some(ballot[x]) else None
  {
    if x > 0 {
      assert forall y :: 0 <= y < x - 1 ==> ballot[1..][y] == ballot[y + 1];
      FirstActiveAt(ballot[1..], eliminated, x - 1);
    }
  }

  /** The sum of the counts of the keys in `keys` that satisfy `f`. */
  function SumCounts(count: map<nat, nat>, keys: seq<nat>, f: nat -> bool): nat
    requires forall x :: 0 <= x < |keys| ==> keys[x] in count
  {
    if keys == [] then 0
    else
      var last := if f(keys[|keys| - 1]) then count[keys[|keys| - 1]] else 0;
      SumCounts(count, keys[..|keys| - 1], f) + last
  }

  /** The number of ballots that count for a candidate in `s` satisfying `f`. */
  function BallotsFor(ballots: seq<seq<nat>>, eliminated: set<nat>, s: set<nat>, f: nat -> bool): nat
  {
    if ballots == [] then 0
    else
      var r := FirstActive(ballots[|ballots| - 1], eliminated);
      BallotsFor(ballots[..|ballots| - 1], eliminated, s, f) + (if r.Some? && r.value in s && f(r.value) then 1 else 0)
  }

  lemma {:induction false} BallotsForAdd(ballots: seq<seq<nat>>, eliminated: set<nat>, s: set<nat>, k: nat, f: nat -> bool)
    requires k !in s
    ensures BallotsFor(ballots, eliminated, s + {k}, f)
      == BallotsFor(ballots, eliminated, s, f) + (if f(k) then Votes(ballots, eliminated, k) else 0)
  {
    if ballots != [] {
      BallotsForAdd(ballots[..|ballots| - 1], eliminated, s, k, f);
    }
  }

  lemma {:induction false} SumCountsIsBallotsFor(ballots: seq<seq<nat>>, eliminated: set<nat>,
                                                 count: map<nat, nat>, keys: seq<nat>, f: nat -> bool)
    requires IsCount(count, ballots, eliminated) && Distinct(keys)
    requires forall x :: 0 <= x < |keys| ==> keys[x] in count
    ensures SumCounts(count, keys, f) == BallotsFor(ballots, eliminated, Elements(keys), f)
  {
    if keys == [] {
      assert Elements(keys) == {};
      BallotsForEmpty(ballots, eliminated, f);
    } else {
      var front := keys[..|keys| - 1];
      var k := keys[|keys| - 1];
      SumCountsIsBallotsFor(ballots, eliminated, count, front, f);
      assert Elements(keys) == Elements(front) + {k} by {
        assert keys == front + [k];
      }
      assert k !in Elements(front);
      BallotsForAdd(ballots, eliminated, Elements(front), k, f);
    }
  }

  lemma {:induction false} BallotsForEmpty(ballots: seq<seq<nat>>, eliminated: set<nat>, f: nat -> bool)
    ensures BallotsFor(ballots, eliminated, {}, f) == 0
  {
    if ballots != [] {
      BallotsForEmpty(ballots[..|ballots| - 1], eliminated, f);
    }
  }

  /** The number of ballots that count for a candidate satisfying `f`. */
  function Ballots(ballots: seq<seq<nat>>, eliminated: set<nat>, f: nat -> bool): nat
  {
    if ballots == [] then 0
    else
      var r := FirstActive(ballots[|ballots| - 1], eliminated);
      Ballots(ballots[..|ballots| - 1], eliminated, f) + (if r.Some? && f(r.value) then 1 else 0)
  }

  /** A set holding every candidate some ballot counts for loses no ballot. */
  lemma {:induction false} BallotsForAll(ballots: seq<seq<nat>>, eliminated: set<nat>, s: set<nat>, f: nat -> bool)
    requires forall v :: 0 <= v < |ballots| && FirstActive(ballots[v], eliminated).Some? ==>
      FirstActive(ballots[v], eliminated).value in s
    ensures BallotsFor(ballots, eliminated, s, f) == Ballots(ballots, eliminated, f)
  {
    if ballots != [] {
      BallotsForAll(ballots[..|ballots| - 1], eliminated, s, f);
    }
  }

  /** A ballot's candidate has at least its vote. */
  lemma {:induction false} VotesPositive(ballots: seq<seq<nat>>, eliminated: set<nat>, v: nat, c: nat)
    requires v < |ballots| && FirstActive(ballots[v], eliminated) == Some(c)
    ensures Votes(ballots, eliminated, c) > 0
  {
    if v < |ballots| - 1 {
      VotesPositive(ballots[..|ballots| - 1], eliminated, v, c);
    }
  }

  /** Summing `count` over all its keys (in any order) gives the number of
      ballots that count for a candidate satisfying `f`: each ballot adds
      exactly one vote, to its first active candidate. */
  lemma CountSum(ballots: seq<seq<nat>>, eliminated: set<nat>, count: map<nat, nat>, keys: seq<nat>, f: nat -> bool)
    requires IsCount(count, ballots, eliminated)
    requires Distinct(keys) && Elements(keys) == count.Keys
    ensures SumCounts(count, keys, f) == Ballots(ballots, eliminated, f)
  {
    SumCountsIsBallotsFor(ballots, eliminated, count, keys, f);
    forall v | 0 <= v < |ballots| && FirstActive(ballots[v], eliminated).Some?
      ensures FirstActive(ballots[v], eliminated).value in Elements(keys)
    {
      VotesPositive(ballots, eliminated, v, FirstActive(ballots[v], eliminated).value);
    }
    BallotsForAll(ballots, eliminated, Elements(keys), f);
  }

  /** The candidates whose votes enter `total`: everybody but Blank. */
  function NotBlank(names: map<nat, string>): nat -> bool
  {
    (c: nat) => NameOf(names, c) != Blank
  }

  /** `blanks` is what the visit of the keys in `s` leaves in
      `stageResult.Blanks`: the votes of a Blank candidate, or 0 if none was
      visited. */
  ghost predicate BlanksReported(count: map<nat, nat>, names: map<nat, string>, s: set<nat>, blanks: nat)
  {
    if exists k :: k in s && k in count && NameOf(names, k) == Blank
    then exists k :: k in s && k in count && NameOf(names, k) == Blank && blanks == count[k]
    else blanks == 0
  }

  /** `eliminate` is an eliminable candidate of `s` with the fewest votes, or
      None when `s` holds no eliminable candidate. */
  ghost predicate IsFewest(count: map<nat, nat>, names: map<nat, string>, s: set<nat>, eliminate: Option<nat>)
    requires s <= count.Keys
  {
    (eliminate.None? <==> forall k :: k in s ==> !Eliminable(names, k))
    && (eliminate.Some? ==>
          eliminate.value in s && Eliminable(names, eliminate.value)
          && forall k :: k in s && Eliminable(names, k) ==> count[eliminate.value] <= count[k])
  }

  lemma BlanksStep(count: map<nat, nat>, names: map<nat, string>, s: set<nat>, blanks: nat, c: nat)
    requires c in count && BlanksReported(count, names, s, blanks)
    ensures NameOf(names, c) == Blank ==> BlanksReported(count, names, s + {c}, count[c])
    ensures NameOf(names, c) != Blank ==> BlanksReported(count, names, s + {c}, blanks)
  {
  }

  lemma FewestStep(count: map<nat, nat>, names: map<nat, string>, s: set<nat>, eliminate: Option<nat>, c: nat)
    requires s <= count.Keys && c in count && IsFewest(count, names, s, eliminate)
    ensures Eliminable(names, c) && (eliminate.None? || count[eliminate.value] > count[c]) ==>
      IsFewest(count, names, s + {c}, Some(c))
    ensures !(Eliminable(names, c) && (eliminate.None? || count[eliminate.value] > count[c])) ==>
      IsFewest(count, names, s + {c}, eliminate)
  {
  }

  /** What one visit of `candidate` does to the chosen candidate. */
  function NextEliminate(count: map<nat, nat>, names: map<nat, string>, eliminate: Option<nat>, candidate: nat)
    : Option<nat>
    requires candidate in count && (eliminate.Some? ==> eliminate.value in count)
  {
    if Eliminable(names, candidate) && (eliminate.None? || count[eliminate.value] > count[candidate])
    then Some(candidate) else eliminate
  }

  /** The loop invariant of `ChooseElimination` after `order` was visited. */
  ghost predicate Visited(count: map<nat, nat>, names: map<nat, string>, order: seq<nat>, remaining: set<nat>,
                          eliminate: Option<nat>, total: nat, blanks: nat)
  {
    Elements(order) + remaining == count.Keys && Elements(order) !! remaining
    && Distinct(order)
    && (forall x :: 0 <= x < |order| ==> order[x] in count)
    && total == SumCounts(count, order, NotBlank(names))
    && BlanksReported(count, names, Elements(order), blanks)
    && IsFewest(count, names, Elements(order), eliminate)
  }

  /** One visit keeps the loop invariant. */
  lemma VisitStep(count: map<nat, nat>, names: map<nat, string>, order: seq<nat>, remaining: set<nat>,
                  eliminate: Option<nat>, total: nat, blanks: nat, candidate: nat)
    requires Visited(count, names, order, remaining, eliminate, total, blanks) && candidate in remaining
    ensures eliminate.Some? ==> eliminate.value in count
    ensures Visited(count, names, order + [candidate], remaining - {candidate},
                    NextEliminate(count, names, eliminate, candidate),
                    if NameOf(names, candidate) == Blank then total else total + count[candidate],
                    if NameOf(names, candidate) == Blank then count[candidate] else blanks)
  {
    BlanksStep(count, names, Elements(order), blanks, candidate);
    FewestStep(count, names, Elements(order), eliminate, candidate);
    OrderStep(count, order, remaining, candidate);
    var order' := order + [candidate];
    assert order'[..|order|] == order && order'[|order|] == candidate;
    assert SumCounts(count, order', NotBlank(names))
      == total + if NotBlank(names)(candidate) then count[candidate] else 0;
  }

  /** Moving a candidate from `remaining` to the end of `order` keeps the two
      a partition of the counted candidates, with `order` repeating none. */
  lemma OrderStep(count: map<nat, nat>, order: seq<nat>, remaining: set<nat>, candidate: nat)
    requires Elements(order) + remaining == count.Keys && Elements(order) !! remaining && Distinct(order)
    requires candidate in remaining
    ensures Elements(order + [candidate]) == Elements(order) + {candidate}
    ensures Elements(order + [candidate]) + (remaining - {candidate}) == count.Keys
    ensures Elements(order + [candidate]) !! remaining - {candidate}
    ensures Distinct(order + [candidate])
  {
    assert Elements(order + [candidate]) == Elements(order) + {candidate};
  }

  /** The second loop of a stage, over `count` in map order: Blank's votes
      are reported apart, everybody else's enter `total`, and an eliminable
      candidate with strictly fewer votes than the one chosen so far
      replaces it.  `order` is the order the map was visited in. */
  method ChooseElimination(count: map<nat, nat>, names: map<nat, string>)
    returns (eliminate: Option<nat>, total: nat, blanks: nat, ghost order: seq<nat>)
    ensures Distinct(order) && Elements(order) == count.Keys
    ensures total == SumCounts(count, order, NotBlank(names))
    ensures BlanksReported(count, names, count.Keys, blanks)
    ensures IsFewest(count, names, count.Keys, eliminate)
  {
    var remaining := count.Keys;
    order := [];
    eliminate, total, blanks := None, 0, 0;
    while remaining != {}
      invariant Visited(count, names, order, remaining, eliminate, total, blanks)
      decreases remaining
    {
      var candidate :| candidate in remaining;
      var votes := count[candidate];
      VisitStep(count, names, order, remaining, eliminate, total, blanks, candidate);
      ghost var next := NextEliminate(count, names, eliminate, candidate);
      remaining := remaining - {candidate};
      order := order + [candidate];
      if NameOf(names, candidate) == Blank {
        blanks := votes;
      } else {
        total := total + votes;
        if NameOf(names, candidate) != Vacant {
          if eliminate.None? || count[eliminate.value] > count[candidate] {
            eliminate := Some(candidate);
          }
        }
      }
      assert eliminate == next;
    }
  }

  /** One row of a stage in the response. */
  datatype CandidateResult = CandidateResult(name: string, votes: nat, eliminated: bool)

  /** One stage in the response. */
  datatype StageResult = StageResult(candidates: seq<CandidateResult>, blanks: nat)

  /** The row a counted candidate gets. */
  function ResultRow(count: map<nat, nat>, names: map<nat, string>, eliminate: Option<nat>, c: nat): CandidateResult
    requires c in count
  {
    CandidateResult(NameOf(names, c), count[c], eliminate == Some(c))
  }

  /** The third loop of a stage: one row per counted candidate except Blank,
      in map order (`order`). */
  method StageRows(count: map<nat, nat>, names: map<nat, string>, eliminate: Option<nat>)
    returns (rows: seq<CandidateResult>, ghost order: seq<nat>)
    ensures Distinct(order) && |rows| == |order|
    ensures forall k :: k in Elements(order) <==> k in count && NameOf(names, k) != Blank
    ensures forall x :: 0 <= x < |order| ==> order[x] in count && rows[x] == ResultRow(count, names, eliminate, order[x])
  {
    var remaining := count.Keys;
    ghost var visited: set<nat> := {};
    rows, order := [], [];
    while remaining != {}
      invariant visited + remaining == count.Keys && visited !! remaining
      invariant Distinct(order) && |rows| == |order|
      invariant forall k :: k in Elements(order) <==> k in visited && NameOf(names, k) != Blank
      invariant forall x :: 0 <= x < |order| ==> order[x] in count && rows[x] == ResultRow(count, names, eliminate, order[x])
      decreases remaining
    {
      var candidate :| candidate in remaining;
      remaining := remaining - {candidate};
      visited := visited + {candidate};
      if NameOf(names, candidate) != Blank {
        assert Elements(order + [candidate]) == Elements(order) + {candidate};
        rows := rows + [ResultRow(count, names, eliminate, candidate)];
        order := order + [candidate];
      }
    }
  }

  predicate SortedByVotes(rows: seq<CandidateResult>)
  {
    forall x, y :: 0 <= x < y < |rows| ==> rows[x].votes >= rows[y].votes
  }

  /** `rows` with `row` put before the first entry with fewer votes. */
  function InsertByVotes(row: CandidateResult, rows: seq<CandidateResult>): (r: seq<CandidateResult>)
    requires SortedByVotes(rows)
    ensures SortedByVotes(r) && multiset(r) == multiset(rows) + multiset{row}
  {
    if rows == [] then [row]
    else if rows[0].votes <= row.votes then
      ConsSorted(row, rows);
      [row] + rows
    else
      var tail := InsertByVotes(row, rows[1..]);
      HeadBoundsRest(rows, row);
      VotesBoundCarries(rows[1..] + [row], tail, rows[0].votes);
      ConsSorted(rows[0], tail);
      MultisetOfCons(rows, row, tail);
      [rows[0]] + tail
  }

  /** The first row of a sorted list bounds the rest of it and a row with
      fewer votes. */
  lemma HeadBoundsRest(rows: seq<CandidateResult>, row: CandidateResult)
    requires SortedByVotes(rows) && rows != [] && rows[0].votes > row.votes
    ensures forall x :: 0 <= x < |rows[1..] + [row]| ==> rows[0].votes >= (rows[1..] + [row])[x].votes
  {
  }

  lemma MultisetOfCons(rows: seq<CandidateResult>, row: CandidateResult, tail: seq<CandidateResult>)
    requires rows != [] && multiset(tail) == multiset(rows[1..]) + multiset{row}
    ensures multiset([rows[0]] + tail) == multiset(rows) + multiset{row}
  {
    assert rows == [rows[0]] + rows[1..];
  }

  /** A row with at least the votes of the first row of a sorted list can be
      put in front of it. */
  lemma ConsSorted(h: CandidateResult, t: seq<CandidateResult>)
    requires SortedByVotes(t) && (t != [] ==> h.votes >= t[0].votes)
    ensures SortedByVotes([h] + t)
  {
  }

  /** A bound on the votes of every row of `s` holds for every row of a
      permutation of `s`. */
  lemma VotesBoundCarries(s: seq<CandidateResult>, t: seq<CandidateResult>, top: int)
    requires multiset(t) == multiset(s)
    requires forall x :: 0 <= x < |s| ==> top >= s[x].votes
    ensures forall x :: 0 <= x < |t| ==> top >= t[x].votes
  {
    forall x | 0 <= x < |t| ensures top >= t[x].votes {
      assert t[x] in multiset(s);
      var y :| 0 <= y < |s| && s[y] == t[x];
    }
  }

  /** `sort.Slice(stageResult.Candidates, ... Votes > ...)`: most votes
      first, ties in no particular order. */
  method SortByVotes(rows: seq<CandidateResult>) returns (sorted: seq<CandidateResult>)
    ensures SortedByVotes(sorted) && multiset(sorted) == multiset(rows)
  {
    sorted := [];
    var x := 0;
    while x < |rows|
      invariant 0 <= x <= |rows|
      invariant SortedByVotes(sorted) && multiset(sorted) == multiset(rows[..x])
    {
      assert rows[..x + 1] == rows[..x] + [rows[x]];
      sorted := InsertByVotes(rows[x], sorted);
      x := x + 1;
    }
    assert rows[..x] == rows;
  }

  /** The first row of a list sorted by votes has the most votes. */
  lemma TopOfSorted(sorted: seq<CandidateResult>, rows: seq<CandidateResult>)
    requires SortedByVotes(sorted) && multiset(sorted) == multiset(rows) && |rows| > 0
    ensures |sorted| > 0 && sorted[0] in rows
    ensures forall x :: 0 <= x < |rows| ==> sorted[0].votes >= rows[x].votes
  {
    assert |sorted| == |multiset(sorted)| == |rows|;
    assert sorted[0] in multiset(rows);
    forall x | 0 <= x < |rows| ensures sorted[0].votes >= rows[x].votes {
      assert rows[x] in multiset(sorted);
      var y :| 0 <= y < |sorted| && sorted[y] == rows[x];
    }
  }

  /** Some non-Blank candidate has more than half of the non-Blank votes. */
  ghost predicate Majority(ballots: seq<seq<nat>>, names: map<nat, string>, eliminated: set<nat>)
  {
    exists k :: NameOf(names, k) != Blank
      && Votes(ballots, eliminated, k) * 2 > Ballots(ballots, eliminated, NotBlank(names))
  }

  /** `e` is an eliminable candidate with votes and with the fewest votes
      among those. */
  ghost predicate IsFewestVotes(ballots: seq<seq<nat>>, names: map<nat, string>, eliminated: set<nat>, e: nat)
  {
    Eliminable(names, e) && Votes(ballots, eliminated, e) > 0
    && forall k :: Eliminable(names, k) && Votes(ballots, eliminated, k) > 0 ==>
      Votes(ballots, eliminated, e) <= Votes(ballots, eliminated, k)
  }

  /** What a stage produced: a panic, or the sorted rows, the Blank votes,
      the eliminated candidate (if any) and whether counting stops. */
  datatype StageOutcome = Panic | Stage(result: StageResult, eliminate: Option<nat>, done: bool)

  /** `row` is the row of a non-Blank candidate with votes. */
  ghost predicate IsCountedRow(row: CandidateResult, ballots: seq<seq<nat>>, names: map<nat, string>,
                               eliminated: set<nat>, eliminate: Option<nat>)
  {
    exists k: nat :: Votes(ballots, eliminated, k) > 0 && NameOf(names, k) != Blank
      && row == CandidateResult(NameOf(names, k), Votes(ballots, eliminated, k), eliminate == Some(k))
  }

  /** The row candidate `k` gets at a stage that starts from `eliminated`
      and eliminates `eliminate`. */
  function CountedRow(ballots: seq<seq<nat>>, names: map<nat, string>, eliminated: set<nat>,
                      eliminate: Option<nat>, k: nat): CandidateResult
  {
    CandidateResult(NameOf(names, k), Votes(ballots, eliminated, k), eliminate == Some(k))
  }

  /** The rows of the candidates of `order`, in that order. */
  function RowsFor(ballots: seq<seq<nat>>, names: map<nat, string>, eliminated: set<nat>,
                   eliminate: Option<nat>, order: seq<nat>): seq<CandidateResult>
  {
    seq(|order|, x requires 0 <= x < |order| => CountedRow(ballots, names, eliminated, eliminate, order[x]))
  }

  /** `order` lists every non-Blank candidate with votes, each once, and
      nobody else. */
  ghost predicate ListsCounted(order: seq<nat>, ballots: seq<seq<nat>>, names: map<nat, string>, eliminated: set<nat>)
  {
    Distinct(order)
    && forall k :: k in Elements(order) <==> Votes(ballots, eliminated, k) > 0 && NameOf(names, k) != Blank
  }

  /** Every counted candidate has its row among the rows of a stage. */
  lemma CountedIsListed(rows: seq<CandidateResult>, ballots: seq<seq<nat>>, names: map<nat, string>,
                        eliminated: set<nat>, eliminate: Option<nat>, order: seq<nat>, k: nat)
    requires ListsCounted(order, ballots, names, eliminated)
    requires multiset(rows) == multiset(RowsFor(ballots, names, eliminated, eliminate, order))
    requires Votes(ballots, eliminated, k) > 0 && NameOf(names, k) != Blank
    ensures CountedRow(ballots, names, eliminated, eliminate, k) in rows
  {
    var want := RowsFor(ballots, names, eliminated, eliminate, order);
    assert k in Elements(order);
    var y :| 0 <= y < |order| && order[y] == k;
    assert want[y] in multiset(rows);
  }

  /** Every row of a stage is the row of a counted candidate. */
  lemma ListedIsCounted(rows: seq<CandidateResult>, ballots: seq<seq<nat>>, names: map<nat, string>,
                        eliminated: set<nat>, eliminate: Option<nat>, order: seq<nat>, x: nat)
    requires ListsCounted(order, ballots, names, eliminated)
    requires multiset(rows) == multiset(RowsFor(ballots, names, eliminated, eliminate, order))
    requires x < |rows|
    ensures exists y :: (0 <= y < |order| && rows[x] == CountedRow(ballots, names, eliminated, eliminate, order[y])
      && Votes(ballots, eliminated, order[y]) > 0 && NameOf(names, order[y]) != Blank)
  {
    var want := RowsFor(ballots, names, eliminated, eliminate, order);
    assert rows[x] in multiset(want);
    var y :| 0 <= y < |want| && want[y] == rows[x];
    assert order[y] in Elements(order);
  }

  /** The third loop's rows, before the sort, are the rows of the visit
      order it reports. */
  lemma StageRowsAreRowsFor(ballots: seq<seq<nat>>, names: map<nat, string>, eliminated: set<nat>,
                            count: map<nat, nat>, eliminate: Option<nat>, rows: seq<CandidateResult>, order: seq<nat>)
    requires IsCount(count, ballots, eliminated)
    requires Distinct(order) && |rows| == |order|
    requires forall k :: k in Elements(order) <==> k in count && NameOf(names, k) != Blank
    requires forall x :: 0 <= x < |order| ==> order[x] in count && rows[x] == ResultRow(count, names, eliminate, order[x])
    ensures ListsCounted(order, ballots, names, eliminated)
    ensures rows == RowsFor(ballots, names, eliminated, eliminate, order)
  {
  }

  /** The stopping test on the sorted rows is the majority condition. */
  lemma DoneIsMajority(ballots: seq<seq<nat>>, names: map<nat, string>, eliminated: set<nat>,
                       count: map<nat, nat>, eliminate: Option<nat>, rows: seq<CandidateResult>,
                       order: seq<nat>, sorted: seq<CandidateResult>)
    requires IsCount(count, ballots, eliminated)
    requires |rows| == |order| && forall k :: k in Elements(order) <==> k in count && NameOf(names, k) != Blank
    requires forall x :: 0 <= x < |order| ==> order[x] in count && rows[x] == ResultRow(count, names, eliminate, order[x])
    requires SortedByVotes(sorted) && multiset(sorted) == multiset(rows) && |rows| > 0
    ensures |sorted| > 0
    ensures sorted[0].votes * 2 > Ballots(ballots, eliminated, NotBlank(names)) <==> Majority(ballots, names, eliminated)
  {
    var total := Ballots(ballots, eliminated, NotBlank(names));
    TopOfSorted(sorted, rows);
    var x0 :| 0 <= x0 < |rows| && rows[x0] == sorted[0];
    assert order[x0] in Elements(order);
    if sorted[0].votes * 2 > total {
      assert Votes(ballots, eliminated, order[x0]) * 2 > total;
    }
    if Majority(ballots, names, eliminated) {
      var k: nat :| NameOf(names, k) != Blank && Votes(ballots, eliminated, k) * 2 > total;
      assert k in Elements(order);
      var x :| 0 <= x < |order| && order[x] == k;
      assert sorted[0].votes >= rows[x].votes;
    }
  }

  /** `blanks` is the number of ballots counting for a Blank candidate (for
      the one Blank candidate an election has), or 0 when none does. */
  ghost predicate BlankVotes(ballots: seq<seq<nat>>, names: map<nat, string>, eliminated: set<nat>, blanks: nat)
  {
    if exists k: nat :: Votes(ballots, eliminated, k) > 0 && NameOf(names, k) == Blank
    then exists k: nat ::
      Votes(ballots, eliminated, k) > 0 && NameOf(names, k) == Blank && blanks == Votes(ballots, eliminated, k)
    else blanks == 0
  }

  lemma BlanksFromCount(ballots: seq<seq<nat>>, names: map<nat, string>, eliminated: set<nat>,
                        count: map<nat, nat>, blanks: nat)
    requires IsCount(count, ballots, eliminated) && BlanksReported(count, names, count.Keys, blanks)
    ensures BlankVotes(ballots, names, eliminated, blanks)
  {
    if exists k: nat :: Votes(ballots, eliminated, k) > 0 && NameOf(names, k) == Blank {
      var k: nat :| Votes(ballots, eliminated, k) > 0 && NameOf(names, k) == Blank;
      assert k in count;
      var b :| b in count.Keys && b in count && NameOf(names, b) == Blank && blanks == count[b];
      assert Votes(ballots, eliminated, b) > 0;
    }
  }

  /** One pass of the `for { ... }` loop of `CountVotes`.  It panics
      (`stageResult.Candidates[0]` on an empty slice) exactly when no
      candidate but Blank has a vote. */
  method RunStage(ballots: seq<seq<nat>>, names: map<nat, string>, eliminated: set<nat>)
    returns (out: StageOutcome, ghost order: seq<nat>)
    ensures out.Panic? <==> forall k :: Votes(ballots, eliminated, k) > 0 ==> NameOf(names, k) == Blank
    ensures out.Stage? ==> (out.done <==> Majority(ballots, names, eliminated))
    ensures out.Stage? ==>
      (out.eliminate.None? <==> forall k :: Votes(ballots, eliminated, k) > 0 ==> !Eliminable(names, k))
    ensures out.Stage? && out.eliminate.Some? ==> IsFewestVotes(ballots, names, eliminated, out.eliminate.value)
    ensures out.Stage? ==> SortedByVotes(out.result.candidates)
    ensures out.Stage? ==> ListsCounted(order, ballots, names, eliminated)
    ensures out.Stage? ==>
      multiset(out.result.candidates) == multiset(RowsFor(ballots, names, eliminated, out.eliminate, order))
    ensures out.Stage? ==> BlankVotes(ballots, names, eliminated, out.result.blanks)
  {
    var count := CountFirstChoices(ballots, eliminated);
    var eliminate, total, blanks, visit := ChooseElimination(count, names);
    CountSum(ballots, eliminated, count, visit, NotBlank(names));
    var rows, order2 := StageRows(count, names, eliminate);
    var sorted := SortByVotes(rows);
    order := order2;
    if |sorted| == 0 {
      assert |rows| == 0;
      forall k | Votes(ballots, eliminated, k) > 0 ensures NameOf(names, k) == Blank {
        assert k in count && k !in Elements(order2);
      }
      return Panic, order;
    }
    DoneIsMajority(ballots, names, eliminated, count, eliminate, rows, order2, sorted);
    var done := sorted[0].votes * 2 > total;
    out := Stage(StageResult(sorted, blanks), eliminate, done);
    StageRowsAreRowsFor(ballots, names, eliminated, count, eliminate, rows, order2);
    BlanksFromCount(ballots, names, eliminated, count, blanks);
    assert exists k :: k in count && NameOf(names, k) != Blank by {
      assert order2[0] in Elements(order2);
    }
  }

  /** How a stage went: the order it visited the counted candidates in
      (Go's map order) and the candidate it eliminated, if any. */
  datatype StageChoice = StageChoice(order: seq<nat>, eliminate: Option<nat>)

  /** `stage` is what a stage reports when it starts from the eliminated set
      `before` and leaves `after`, having gone as `choice` says: it adds the
      candidate it eliminated, a fewest-votes one, or nothing when no
      candidate with votes may be eliminated; and its rows are, in some
      order, one row for each non-Blank candidate with votes, flagging the
      eliminated one, sorted by descending votes; and it reports the
      Blank votes. */
  ghost predicate IsStage(ballots: seq<seq<nat>>, names: map<nat, string>, before: set<nat>, after: set<nat>,
                          stage: StageResult, choice: StageChoice)
  {
    && (choice.eliminate.None? ==>
          after == before && forall k :: Votes(ballots, before, k) > 0 ==> !Eliminable(names, k))
    && (choice.eliminate.Some? ==>
          after == before + {choice.eliminate.value}
          && IsFewestVotes(ballots, names, before, choice.eliminate.value))
    && ListsCounted(choice.order, ballots, names, before)
    && multiset(stage.candidates) == multiset(RowsFor(ballots, names, before, choice.eliminate, choice.order))
    && SortedByVotes(stage.candidates)
    && BlankVotes(ballots, names, before, stage.blanks)
  }

  /** `stages` were reported in that order, `history[i]` being the
      eliminated set at the start of stage i and `choices[i]` how stage i
      went, and only the last stage may have found a majority. */
  ghost predicate IsRun(ballots: seq<seq<nat>>, names: map<nat, string>, stages: seq<StageResult>,
                        history: seq<set<nat>>, choices: seq<StageChoice>)
  {
    |history| == |stages| + 1 && |choices| == |stages| && history[0] == {}
    && (forall i :: 0 <= i < |stages| ==> IsStage(ballots, names, history[i], history[i + 1], stages[i], choices[i]))
    && forall i :: 0 <= i < |stages| - 1 ==> !Majority(ballots, names, history[i])
  }

  lemma RunExtend(ballots: seq<seq<nat>>, names: map<nat, string>, stages: seq<StageResult>,
                  history: seq<set<nat>>, choices: seq<StageChoice>, stage: StageResult, next: set<nat>,
                  choice: StageChoice)
    requires IsRun(ballots, names, stages, history, choices)
    requires |stages| > 0 ==> !Majority(ballots, names, history[|stages| - 1])
    requires IsStage(ballots, names, history[|stages|], next, stage, choice)
    ensures IsRun(ballots, names, stages + [stage], history + [next], choices + [choice])
  {
    var stages', history', choices' := stages + [stage], history + [next], choices + [choice];
    forall i | 0 <= i < |stages'|
      ensures IsStage(ballots, names, history'[i], history'[i + 1], stages'[i], choices'[i])
    {
      if i < |stages| {
        assert IsStage(ballots, names, history[i], history[i + 1], stages[i], choices[i]);
      }
    }
  }

  /** How the loop ended: a stage reached a majority, a stage panicked, or
      the model's bound on the number of stages ran out (Go's loop has no
      bound). */
  datatype Ending = Decided | Panicked | OutOfFuel

  /** The `for { ... }` loop of `CountVotes`, run for at most `fuel` stages.
      `history[i]` is the eliminated set at the start of stage i and
      `choices[i]` how stage i went. */
  method CountStages(ballots: seq<seq<nat>>, names: map<nat, string>, fuel: nat)
    returns (stages: seq<StageResult>, ending: Ending, ghost history: seq<set<nat>>, ghost choices: seq<StageChoice>)
    ensures IsRun(ballots, names, stages, history, choices)
    ensures ending.Decided? <==> |stages| > 0 && Majority(ballots, names, history[|stages| - 1])
    ensures ending.Panicked? ==>
      forall k :: Votes(ballots, history[|stages|], k) > 0 ==> NameOf(names, k) == Blank
    ensures ending.OutOfFuel? ==> |stages| == fuel
  {
    var eliminated: set<nat> := {};
    stages, history, choices := [], [{}], [];
    var left: nat := fuel;
    ending := OutOfFuel;
    while left > 0
      invariant left + |stages| == fuel
      invariant IsRun(ballots, names, stages, history, choices) && history[|stages|] == eliminated
      invariant |stages| > 0 ==> !Majority(ballots, names, history[|stages| - 1])
      invariant ending.OutOfFuel?
    {
      var out, order := RunStage(ballots, names, eliminated);
      if out.Panic? {
        ending := Panicked;
        return;
      }
      var next := if out.eliminate.Some? then eliminated + {out.eliminate.value} else eliminated;
      ghost var choice := StageChoice(order, out.eliminate);
      assert IsStage(ballots, names, eliminated, next, out.result, choice);
      RunExtend(ballots, names, stages, history, choices, out.result, next, choice);
      stages := stages + [out.result];
      history := history + [next];
      choices := choices + [choice];
      eliminated := next;
      left := left - 1;
      if out.done {
        ending := Decided;
        return;
      }
    }
  }

  /** A row shows candidate `k` with its votes. */
  predicate ShowsCandidate(row: CandidateResult, names: map<nat, string>, votes: nat, k: nat)
  {
    row.name == NameOf(names, k) && row.votes == votes
  }

  /** Every stage of a run has a row, with the candidate's name and votes,
      for each non-Blank candidate with votes at that stage. */
  lemma RunShowsCounted(ballots: seq<seq<nat>>, names: map<nat, string>, stages: seq<StageResult>,
                        history: seq<set<nat>>, choices: seq<StageChoice>, i: nat, k: nat)
    requires IsRun(ballots, names, stages, history, choices) && i < |stages|
    requires Votes(ballots, history[i], k) > 0 && NameOf(names, k) != Blank
    ensures exists x :: (0 <= x < |stages[i].candidates|
      && ShowsCandidate(stages[i].candidates[x], names, Votes(ballots, history[i], k), k))
  {
    var rows, before, choice := stages[i].candidates, history[i], choices[i];
    assert IsStage(ballots, names, before, history[i + 1], stages[i], choice);
    CountedIsListed(rows, ballots, names, before, choice.eliminate, choice.order, k);
    var x :| 0 <= x < |rows| && rows[x] == CountedRow(ballots, names, before, choice.eliminate, k);
    assert ShowsCandidate(rows[x], names, Votes(ballots, before, k), k);
  }

  /** Every row of every stage of a run shows a non-Blank candidate with
      votes at that stage, with those votes. */
  lemma RunRowsAreCounted(ballots: seq<seq<nat>>, names: map<nat, string>, stages: seq<StageResult>,
                          history: seq<set<nat>>, choices: seq<StageChoice>, i: nat, x: nat)
    requires IsRun(ballots, names, stages, history, choices) && i < |stages| && x < |stages[i].candidates|
    ensures exists c: nat :: (Votes(ballots, history[i], c) > 0 && NameOf(names, c) != Blank
      && ShowsCandidate(stages[i].candidates[x], names, Votes(ballots, history[i], c), c))
  {
    var rows, before, choice := stages[i].candidates, history[i], choices[i];
    assert IsStage(ballots, names, before, history[i + 1], stages[i], choice);
    ListedIsCounted(rows, ballots, names, before, choice.eliminate, choice.order, x);
    var y :| 0 <= y < |choice.order| && rows[x] == CountedRow(ballots, names, before, choice.eliminate, choice.order[y])
      && Votes(ballots, before, choice.order[y]) > 0 && NameOf(names, choice.order[y]) != Blank;
    assert ShowsCandidate(rows[x], names, Votes(ballots, before, choice.order[y]), choice.order[y]);
  }

  /** Blank and Vacant are never eliminated, so a ballot that ranks one of
      them keeps counting for a candidate at every stage. */
  lemma {:induction false} SymbolicNeverEliminated(ballots: seq<seq<nat>>, names: map<nat, string>,
                                                   stages: seq<StageResult>, history: seq<set<nat>>,
                                                   choices: seq<StageChoice>, i: nat)
    requires IsRun(ballots, names, stages, history, choices) && i <= |stages|
    ensures forall c :: c in history[i] ==> Eliminable(names, c)
  {
    if i > 0 {
      SymbolicNeverEliminated(ballots, names, stages, history, choices, i - 1);
      assert IsStage(ballots, names, history[i - 1], history[i], stages[i - 1], choices[i - 1]);
    }
  }
}
