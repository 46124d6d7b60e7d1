/** The pairwise preference matrix of the Schulze count
    (`CountVotesSchultze` in server/actions/votes.go): candidate ids are
    numbered by their position in the election's candidate list, and for every
    ballot and every position i, every later position j adds one to
    prefer[index of ballot[i]][index of ballot[j]]. */
module Preferences {
  import opened Common

  /** `candidateIndexes`: each candidate id maps to its position in the
      candidate list (an id listed twice keeps its last position). */
  function IndexMap(ids: seq<nat>): (m: map<nat, nat>)
    ensures m.Keys == Elements(ids)
    ensures forall c :: c in m ==> m[c] < |ids| && ids[m[c]] == c
  {
    if ids == [] then map[]
    else
      var front := ids[..|ids| - 1];
      assert Elements(ids) == Elements(front) + {ids[|ids| - 1]} by {
        assert ids == front + [ids[|ids| - 1]];
      }
      IndexMap(front)[ids[|ids| - 1] := |ids| - 1]
  }

  /** Reading a Go map at a missing key gives the zero value, index 0. */
  function IndexOf(m: map<nat, nat>, c: nat): nat
  {
    if c in m then m[c] else 0
  }

  /** A ballot of candidate ids, rewritten as candidate indices. */
  function Translate(m: map<nat, nat>, ballot: seq<nat>): (t: seq<nat>)
    ensures |t| == |ballot|
    ensures forall x :: 0 <= x < |ballot| ==> t[x] == IndexOf(m, ballot[x])
  {
    seq(|ballot|, x requires 0 <= x < |ballot| => IndexOf(m, ballot[x]))
  }

  function TranslateAll(m: map<nat, nat>, votes: seq<seq<nat>>): (ts: seq<seq<nat>>)
    ensures |ts| == |votes|
    ensures forall v :: 0 <= v < |votes| ==> ts[v] == Translate(m, votes[v])
  {
    seq(|votes|, v requires 0 <= v < |votes| => Translate(m, votes[v]))
  }

  /** The number of occurrences of `b` in `t`. */
  function Occurrences(t: seq<nat>, b: nat): nat
  {
    if t == [] then 0
    else Occurrences(t[..|t| - 1], b) + (if t[|t| - 1] == b then 1 else 0)
  }

  /** The number of position pairs x < y of `s` with s[x] == a, s[y] == b and
      x below `i`. */
  function PairsBefore(s: seq<nat>, a: nat, b: nat, i: nat): nat
    requires i <= |s|
  {
    if i == 0 then 0
    else PairsBefore(s, a, b, i - 1) + (if s[i - 1] == a then Occurrences(s[i..], b) else 0)
  }

  function Pairs(s: seq<nat>, a: nat, b: nat): nat
  {
    PairsBefore(s, a, b, |s|)
  }

  /** What the loops add up: over all ballots, the pairs with a before b. */
  function Tally(ballots: seq<seq<nat>>, a: nat, b: nat): nat
  {
    if ballots == [] then 0
    else Tally(ballots[..|ballots| - 1], a, b) + Pairs(ballots[|ballots| - 1], a, b)
  }

  /** `prefer`, built exactly as the Go loops build it.  The slice
      `vote.Rankings[i+1 : N]` is in bounds for every i only when each ballot
      has exactly N entries, hence the precondition. */
  method BuildPreferences(candidates: seq<nat>, votes: seq<seq<nat>>) returns (prefer: array2<int>)
    requires forall v :: 0 <= v < |votes| ==> |votes[v]| == |candidates|
    ensures fresh(prefer)
    ensures prefer.Length0 == |candidates| && prefer.Length1 == |candidates|
    ensures forall a, b :: 0 <= a < |candidates| && 0 <= b < |candidates| ==>
      prefer[a, b] == Tally(TranslateAll(IndexMap(candidates), votes), a, b)
  {
    var candidateIndexes;
    candidateIndexes, prefer := IndexCandidates(candidates);
    var n := |candidates|;
    ghost var ts := TranslateAll(candidateIndexes, votes);
    var v := 0;
    while v < |votes|
      invariant 0 <= v <= |votes|
      invariant forall a, b :: 0 <= a < n && 0 <= b < n ==> prefer[a, b] == Tally(ts[..v], a, b)
    {
      AddBallot(prefer, candidateIndexes, votes[v]);
      TallyStep(ts, v);
      v := v + 1;
    }
    assert ts[..|votes|] == ts;
  }

  /** The loop over the candidate list: it fills `candidateIndexes` and
      allocates a zeroed N x N matrix. */
  method IndexCandidates(candidates: seq<nat>) returns (candidateIndexes: map<nat, nat>, prefer: array2<int>)
    ensures candidateIndexes == IndexMap(candidates)
    ensures fresh(prefer)
    ensures prefer.Length0 == |candidates| && prefer.Length1 == |candidates|
    ensures forall a, b :: 0 <= a < |candidates| && 0 <= b < |candidates| ==> prefer[a, b] == 0
  {
    var n := |candidates|;
    candidateIndexes := map[];
    prefer := new int[n, n];
    var idx := 0;
    while idx < n
      invariant 0 <= idx <= n
      invariant candidateIndexes == IndexMap(candidates[..idx])
      invariant forall a, b :: 0 <= a < idx && 0 <= b < n ==> prefer[a, b] == 0
    {
      assert candidates[..idx + 1][..idx] == candidates[..idx];
      candidateIndexes := candidateIndexes[candidates[idx] := idx];
      var j := 0;
      while j < n
        invariant 0 <= j <= n
        invariant forall a, b :: 0 <= a < idx && 0 <= b < n ==> prefer[a, b] == 0
        invariant forall b :: 0 <= b < j ==> prefer[idx, b] == 0
      {
        prefer[idx, j] := 0;
        j := j + 1;
      }
      idx := idx + 1;
    }
    assert candidates[..n] == candidates;
  }

  lemma TallyStep(ts: seq<seq<nat>>, v: nat)
    requires v < |ts|
    ensures forall a, b :: Tally(ts[..v + 1], a, b) == Tally(ts[..v], a, b) + Pairs(ts[v], a, b)
  {
    assert ts[..v + 1][..v] == ts[..v];
  }

  /** The pairs counted once the outer loop has reached position i and the
      inner loop position j. */
  function Partial(t: seq<nat>, i: nat, j: nat, a: nat, b: nat): nat
    requires i < j <= |t|
  {
    PairsBefore(t, a, b, i) + (if t[i] == a then Occurrences(t[i + 1..j], b) else 0)
  }

  lemma PartialStep(t: seq<nat>, i: nat, j: nat, a: nat, b: nat)
    requires i < j < |t|
    ensures Partial(t, i, j + 1, a, b) == Partial(t, i, j, a, b) + (if t[i] == a && t[j] == b then 1 else 0)
  {
    assert t[i + 1..j + 1][..j - i - 1] == t[i + 1..j];
  }

  lemma PartialDone(t: seq<nat>, i: nat, a: nat, b: nat)
    requires i < |t|
    ensures Partial(t, i, |t|, a, b) == PairsBefore(t, a, b, i + 1)
  {
    assert t[i + 1..|t|] == t[i + 1..];
  }

  /** The body of the loop over ballots: every ordered pair of positions of
      one ballot adds one to the matching cell. */
  method AddBallot(prefer: array2<int>, candidateIndexes: map<nat, nat>, ranking: seq<nat>)
    requires prefer.Length0 == prefer.Length1 == |ranking|
    requires forall c :: c in candidateIndexes ==> candidateIndexes[c] < |ranking|
    modifies prefer
    ensures forall a, b :: 0 <= a < |ranking| && 0 <= b < |ranking| ==>
      prefer[a, b] == old(prefer[a, b]) + Pairs(Translate(candidateIndexes, ranking), a, b)
  {
    var n := |ranking|;
    ghost var t := Translate(candidateIndexes, ranking);
    var i := 0;
    while i < n
      invariant 0 <= i <= n
      invariant forall a, b :: 0 <= a < n && 0 <= b < n ==>
        prefer[a, b] == old(prefer[a, b]) + PairsBefore(t, a, b, i)
    {
      var j := i + 1;
      while j < n
        invariant i + 1 <= j <= n
        invariant forall a, b :: 0 <= a < n && 0 <= b < n ==>
          prefer[a, b] == old(prefer[a, b]) + Partial(t, i, j, a, b)
      {
        var aIdx := IndexOf(candidateIndexes, ranking[i]);
        var bIdx := IndexOf(candidateIndexes, ranking[j]);
        prefer[aIdx, bIdx] := prefer[aIdx, bIdx] + 1;
        forall a, b | 0 <= a < n && 0 <= b < n
          ensures prefer[a, b] == old(prefer[a, b]) + Partial(t, i, j + 1, a, b)
        {
          PartialStep(t, i, j, a, b);
        }
        j := j + 1;
      }
      forall a, b | 0 <= a < n && 0 <= b < n
        ensures prefer[a, b] == old(prefer[a, b]) + PairsBefore(t, a, b, i + 1)
      {
        PartialDone(t, i, a, b);
      }
      i := i + 1;
    }
  }
}

/** What the preference matrix means: for ballots that rank every candidate
    once, prefer[a][b] is the number of voters who rank candidate a above
    candidate b. */
module PreferenceFacts {
  import opened Common
  import opened Preferences

  /** `a` appears strictly before `b` in `t`. */
  ghost predicate Before(t: seq<nat>, a: nat, b: nat)
  {
    exists x, y :: 0 <= x < y < |t| && t[x] == a && t[y] == b
  }

  /** A ballot of candidate indices ranking each of 0 .. n-1 exactly once. */
  ghost predicate IsRanking(t: seq<nat>, n: nat)
  {
    |t| == n && Distinct(t) && (forall x :: 0 <= x < |t| ==> t[x] < n) && (forall a :: 0 <= a < n ==> a in t)
  }

  /** The number of ballots that rank a above b. */
  ghost function Voters(ballots: seq<seq<nat>>, a: nat, b: nat): nat
  {
    if ballots == [] then 0
    else Voters(ballots[..|ballots| - 1], a, b) + (if Before(ballots[|ballots| - 1], a, b) then 1 else 0)
  }

  lemma {:induction false} OccurrencesOfDistinct(t: seq<nat>, b: nat)
    requires Distinct(t)
    ensures Occurrences(t, b) == if b in t then 1 else 0
  {
    if t != [] {
      var front := t[..|t| - 1];
      assert Distinct(front);
      OccurrencesOfDistinct(front, b);
      assert t == front + [t[|t| - 1]];
      if t[|t| - 1] == b {
        assert b !in front by {
          forall x | 0 <= x < |front| ensures front[x] != b {
            assert front[x] == t[x];
          }
        }
      }
    }
  }

  lemma {:induction false} PairsBeforeOfDistinct(t: seq<nat>, a: nat, b: nat, i: nat)
    requires Distinct(t) && i <= |t|
    ensures PairsBefore(t, a, b, i) ==
      if exists x, y :: 0 <= x < i && x < y < |t| && t[x] == a && t[y] == b then 1 else 0
  {
    if i > 0 {
      PairsBeforeOfDistinct(t, a, b, i - 1);
      var k := i - 1;
      assert Distinct(t[i..]);
      OccurrencesOfDistinct(t[i..], b);
      if t[k] == a {
        assert !exists x, y :: 0 <= x < k && x < y < |t| && t[x] == a && t[y] == b;
        if b in t[i..] {
          var z :| 0 <= z < |t[i..]| && t[i..][z] == b;
          assert t[k] == a && t[i + z] == b;
        } else {
          forall x, y | 0 <= x < i && x < y < |t| && t[x] == a ensures t[y] != b {
            assert x == k;
            assert t[i..][y - i] == t[y];
          }
        }
      } else {
        assert (exists x, y :: 0 <= x < i && x < y < |t| && t[x] == a && t[y] == b)
          == (exists x, y :: 0 <= x < k && x < y < |t| && t[x] == a && t[y] == b);
      }
    }
  }

  /** A ballot without repeats contributes one to prefer[a][b] exactly when it
      ranks a above b, and nothing otherwise. */
  lemma PairsOfDistinct(t: seq<nat>, a: nat, b: nat)
    requires Distinct(t)
    ensures Pairs(t, a, b) == if Before(t, a, b) then 1 else 0
  {
    PairsBeforeOfDistinct(t, a, b, |t|);
  }

  /** Of two different candidates a ballot ranking both puts exactly one
      first. */
  lemma BeforeExclusive(t: seq<nat>, a: nat, b: nat)
    requires Distinct(t) && a != b && a in t && b in t
    ensures Before(t, a, b) != Before(t, b, a)
  {
    var x :| 0 <= x < |t| && t[x] == a;
    var y :| 0 <= y < |t| && t[y] == b;
    if x < y {
      assert Before(t, a, b);
    } else {
      assert Before(t, b, a);
    }
  }

  /** prefer[a][b] counts the voters who prefer a to b. */
  lemma {:induction false} TallyCountsVoters(ballots: seq<seq<nat>>, a: nat, b: nat)
    requires forall v :: 0 <= v < |ballots| ==> Distinct(ballots[v])
    ensures Tally(ballots, a, b) == Voters(ballots, a, b)
  {
    if ballots != [] {
      TallyCountsVoters(ballots[..|ballots| - 1], a, b);
      PairsOfDistinct(ballots[|ballots| - 1], a, b);
    }
  }

  /** For full rankings, every voter prefers one of two different candidates
      to the other: prefer[a][b] + prefer[b][a] is the number of ballots. */
  lemma {:induction false} TallyComplement(ballots: seq<seq<nat>>, n: nat, a: nat, b: nat)
    requires forall v :: 0 <= v < |ballots| ==> IsRanking(ballots[v], n)
    requires a < n && b < n && a != b
    ensures Tally(ballots, a, b) + Tally(ballots, b, a) == |ballots|
  {
    if ballots != [] {
      var last := ballots[|ballots| - 1];
      TallyComplement(ballots[..|ballots| - 1], n, a, b);
      PairsOfDistinct(last, a, b);
      PairsOfDistinct(last, b, a);
      BeforeExclusive(last, a, b);
    }
  }

  /** Nobody prefers a candidate to itself: the diagonal stays zero. */
  lemma {:induction false} TallyDiagonal(ballots: seq<seq<nat>>, a: nat)
    requires forall v :: 0 <= v < |ballots| ==> Distinct(ballots[v])
    ensures Tally(ballots, a, a) == 0
  {
    if ballots != [] {
      var last := ballots[|ballots| - 1];
      TallyDiagonal(ballots[..|ballots| - 1], a);
      PairsOfDistinct(last, a, a);
    }
  }

  /** A candidate every voter ranks above b beats b by all ballots to none. */
  lemma {:induction false} TallyUnanimous(ballots: seq<seq<nat>>, a: nat, b: nat)
    requires forall v :: 0 <= v < |ballots| ==> Distinct(ballots[v]) && Before(ballots[v], a, b)
    ensures Tally(ballots, a, b) == |ballots| && Tally(ballots, b, a) == 0
  {
    if ballots != [] {
      var last := ballots[|ballots| - 1];
      TallyUnanimous(ballots[..|ballots| - 1], a, b);
      PairsOfDistinct(last, a, b);
      PairsOfDistinct(last, b, a);
      var x, y :| 0 <= x < y < |last| && last[x] == a && last[y] == b;
      BeforeExclusive(last, a, b);
    }
  }

  /** With distinct candidate ids, `candidateIndexes` sends each id back to
      its position. */
  lemma IndexMapPosition(candidates: seq<nat>, a: nat)
    requires Distinct(candidates) && a < |candidates|
    ensures candidates[a] in IndexMap(candidates) && IndexMap(candidates)[candidates[a]] == a
  {
    assert candidates[a] in Elements(candidates);
  }

  /** A ballot the server accepts (every candidate id once, as many entries as
      candidates) becomes a full ranking of the candidate indices. */
  lemma TranslatedBallotIsRanking(candidates: seq<nat>, ranking: seq<nat>)
    requires Distinct(candidates) && Distinct(ranking)
    requires |ranking| == |candidates| && Elements(ranking) == Elements(candidates)
    ensures IsRanking(Translate(IndexMap(candidates), ranking), |candidates|)
  {
    var m := IndexMap(candidates);
    var t := Translate(m, ranking);
    var n := |candidates|;
    forall x | 0 <= x < n ensures ranking[x] in m && t[x] == m[ranking[x]] && t[x] < n {
      assert ranking[x] in Elements(ranking);
    }
    assert Distinct(t) by {
      forall x, y | 0 <= x < y < n ensures t[x] != t[y] {
        assert ranking[x] != ranking[y];
        assert candidates[t[x]] == ranking[x] && candidates[t[y]] == ranking[y];
      }
    }
    TranslatedBallotCovers(candidates, ranking);
  }

  /** Every candidate index appears on a translated accepted ballot. */
  lemma TranslatedBallotCovers(candidates: seq<nat>, ranking: seq<nat>)
    requires Distinct(candidates)
    requires |ranking| == |candidates| && Elements(ranking) == Elements(candidates)
    ensures forall a :: 0 <= a < |candidates| ==> a in Translate(IndexMap(candidates), ranking)
  {
    var t := Translate(IndexMap(candidates), ranking);
    forall a | 0 <= a < |candidates| ensures a in t {
      assert candidates[a] in Elements(ranking);
      var x :| 0 <= x < |ranking| && ranking[x] == candidates[a];
      IndexMapPosition(candidates, a);
      assert t[x] == a;
    }
  }

  /** The order between two indices on a translated ballot is the voter's
      order between the two candidates. */
  lemma TranslatedBallotOrder(candidates: seq<nat>, ranking: seq<nat>, a: nat, b: nat)
    requires Distinct(candidates)
    requires |ranking| == |candidates| && Elements(ranking) == Elements(candidates)
    requires a < |candidates| && b < |candidates|
    ensures Before(Translate(IndexMap(candidates), ranking), a, b) <==> Before(ranking, candidates[a], candidates[b])
  {
    var m := IndexMap(candidates);
    var t := Translate(m, ranking);
    var n := |candidates|;
    IndexMapPosition(candidates, a);
    IndexMapPosition(candidates, b);
    if Before(t, a, b) {
      var x, y :| 0 <= x < y < n && t[x] == a && t[y] == b;
      assert ranking[x] in Elements(candidates) && ranking[y] in Elements(candidates);
      assert ranking[x] == candidates[a] && ranking[y] == candidates[b];
    }
    if Before(ranking, candidates[a], candidates[b]) {
      var x, y :| 0 <= x < y < n && ranking[x] == candidates[a] && ranking[y] == candidates[b];
      assert t[x] == a && t[y] == b;
    }
  }

  /** A ballot that lists every candidate id exactly once. */
  predicate IsCompleteBallot(candidates: seq<nat>, ranking: seq<nat>)
  {
    Distinct(ranking) && |ranking| == |candidates| && Elements(ranking) == Elements(candidates)
  }

  /** One complete ballot adds one to prefer[a][b] exactly when it ranks
      candidate a above candidate b, and one to exactly one of prefer[a][b]
      and prefer[b][a]. */
  lemma BallotCounts(candidates: seq<nat>, ballot: seq<nat>, a: nat, b: nat)
    requires Distinct(candidates) && a < |candidates| && b < |candidates|
    requires IsCompleteBallot(candidates, ballot)
    ensures Pairs(Translate(IndexMap(candidates), ballot), a, b)
      == if Before(ballot, candidates[a], candidates[b]) then 1 else 0
    ensures a != b ==>
      Pairs(Translate(IndexMap(candidates), ballot), a, b)
        + Pairs(Translate(IndexMap(candidates), ballot), b, a) == 1
  {
    var t := Translate(IndexMap(candidates), ballot);
    TranslatedBallotIsRanking(candidates, ballot);
    TranslatedBallotOrder(candidates, ballot, a, b);
    PairsOfDistinct(t, a, b);
    if a != b {
      TranslatedBallotOrder(candidates, ballot, b, a);
      PairsOfDistinct(t, b, a);
      BeforeExclusive(t, a, b);
    }
  }

  /** The headline property of the matrix: when every ballot lists every
      candidate once, prefer[a][b] is the number of voters who rank
      candidate a above candidate b, and prefer[a][b] + prefer[b][a] is the
      number of ballots. */
  lemma {:induction false} PreferencesCountVoters(candidates: seq<nat>, votes: seq<seq<nat>>, a: nat, b: nat)
    requires Distinct(candidates) && a < |candidates| && b < |candidates|
    requires forall v :: 0 <= v < |votes| ==> IsCompleteBallot(candidates, votes[v])
    ensures Tally(TranslateAll(IndexMap(candidates), votes), a, b) == Voters(votes, candidates[a], candidates[b])
    ensures a != b ==>
      (Tally(TranslateAll(IndexMap(candidates), votes), a, b)
        + Tally(TranslateAll(IndexMap(candidates), votes), b, a) == |votes|)
  {
    var ts := TranslateAll(IndexMap(candidates), votes);
    if votes != [] {
      var front := votes[..|votes| - 1];
      var last := votes[|votes| - 1];
      PreferencesCountVoters(candidates, front, a, b);
      assert ts[..|ts| - 1] == TranslateAll(IndexMap(candidates), front);
      BallotCounts(candidates, last, a, b);
    }
  }
}
