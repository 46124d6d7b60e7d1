/** The final order of a Schulze count (`CountVotesSchultze` in
    server/actions/votes.go): the candidate indices 0 .. N-1 are put in some
    order by a shuffle followed by a stable sort on the strongest-path
    matrix, and the response lists the candidates and both matrices in that
    order.  Both the shuffle and the sort only ever swap two entries of
    `result`, so the model takes the swaps they perform as a parameter. */
module SchulzeRanking {
  import opened Common

  /** 0, 1, ..., n-1 */
  function Range(n: nat): (r: seq<nat>)
    ensures |r| == n && forall x :: 0 <= x < n ==> r[x] == x
  {
    seq(n, x requires 0 <= x < n => x)
  }

  /** `s` holds each of 0 .. n-1 exactly once. */
  predicate IsPermutation(s: seq<nat>, n: nat)
  {
    |s| == n && multiset(s) == multiset(Range(n))
  }

  lemma {:induction false} RangeMultiplicity(n: nat, v: nat)
    ensures multiset(Range(n))[v] == if v < n then 1 else 0
  {
    if n > 0 {
      RangeMultiplicity(n - 1, v);
      assert Range(n) == Range(n - 1) + [n - 1];
    }
  }

  /** What a permutation is entry by entry: entries are below n, no entry
      repeats and every index occurs. */
  lemma PermutationFacts(s: seq<nat>, n: nat)
    requires IsPermutation(s, n)
    ensures forall x :: 0 <= x < n ==> s[x] < n
    ensures forall a :: 0 <= a < n ==> a in s
    ensures Distinct(s)
  {
    forall x | 0 <= x < n ensures s[x] < n {
      assert s[x] in multiset(s);
      RangeMultiplicity(n, s[x]);
    }
    forall a | 0 <= a < n ensures a in s {
      RangeMultiplicity(n, a);
      assert a in multiset(s);
    }
    forall x, y | 0 <= x < y < n ensures s[x] != s[y] {
      if s[x] == s[y] {
        assert s == s[..y] + [s[y]] + s[y + 1..];
        assert s[x] in multiset(s[..y]) by {
          assert s[..y][x] == s[x];
        }
        assert multiset(s)[s[x]] >= 2;
        RangeMultiplicity(n, s[x]);
      }
    }
  }

  /** `result := make([]int, N)` filled with the identity, then every swap
      that `rand.Shuffle` and `sort.SliceStable` perform. */
  method TieOrder(n: nat, swaps: seq<(nat, nat)>) returns (result: array<nat>)
    requires forall s :: 0 <= s < |swaps| ==> swaps[s].0 < n && swaps[s].1 < n
    ensures fresh(result) && result.Length == n
    ensures IsPermutation(result[..], n)
  {
    result := new nat[n];
    var i := 0;
    while i < n
      invariant 0 <= i <= n
      invariant forall x :: 0 <= x < i ==> result[x] == x
    {
      result[i] := i;
      i := i + 1;
    }
    assert result[..] == Range(n);
    var s := 0;
    while s < |swaps|
      invariant 0 <= s <= |swaps|
      invariant IsPermutation(result[..], n)
    {
      var (x, y) := swaps[s];
      result[x], result[y] := result[y], result[x];
      s := s + 1;
    }
  }

  /** The loop that builds the response: the candidates in `result` order,
      and `prefer` and `p` with rows and columns taken in that same order. */
  method BuildResponse(candidates: seq<nat>, prefer: array2<int>, p: array2<int>, result: array<nat>)
    returns (ranking: seq<nat>, voteMatrix: seq<seq<int>>, schulzeMatrix: seq<seq<int>>)
    requires prefer.Length0 == prefer.Length1 == |candidates|
    requires p.Length0 == p.Length1 == |candidates|
    requires result.Length == |candidates|
    requires forall x :: 0 <= x < result.Length ==> result[x] < |candidates|
    ensures |ranking| == |voteMatrix| == |schulzeMatrix| == |candidates|
    ensures forall r :: 0 <= r < |candidates| ==> ranking[r] == candidates[result[r]]
    ensures forall r :: 0 <= r < |candidates| ==> |voteMatrix[r]| == |schulzeMatrix[r]| == |candidates|
    ensures forall r, c :: 0 <= r < |candidates| && 0 <= c < |candidates| ==>
      voteMatrix[r][c] == prefer[result[r], result[c]] && schulzeMatrix[r][c] == p[result[r], result[c]]
  {
    var n := |candidates|;
    ranking, voteMatrix, schulzeMatrix := [], [], [];
    var r := 0;
    while r < n
      invariant 0 <= r <= n
      invariant |ranking| == |voteMatrix| == |schulzeMatrix| == r
      invariant forall r' :: 0 <= r' < r ==> ranking[r'] == candidates[result[r']]
      invariant forall r' :: 0 <= r' < r ==> |voteMatrix[r']| == |schulzeMatrix[r']| == n
      invariant forall r', c :: 0 <= r' < r && 0 <= c < n ==>
        voteMatrix[r'][c] == prefer[result[r'], result[c]] && schulzeMatrix[r'][c] == p[result[r'], result[c]]
    {
      var idx := result[r];
      ranking := ranking + [candidates[idx]];
      var votesRow, schulzeRow := [], [];
      var c := 0;
      while c < n
        invariant 0 <= c <= n
        invariant |votesRow| == |schulzeRow| == c
        invariant forall c' :: 0 <= c' < c ==>
          votesRow[c'] == prefer[idx, result[c']] && schulzeRow[c'] == p[idx, result[c']]
      {
        var idx2 := result[c];
        votesRow := votesRow + [prefer[idx, idx2]];
        schulzeRow := schulzeRow + [p[idx, idx2]];
        c := c + 1;
      }
      voteMatrix := voteMatrix + [votesRow];
      schulzeMatrix := schulzeMatrix + [schulzeRow];
      r := r + 1;
    }
  }

  /** The position at which `v` occurs in `s`. */
  function PositionOf(s: seq<nat>, v: nat): (r: nat)
    requires v in s
    ensures r < |s| && s[r] == v
  {
    if s[0] == v then 0 else 1 + PositionOf(s[1..], v)
  }

  /** A matrix `m` relabelled by the order `result`. */
  predicate IsReordering(m: seq<seq<int>>, result: seq<nat>, reordered: seq<seq<int>>)
    requires |m| == |result| && forall a :: 0 <= a < |m| ==> |m[a]| == |m|
    requires forall x :: 0 <= x < |result| ==> result[x] < |m|
  {
    |reordered| == |m|
    && (forall r :: 0 <= r < |m| ==> |reordered[r]| == |m|)
    && forall r, c :: 0 <= r < |m| && 0 <= c < |m| ==> reordered[r][c] == m[result[r]][result[c]]
  }

  /** Entry m[a][b] appears in `reordered` at the positions of a and b. */
  ghost predicate Placed(m: seq<seq<int>>, result: seq<nat>, reordered: seq<seq<int>>, a: nat, b: nat)
    requires a < |m| && b < |m[a]|
  {
    exists r, c :: 0 <= r < |result| && 0 <= c < |result| && result[r] == a && result[c] == b
      && r < |reordered| && c < |reordered[r]| && reordered[r][c] == m[a][b]
  }

  /** Reordering by a permutation loses no entry: every entry of the original
      matrix sits in the reordered one, in the row and column of the
      positions its two candidates take in the order. */
  lemma ReorderingKeepsEntries(m: seq<seq<int>>, result: seq<nat>, reordered: seq<seq<int>>)
    requires |m| == |result| && forall a :: 0 <= a < |m| ==> |m[a]| == |m|
    requires IsPermutation(result, |m|)
    requires forall x :: 0 <= x < |result| ==> result[x] < |m|
    requires IsReordering(m, result, reordered)
    ensures forall a, b :: 0 <= a < |m| && 0 <= b < |m| ==> Placed(m, result, reordered, a, b)
  {
    PermutationFacts(result, |m|);
    forall a, b | 0 <= a < |m| && 0 <= b < |m| ensures Placed(m, result, reordered, a, b) {
      var r := PositionOf(result, a);
      var c := PositionOf(result, b);
      assert reordered[r][c] == m[a][b];
    }
  }

  /** The response's ranking lists every candidate, and each only once when
      the candidate ids are distinct. */
  lemma RankingIsPermutation(candidates: seq<nat>, result: seq<nat>, ranking: seq<nat>)
    requires IsPermutation(result, |candidates|)
    requires forall x :: 0 <= x < |result| ==> result[x] < |candidates|
    requires |ranking| == |candidates|
    requires forall r :: 0 <= r < |candidates| ==> ranking[r] == candidates[result[r]]
    ensures Elements(ranking) == Elements(candidates)
    ensures Distinct(candidates) ==> Distinct(ranking)
  {
    var n := |candidates|;
    PermutationFacts(result, n);
    forall v | v in Elements(candidates) ensures v in Elements(ranking) {
      var a :| 0 <= a < n && candidates[a] == v;
      var r := PositionOf(result, a);
      assert ranking[r] == v;
    }
    if Distinct(candidates) {
      forall x, y | 0 <= x < y < n ensures ranking[x] != ranking[y] {
        assert result[x] != result[y];
      }
    }
  }

  /** Strongest-path strengths after the Floyd–Warshall pass: a square matrix
      closed under the widest-path triangle rule. */
  predicate IsClosed(p: seq<seq<int>>)
  {
    (forall a :: 0 <= a < |p| ==> |p[a]| == |p|)
    && forall i, k, j :: 0 <= i < |p| && 0 <= k < |p| && 0 <= j < |p| && i != j && i != k && k != j ==>
      p[i][j] >= Min(p[i][k], p[k][j])
  }

  /** Candidate a defeats b in the Schulze sense. */
  predicate Beats(p: seq<seq<int>>, a: nat, b: nat)
    requires a < |p| && b < |p| && |p[a]| == |p| && |p[b]| == |p|
  {
    p[a][b] > p[b][a]
  }

  /** The Schulze defeat relation is transitive on closed matrices (which
      makes it a strict partial order: it is irreflexive and asymmetric by
      definition). */
  lemma BeatsTransitive(p: seq<seq<int>>, a: nat, b: nat, c: nat)
    requires IsClosed(p) && a < |p| && b < |p| && c < |p|
    requires Beats(p, a, b) && Beats(p, b, c)
    ensures Beats(p, a, c)
  {
    if a != c {
      assert p[a][c] >= Min(p[a][b], p[b][c]);
      assert p[c][b] >= Min(p[c][a], p[a][b]);
      assert p[b][a] >= Min(p[b][c], p[c][a]);
    }
  }

  /** Some candidate is defeated by nobody: the Schulze winner exists, which
      is what puts a candidate first in `ranking`. */
  lemma {:induction false} UnbeatenExists(p: seq<seq<int>>, k: nat) returns (w: nat)
    requires IsClosed(p) && 0 < k <= |p|
    ensures w < k && forall x :: 0 <= x < k ==> !Beats(p, x, w)
  {
    if k == 1 {
      w := 0;
    } else {
      var w' := UnbeatenExists(p, k - 1);
      if Beats(p, k - 1, w') {
        w := k - 1;
        forall x | 0 <= x < k ensures !Beats(p, x, w) {
          if x < k - 1 && Beats(p, x, w) {
            BeatsTransitive(p, x, k - 1, w');
          }
        }
      } else {
        w := w';
      }
    }
  }
}
