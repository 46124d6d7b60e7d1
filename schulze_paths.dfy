/** The strongest-path pass of the Schulze count (`StrongestPaths` in
    server/actions/votes.go): a Floyd–Warshall style widest-path computation
    done in place on a copy of an N×N matrix.

    The meaning of the result is stated with walks: a walk from i to j is a
    sequence of candidate indices that starts at i, ends at j, has at least one
    step and never steps from a vertex to itself.  Its strength is its weakest
    edge.  Off the diagonal, the result is the strength of the strongest walk;
    the diagonal is never touched. */
module SchulzePaths {
  import opened Common

  /** Every row of `e` has as many entries as `e` has rows. */
  predicate IsSquare(e: seq<seq<int>>)
  {
    forall i :: 0 <= i < |e| ==> |e[i]| == |e|
  }

  /** `p` is a walk from `i` to `j` over the vertices 0..n-1. */
  predicate IsWalk(n: nat, p: seq<nat>, i: nat, j: nat)
  {
    && |p| >= 2 && p[0] == i && p[|p| - 1] == j
    && (forall x :: 0 <= x < |p| ==> p[x] < n)
    && (forall x :: 0 <= x < |p| - 1 ==> p[x] != p[x + 1])
  }

  /** Every vertex of `p` other than its two ends is below `k`. */
  predicate InnerBelow(p: seq<nat>, k: nat)
  {
    forall x :: 0 < x < |p| - 1 ==> p[x] < k
  }

  /** The strength of a walk: the smallest edge weight along it. */
  function Strength(e: seq<seq<int>>, p: seq<nat>): int
    requires IsSquare(e) && |p| >= 2
    requires forall x :: 0 <= x < |p| ==> p[x] < |e|
    decreases |p|
  {
    if |p| == 2 then e[p[0]][p[1]] else Min(e[p[0]][p[1]], Strength(e, p[1..]))
  }

  /** `v` is the strength of the strongest walk from `i` to `j`: some walk
      reaches it and no walk exceeds it. */
  ghost predicate IsWidest(e: seq<seq<int>>, i: nat, j: nat, v: int)
    requires IsSquare(e)
  {
    && (exists p :: IsWalk(|e|, p, i, j) && Strength(e, p) == v)
    && (forall p :: IsWalk(|e|, p, i, j) ==> Strength(e, p) <= v)
  }

  /** The matrix after the outer loop has run for intermediates 0..k-1.
      Entries with i == j, j == k-1 or k-1 == i are left as they were. */
  ghost function Stage(e: seq<seq<int>>, k: nat, i: nat, j: nat): int
    requires IsSquare(e) && k <= |e| && i < |e| && j < |e|
    decreases k
  {
    if k == 0 then e[i][j]
    else
      var m := k - 1;
      if i != j && j != m && m != i then
        Max(Stage(e, m, i, j), Min(Stage(e, m, i, m), Stage(e, m, m, j)))
      else
        Stage(e, m, i, j)
  }

  /** Splitting a walk at an inner vertex: its strength is the smaller of the
      strengths of the two halves. */
  lemma {:induction false} StrengthSplit(e: seq<seq<int>>, p: seq<nat>, x: nat)
    requires IsSquare(e) && |p| >= 2
    requires forall y :: 0 <= y < |p| ==> p[y] < |e|
    requires 0 < x < |p| - 1
    ensures Strength(e, p) == Min(Strength(e, p[..x + 1]), Strength(e, p[x..]))
    decreases |p|
  {
    if x == 1 {
      assert p[..x + 1] == [p[0], p[1]];
      assert p[x..] == p[1..];
    } else {
      var q := p[1..];
      StrengthSplit(e, q, x - 1);
      assert q[..x] == p[1..x + 1];
      assert q[x - 1..] == p[x..];
      assert p[..x + 1][1..] == q[..x];
    }
  }

  /** Joining a walk that ends at m with one that starts at m. */
  lemma StrengthJoin(e: seq<seq<int>>, p1: seq<nat>, p2: seq<nat>)
    requires IsSquare(e) && |p1| >= 2 && |p2| >= 2
    requires forall y :: 0 <= y < |p1| ==> p1[y] < |e|
    requires forall y :: 0 <= y < |p2| ==> p2[y] < |e|
    requires p1[|p1| - 1] == p2[0]
    ensures Strength(e, p1 + p2[1..]) == Min(Strength(e, p1), Strength(e, p2))
  {
    var q := p1 + p2[1..];
    var x := |p1| - 1;
    assert q[..x + 1] == p1;
    assert q[x..] == p2;
    StrengthSplit(e, q, x);
  }

  /** The strength of a walk is the weight of one of its edges. */
  lemma {:induction false} StrengthIsAnEdge(e: seq<seq<int>>, p: seq<nat>) returns (x: nat)
    requires IsSquare(e) && |p| >= 2
    requires forall y :: 0 <= y < |p| ==> p[y] < |e|
    ensures x < |p| - 1 && Strength(e, p) == e[p[x]][p[x + 1]]
    decreases |p|
  {
    if |p| == 2 {
      x := 0;
    } else if e[p[0]][p[1]] <= Strength(e, p[1..]) {
      x := 0;
    } else {
      var y := StrengthIsAnEdge(e, p[1..]);
      x := y + 1;
    }
  }

  function FirstIndexOf(p: seq<nat>, v: nat): (r: nat)
    requires v in p
    ensures r < |p| && p[r] == v
    ensures forall y :: 0 <= y < r ==> p[y] != v
  {
    if p[0] == v then 0 else 1 + FirstIndexOf(p[1..], v)
  }

  function LastIndexOf(p: seq<nat>, v: nat): (r: nat)
    requires v in p
    ensures r < |p| && p[r] == v
    ensures forall y :: r < y < |p| ==> p[y] != v
  {
    if p[|p| - 1] == v then |p| - 1 else LastIndexOf(p[..|p| - 1], v)
  }

  /** The piece of a walk between two of its positions is a walk. */
  lemma SubWalk(n: nat, p: seq<nat>, i: nat, j: nat, a: nat, b: nat)
    requires IsWalk(n, p, i, j) && a < b < |p|
    ensures IsWalk(n, p[a..b + 1], p[a], p[b])
  {
    var q := p[a..b + 1];
    forall x | 0 <= x < |q| ensures q[x] == p[a + x] && q[x] < n {
    }
    forall x | 0 <= x < |q| - 1 ensures q[x] != q[x + 1] {
      assert q[x] == p[a + x] && q[x + 1] == p[a + x + 1];
    }
  }

  /** The rest of a walk from one of its positions on is a walk. */
  lemma SuffixWalk(n: nat, p: seq<nat>, i: nat, j: nat, l: nat)
    requires IsWalk(n, p, i, j) && l < |p| - 1
    ensures IsWalk(n, p[l..], p[l], j)
  {
    var q := p[l..];
    forall x | 0 <= x < |q| ensures q[x] == p[l + x] && q[x] < n {
    }
    forall x | 0 <= x < |q| - 1 ensures q[x] != q[x + 1] {
      assert q[x] == p[l + x] && q[x + 1] == p[l + x + 1];
    }
  }

  /** Cutting a walk at an inner position leaves two pieces, each at least
      as strong as the walk. */
  lemma PiecesAreStronger(e: seq<seq<int>>, p: seq<nat>, x: nat)
    requires IsSquare(e) && |p| >= 2 && forall y :: 0 <= y < |p| ==> p[y] < |e|
    requires 0 <= x < |p|
    ensures 0 < x ==> Strength(e, p) <= Strength(e, p[..x + 1])
    ensures x < |p| - 1 ==> Strength(e, p) <= Strength(e, p[x..])
  {
    if 0 < x < |p| - 1 {
      StrengthSplit(e, p, x);
    } else if x == 0 {
      assert p[x..] == p;
    } else {
      assert p[..x + 1] == p;
    }
  }

  /** The part of a walk up to its first visit to m (m above every other
      inner vertex) is a walk to m whose inner vertices are below m, and it is
      at least as strong as the whole walk. */
  lemma PrefixToFirstVisit(e: seq<seq<int>>, p: seq<nat>, i: nat, j: nat, m: nat, f: nat)
    requires IsSquare(e) && IsWalk(|e|, p, i, j) && InnerBelow(p, m + 1)
    requires 0 < f < |p| && p[f] == m
    requires forall y :: 0 <= y < f ==> p[y] != m
    ensures IsWalk(|e|, p[..f + 1], i, m) && InnerBelow(p[..f + 1], m)
    ensures Strength(e, p) <= Strength(e, p[..f + 1])
  {
    var pre := p[..f + 1];
    SubWalk(|e|, p, i, j, 0, f);
    assert p[0..f + 1] == pre;
    forall x | 0 < x < |pre| - 1 ensures pre[x] < m {
      assert pre[x] == p[x];
    }
    PiecesAreStronger(e, p, f);
  }

  /** The part of a walk from its last visit to m, symmetrically. */
  lemma SuffixFromLastVisit(e: seq<seq<int>>, p: seq<nat>, i: nat, j: nat, m: nat, l: nat)
    requires IsSquare(e) && IsWalk(|e|, p, i, j) && InnerBelow(p, m + 1)
    requires 0 <= l < |p| - 1 && p[l] == m
    requires forall y :: l < y < |p| ==> p[y] != m
    ensures IsWalk(|e|, p[l..], m, j) && InnerBelow(p[l..], m)
    ensures Strength(e, p) <= Strength(e, p[l..])
  {
    SuffixWalk(|e|, p, i, j, l);
    forall x | 0 < x < |p[l..]| - 1 ensures p[l..][x] < m {
      assert p[l..][x] == p[l + x];
    }
    PiecesAreStronger(e, p, l);
  }

  /** No walk whose inner vertices are below k is stronger than stage k. */
  lemma {:induction false} StageIsUpperBound(e: seq<seq<int>>, k: nat, i: nat, j: nat, p: seq<nat>)
    requires IsSquare(e) && k <= |e| && i < |e| && j < |e| && i != j
    requires IsWalk(|e|, p, i, j) && InnerBelow(p, k)
    ensures Strength(e, p) <= Stage(e, k, i, j)
    decreases k, 1
  {
    if k == 0 {
      assert |p| == 2;
    } else if z :| 0 < z < |p| - 1 && p[z] == k - 1 {
      UpperBoundThroughPivot(e, k, i, j, p, z);
    } else {
      StageIsUpperBound(e, k - 1, i, j, p);
    }
  }

  /** The case of a walk that passes through the newest intermediate k - 1:
      cut it at its first and its last visit. */
  lemma {:induction false} UpperBoundThroughPivot(e: seq<seq<int>>, k: nat, i: nat, j: nat, p: seq<nat>, z: nat)
    requires IsSquare(e) && 0 < k <= |e| && i < |e| && j < |e| && i != j
    requires IsWalk(|e|, p, i, j) && InnerBelow(p, k)
    requires 0 < z < |p| - 1 && p[z] == k - 1
    ensures Strength(e, p) <= Stage(e, k, i, j)
    decreases k, 0
  {
    var m := k - 1;
    var f := FirstIndexOf(p, m);
    var l := LastIndexOf(p, m);
    assert f <= z <= l;
    if m != i {
      PrefixToFirstVisit(e, p, i, j, m, f);
      StageIsUpperBound(e, m, i, m, p[..f + 1]);
    }
    if m != j {
      SuffixFromLastVisit(e, p, i, j, m, l);
      StageIsUpperBound(e, m, m, j, p[l..]);
    }
  }

  /** Stage k is reached by a walk whose inner vertices are below k. */
  lemma {:induction false} StageIsReached(e: seq<seq<int>>, k: nat, i: nat, j: nat) returns (p: seq<nat>)
    requires IsSquare(e) && k <= |e| && i < |e| && j < |e| && i != j
    ensures IsWalk(|e|, p, i, j) && InnerBelow(p, k)
    ensures Strength(e, p) == Stage(e, k, i, j)
    decreases k
  {
    if k == 0 {
      p := [i, j];
    } else {
      var m := k - 1;
      if i != j && j != m && m != i && Stage(e, m, i, j) < Min(Stage(e, m, i, m), Stage(e, m, m, j)) {
        var p1 := StageIsReached(e, m, i, m);
        var p2 := StageIsReached(e, m, m, j);
        p := p1 + p2[1..];
        StrengthJoin(e, p1, p2);
        assert IsWalk(|e|, p, i, j) by {
          forall x | 0 <= x < |p| - 1 ensures p[x] != p[x + 1] {
            if x < |p1| - 1 {
              assert p[x] == p1[x] && p[x + 1] == p1[x + 1];
            } else {
              assert p[x] == p2[x - |p1| + 1] && p[x + 1] == p2[x - |p1| + 2];
            }
          }
        }
        assert InnerBelow(p, k) by {
          forall x | 0 < x < |p| - 1 ensures p[x] < k {
            if x < |p1| - 1 {
              assert p[x] == p1[x];
            } else if x == |p1| - 1 {
              assert p[x] == m;
            } else {
              assert p[x] == p2[x - |p1| + 1];
            }
          }
        }
      } else {
        p := StageIsReached(e, m, i, j);
      }
    }
  }

  /** After all N intermediates, an off-diagonal stage value is the widest walk. */
  lemma FinalStageIsWidest(e: seq<seq<int>>, i: nat, j: nat)
    requires IsSquare(e) && i < |e| && j < |e| && i != j
    ensures IsWidest(e, i, j, Stage(e, |e|, i, j))
  {
    var w := StageIsReached(e, |e|, i, j);
    forall p | IsWalk(|e|, p, i, j) ensures Strength(e, p) <= Stage(e, |e|, i, j) {
      StageIsUpperBound(e, |e|, i, j, p);
    }
  }

  /** Never lower than the direct comparison: the walk [i, j] is a candidate. */
  lemma WidestAtLeastDirect(e: seq<seq<int>>, i: nat, j: nat, v: int)
    requires IsSquare(e) && i < |e| && j < |e| && i != j && IsWidest(e, i, j, v)
    ensures v >= e[i][j]
  {
    assert IsWalk(|e|, [i, j], i, j);
  }

  /** Every widest value is one of the input's off-diagonal entries. */
  lemma WidestIsAnEntry(e: seq<seq<int>>, i: nat, j: nat, v: int) returns (a: nat, b: nat)
    requires IsSquare(e) && i < |e| && j < |e| && IsWidest(e, i, j, v)
    ensures a < |e| && b < |e| && a != b && v == e[a][b]
  {
    var p :| IsWalk(|e|, p, i, j) && Strength(e, p) == v;
    var x := StrengthIsAnEdge(e, p);
    a, b := p[x], p[x + 1];
  }

  /** Hence it lies between the smallest and largest off-diagonal entries; in
      particular it is non-negative for a non-negative input. */
  lemma WidestBounds(e: seq<seq<int>>, i: nat, j: nat, v: int, lo: int, hi: int)
    requires IsSquare(e) && i < |e| && j < |e| && IsWidest(e, i, j, v)
    requires forall a, b :: 0 <= a < |e| && 0 <= b < |e| && a != b ==> lo <= e[a][b] <= hi
    ensures lo <= v <= hi
  {
    var a, b := WidestIsAnEntry(e, i, j, v);
  }

  /** The Schulze fixed point: going through a third candidate never beats the
      strongest path. */
  lemma WidestTriangle(e: seq<seq<int>>, i: nat, k: nat, j: nat, vik: int, vkj: int, vij: int)
    requires IsSquare(e) && i < |e| && j < |e| && k < |e|
    requires i != j && i != k && k != j
    requires IsWidest(e, i, k, vik) && IsWidest(e, k, j, vkj) && IsWidest(e, i, j, vij)
    ensures vij >= Min(vik, vkj)
  {
    var p1 :| IsWalk(|e|, p1, i, k) && Strength(e, p1) == vik;
    var p2 :| IsWalk(|e|, p2, k, j) && Strength(e, p2) == vkj;
    var p := p1 + p2[1..];
    StrengthJoin(e, p1, p2);
    assert IsWalk(|e|, p, i, j) by {
      forall x | 0 <= x < |p| - 1 ensures p[x] != p[x + 1] {
        if x < |p1| - 1 {
          assert p[x] == p1[x] && p[x + 1] == p1[x + 1];
        } else {
          assert p[x] == p2[x - |p1| + 1] && p[x + 1] == p2[x - |p1| + 2];
        }
      }
    }
  }

  /** `StrongestPaths`: copy the matrix, then for every intermediate k and every
      pair i, j of distinct candidates other than k, raise res[i][j] to
      min(res[i][k], res[k][j]) when that is larger.  The input array is only
      read (the method has no `modifies` clause). */
  method StrongestPaths(e: array2<int>) returns (res: array2<int>)
    requires e.Length0 == e.Length1
    ensures fresh(res)
    ensures res.Length0 == e.Length0 && res.Length1 == e.Length0
    ensures forall i :: 0 <= i < e.Length0 ==> res[i, i] == e[i, i]
    ensures forall i, j :: 0 <= i < e.Length0 && 0 <= j < e.Length0 && i != j ==>
      IsWidest(Rows(e), i, j, res[i, j])
    ensures forall i, j :: 0 <= i < e.Length0 && 0 <= j < e.Length0 ==> res[i, j] >= e[i, j]
    ensures forall i, k, j {:trigger res[i, j], res[i, k], res[k, j]} ::
      0 <= i < e.Length0 && 0 <= j < e.Length0 && 0 <= k < e.Length0 && i != j && i != k && k != j ==>
        res[i, j] >= Min(res[i, k], res[k, j])
  {
    ghost var m := Rows(e);
    var n := e.Length0;
    res := new int[n, n];
    // Copy2DSlice
    forall i, j | 0 <= i < n && 0 <= j < n {
      res[i, j] := e[i, j];
    }
    var k := 0;
    while k < n
      invariant 0 <= k <= n
      invariant forall a, b :: 0 <= a < n && 0 <= b < n ==> res[a, b] == Stage(m, k, a, b)
    {
      RelaxRound(res, m, k);
      k := k + 1;
    }
    FinalArray(m, res);
  }

  /** Round k of the triple loop: every entry passes from stage k to
      stage k + 1. */
  method RelaxRound(res: array2<int>, ghost m: seq<seq<int>>, k: nat)
    requires IsSquare(m) && k < |m| && res.Length0 == |m| && res.Length1 == |m|
    requires forall a, b :: 0 <= a < |m| && 0 <= b < |m| ==> res[a, b] == Stage(m, k, a, b)
    modifies res
    ensures forall a, b :: 0 <= a < |m| && 0 <= b < |m| ==> res[a, b] == Stage(m, k + 1, a, b)
  {
    var n := res.Length0;
    var i := 0;
    while i < n
      invariant 0 <= i <= n
      invariant forall a, b :: 0 <= a < n && 0 <= b < n ==>
        res[a, b] == if a < i then Stage(m, k + 1, a, b) else Stage(m, k, a, b)
    {
      forall b | 0 <= b < n
        ensures res[k, b] == Stage(m, k, k, b)
      {
        PivotUnchanged(m, k, b);
      }
      RelaxRow(res, m, k, i);
      i := i + 1;
    }
  }

  /** One row of round k: row i passes from stage k to stage k + 1 and the
      other rows stay as they are. */
  method RelaxRow(res: array2<int>, ghost m: seq<seq<int>>, k: nat, i: nat)
    requires IsSquare(m) && k < |m| && i < |m| && res.Length0 == |m| && res.Length1 == |m|
    requires forall b :: 0 <= b < |m| ==> res[i, b] == Stage(m, k, i, b)
    requires forall b :: 0 <= b < |m| ==> res[k, b] == Stage(m, k, k, b)
    modifies res
    ensures forall b :: 0 <= b < |m| ==> res[i, b] == Stage(m, k + 1, i, b)
    ensures forall a, b :: 0 <= a < |m| && 0 <= b < |m| && a != i ==> res[a, b] == old(res[a, b])
  {
    var n := res.Length0;
    var j := 0;
    PivotUnchanged(m, k, i);
    while j < n
      invariant 0 <= j <= n
      invariant forall b :: 0 <= b < n ==> res[i, b] == if b < j then Stage(m, k + 1, i, b) else Stage(m, k, i, b)
      invariant forall a, b :: 0 <= a < n && 0 <= b < n && a != i ==> res[a, b] == old(res[a, b])
    {
      PivotUnchanged(m, k, j);
      if i != j && j != k && k != i {
        res[i, j] := Max(res[i, j], Min(res[i, k], res[k, j]));
      }
      j := j + 1;
    }
  }

  /** Round k leaves the row and the column of k as they were, so the loop
      may update in place. */
  lemma PivotUnchanged(e: seq<seq<int>>, k: nat, i: nat)
    requires IsSquare(e) && k < |e| && i < |e|
    ensures Stage(e, k + 1, i, k) == Stage(e, k, i, k) && Stage(e, k + 1, k, i) == Stage(e, k, k, i)
  {
  }

  /** The facts about the finished matrix, read off the array. */
  lemma FinalArray(e: seq<seq<int>>, res: array2<int>)
    requires IsSquare(e) && res.Length0 == |e| && res.Length1 == |e|
    requires forall a, b :: 0 <= a < |e| && 0 <= b < |e| ==> res[a, b] == Stage(e, |e|, a, b)
    ensures forall i :: 0 <= i < |e| ==> res[i, i] == e[i][i]
    ensures forall i, j :: 0 <= i < |e| && 0 <= j < |e| && i != j ==> IsWidest(e, i, j, res[i, j])
    ensures forall i, j :: 0 <= i < |e| && 0 <= j < |e| ==> res[i, j] >= e[i][j]
    ensures forall i, k, j {:trigger res[i, j], res[i, k], res[k, j]} ::
      0 <= i < |e| && 0 <= j < |e| && 0 <= k < |e| && i != j && i != k && k != j ==>
        res[i, j] >= Min(res[i, k], res[k, j])
  {
    var r := Rows(res);
    FinalMatrix(e, r);
    forall i, k, j | 0 <= i < |e| && 0 <= j < |e| && 0 <= k < |e| && i != j && i != k && k != j
      ensures res[i, j] >= Min(res[i, k], res[k, j])
    {
      assert r[i][j] == res[i, j] && r[i][k] == res[i, k] && r[k][j] == res[k, j];
    }
  }

  /** The facts about the finished matrix, stated on its rows. */
  lemma FinalMatrix(e: seq<seq<int>>, r: seq<seq<int>>)
    requires IsSquare(e) && |r| == |e|
    requires forall a :: 0 <= a < |e| ==> |r[a]| == |e|
    requires forall a, b :: 0 <= a < |e| && 0 <= b < |e| ==> r[a][b] == Stage(e, |e|, a, b)
    ensures forall i :: 0 <= i < |e| ==> r[i][i] == e[i][i]
    ensures forall i, j :: 0 <= i < |e| && 0 <= j < |e| && i != j ==> IsWidest(e, i, j, r[i][j])
    ensures forall i, j :: 0 <= i < |e| && 0 <= j < |e| ==> r[i][j] >= e[i][j]
    ensures forall i, k, j ::
      0 <= i < |e| && 0 <= j < |e| && 0 <= k < |e| && i != j && i != k && k != j ==>
        r[i][j] >= Min(r[i][k], r[k][j])
  {
    forall i | 0 <= i < |e| ensures r[i][i] == e[i][i] {
      StageDiagonal(e, |e|, i);
    }
    forall i, j | 0 <= i < |e| && 0 <= j < |e| && i != j
      ensures IsWidest(e, i, j, r[i][j]) && r[i][j] >= e[i][j]
    {
      FinalStageIsWidest(e, i, j);
      WidestAtLeastDirect(e, i, j, r[i][j]);
    }
    forall i, k, j | 0 <= i < |e| && 0 <= j < |e| && 0 <= k < |e| && i != j && i != k && k != j
      ensures r[i][j] >= Min(r[i][k], r[k][j])
    {
      WidestTriangle(e, i, k, j, r[i][k], r[k][j], r[i][j]);
    }
  }

  /** Stages never change a diagonal entry. */
  lemma {:induction false} StageDiagonal(e: seq<seq<int>>, k: nat, i: nat)
    requires IsSquare(e) && k <= |e| && i < |e|
    ensures Stage(e, k, i, i) == e[i][i]
    decreases k
  {
    if k > 0 {
      StageDiagonal(e, k - 1, i);
    }
  }
}
