/** How a ballot is stored (server/actions/votes.go): `CastVote` writes one
    (rank, candidate) row per entry of the submitted ranking, and `GetVotes`,
    `CountVotes` and `calculateVoteHash` rebuild the list by writing each
    row's candidate at index `rank` of a fresh slice as long as the row list.
    The store hands the rows back in no particular order. */
module BallotRows {
  import opened Common

  /** `database.Ranking` */
  datatype Row = Row(voteId: nat, rank: nat, candidateId: nat)

  /** The rows `CastVote` writes for `ranking`, in the order it writes them. */
  method WriteRows(voteId: nat, ranking: seq<nat>) returns (rows: seq<Row>)
    ensures |rows| == |ranking|
    ensures forall r :: 0 <= r < |ranking| ==> rows[r] == Row(voteId, r, ranking[r])
  {
    rows := [];
    var rank := 0;
    while rank < |ranking|
      invariant 0 <= rank <= |ranking|
      invariant |rows| == rank
      invariant forall r :: 0 <= r < rank ==> rows[r] == Row(voteId, r, ranking[r])
    {
      rows := rows + [Row(voteId, rank, ranking[rank])];
      rank := rank + 1;
    }
  }

  /** The slice the rebuild loop leaves behind: zero where no row has that
      rank, and otherwise the candidate of the last row with that rank. */
  function Rebuilt(rows: seq<Row>, len: nat): (r: seq<nat>)
    requires forall x :: 0 <= x < |rows| ==> rows[x].rank < len
    ensures |r| == len
  {
    if rows == [] then seq(len, _ => 0)
    else
      var last := rows[|rows| - 1];
      Rebuilt(rows[..|rows| - 1], len)[last.rank := last.candidateId]
  }

  /** `ranking := make([]uuid.UUID, len(vote.Rankings))` followed by
      `ranking[rank.Rank] = rank.CandidateID` for every row.  A rank at or
      beyond the number of rows makes Go panic, hence the precondition. */
  method Rebuild(rows: seq<Row>) returns (ranking: array<nat>)
    requires forall x :: 0 <= x < |rows| ==> rows[x].rank < |rows|
    ensures fresh(ranking)
    ensures ranking[..] == Rebuilt(rows, |rows|)
  {
    ranking := new nat[|rows|](_ => 0);
    var x := 0;
    while x < |rows|
      invariant 0 <= x <= |rows|
      invariant ranking[..] == Rebuilt(rows[..x], |rows|)
    {
      assert rows[..x + 1][..x] == rows[..x];
      ranking[rows[x].rank] := rows[x].candidateId;
      x := x + 1;
    }
    assert rows[..|rows|] == rows;
  }

  /** Entry i of the rebuilt slice is the candidate every row of rank i
      names, when there is such a row. */
  lemma {:induction false} RebuiltAt(rows: seq<Row>, len: nat, i: nat, v: nat)
    requires forall x :: 0 <= x < |rows| ==> rows[x].rank < len
    requires i < len
    requires exists x :: 0 <= x < |rows| && rows[x].rank == i
    requires forall x :: 0 <= x < |rows| && rows[x].rank == i ==> rows[x].candidateId == v
    ensures Rebuilt(rows, len)[i] == v
  {
    var front := rows[..|rows| - 1];
    var last := rows[|rows| - 1];
    if last.rank != i {
      var x :| 0 <= x < |rows| && rows[x].rank == i;
      assert front[x] == rows[x];
      RebuiltAt(front, len, i, v);
    }
  }

  /** Round trip: rebuilding the rows `CastVote` wrote gives back the submitted
      ranking, in whatever order the store returns those rows. */
  lemma RoundTrip(voteId: nat, ranking: seq<nat>, written: seq<Row>, stored: seq<Row>)
    requires |written| == |ranking|
    requires forall r :: 0 <= r < |ranking| ==> written[r] == Row(voteId, r, ranking[r])
    requires |stored| == |written| && Elements(stored) == Elements(written)
    ensures forall x :: 0 <= x < |stored| ==> stored[x].rank < |stored|
    ensures Rebuilt(stored, |stored|) == ranking
  {
    var n := |ranking|;
    forall x | 0 <= x < n ensures stored[x].rank < n && stored[x].candidateId == ranking[stored[x].rank] {
      assert stored[x] in Elements(written);
    }
    forall i | 0 <= i < n ensures Rebuilt(stored, n)[i] == ranking[i] {
      assert written[i] in Elements(stored);
      var x :| 0 <= x < n && stored[x] == written[i];
      RebuiltAt(stored, n, i, ranking[i]);
    }
  }
}
