/** The ballot as the voter arranges it (client/src/components/Voting.tsx):
    the initial order, the index each candidate takes while an item is being
    dragged, the rank labels ("-" below the first symbolic candidate), the
    reordering on drop, when voting is disabled, and the check on the
    secret. */
module VotingOrder {
  import opened Common
  import CompareList
  import opened JsonTime
  import opened TimeInterval

  /** `candidateInfo`: a candidate as the ballot lists it. */
  datatype CandidateInfo = CandidateInfo(id: nat, name: string, presentation: string, symbolic: bool)

  /** `new Map(entries)`: a later entry for the same key wins. */
  function MapOf(entries: seq<(nat, int)>): map<nat, int>
  {
    if entries == [] then map[]
    else
      var last := entries[|entries| - 1];
      MapOf(entries[..|entries| - 1])[last.0 := last.1]
  }

  /** The keys of the map are the keys of the entries. */
  lemma {:induction false} MapOfKeys(entries: seq<(nat, int)>)
    ensures MapOf(entries).Keys == set i | 0 <= i < |entries| :: entries[i].0
  {
    if entries != [] {
      var front := entries[..|entries| - 1];
      MapOfKeys(front);
      var last := entries[|entries| - 1];
      var all := set i | 0 <= i < |entries| :: entries[i].0;
      var before := set i | 0 <= i < |front| :: front[i].0;
      assert all == before + {last.0} by {
        forall k | k in all ensures k in before + {last.0} {
          var i :| 0 <= i < |entries| && entries[i].0 == k;
          if i < |front| {
            assert front[i].0 == k;
          }
        }
      }
    }
  }

  /** With distinct keys, every entry is found under its key. */
  lemma {:induction false} MapOfLookup(entries: seq<(nat, int)>, i: nat)
    requires forall x, y :: 0 <= x < y < |entries| ==> entries[x].0 != entries[y].0
    requires i < |entries|
    ensures entries[i].0 in MapOf(entries) && MapOf(entries)[entries[i].0] == entries[i].1
  {
    var front := entries[..|entries| - 1];
    if i < |front| {
      MapOfLookup(front, i);
    }
  }

  /** The candidate ids of the ballot are pairwise different. */
  predicate DistinctIds(order: seq<CandidateInfo>)
  {
    forall i, j :: 0 <= i < j < |order| ==> order[i].id != order[j].id
  }

  /** `new Map(voteOrder.map((candidate, index) => [candidate.id, index]))` */
  function Positions(order: seq<CandidateInfo>): map<nat, int>
  {
    MapOf(seq(|order|, i requires 0 <= i < |order| => (order[i].id, i)))
  }

  /** The index `handleItemUpdate` gives the item at `index` while the item
      at `source` is held over `destination`. */
  function Remap(source: nat, destination: nat, index: nat): int
  {
    if source == destination then index
    else if index == source then destination
    else if source < destination then
      index - (if index > source then 1 else 0) + (if index > destination then 1 else 0)
    else
      index + (if index >= destination then 1 else 0) - (if index >= source then 1 else 0)
  }

  /** The dragged item goes to the destination; the items strictly between
      the two slots and the destination slot itself shift one step toward
      the source; every other item keeps its index. */
  lemma RemapMoves(source: nat, destination: nat, index: nat)
    ensures index == source ==> Remap(source, destination, index) == destination
    ensures source == destination ==> Remap(source, destination, index) == index
    ensures source < index <= destination ==> Remap(source, destination, index) == index - 1
    ensures destination <= index < source ==> Remap(source, destination, index) == index + 1
    ensures index != source && !(source < index <= destination) && !(destination <= index < source) ==>
      Remap(source, destination, index) == index
  {
  }

  /** Moving back undoes the move, so the remapping is a permutation of
      0 .. n-1. */
  lemma RemapIsPermutation(n: nat, source: nat, destination: nat, index: nat)
    requires source < n && destination < n && index < n
    ensures 0 <= Remap(source, destination, index) < n
    ensures Remap(destination, source, Remap(source, destination, index)) == index
  {
  }

  /** `adjustedIndexes` of `handleItemUpdate` */
  function AdjustedIndexes(order: seq<CandidateInfo>, source: nat, destination: nat): map<nat, int>
  {
    MapOf(seq(|order|, i requires 0 <= i < |order| => (order[i].id, Remap(source, destination, i))))
  }

  /** `reorder({ from, to })` of the list state: take the item out and put it
      back in at `to`. */
  function Move<T>(s: seq<T>, from: nat, to: nat): (r: seq<T>)
    requires from < |s| && to < |s|
    ensures |r| == |s|
  {
    var rest := s[..from] + s[from + 1..];
    rest[..to] + [s[from]] + rest[to..]
  }

  /** Every item sits after the move at the index `Remap` gives it. */
  lemma MoveFollowsRemap<T>(s: seq<T>, from: nat, to: nat, index: nat)
    requires from < |s| && to < |s| && index < |s|
    ensures 0 <= Remap(from, to, index) < |s|
    ensures Move(s, from, to)[Remap(from, to, index)] == s[index]
  {
    var rest := s[..from] + s[from + 1..];
    assert forall k :: 0 <= k < |rest| ==> rest[k] == if k < from then s[k] else s[k + 1];
  }

  /** Move keeps every item, once. */
  lemma MoveIsPermutation<T>(s: seq<T>, from: nat, to: nat)
    requires from < |s| && to < |s|
    ensures multiset(Move(s, from, to)) == multiset(s)
  {
    var rest := s[..from] + s[from + 1..];
    assert s == s[..from] + [s[from]] + s[from + 1..];
    assert rest == rest[..to] + rest[to..];
    calc {
      multiset(Move(s, from, to));
      multiset(rest[..to]) + multiset([s[from]]) + multiset(rest[to..]);
      multiset(rest) + multiset([s[from]]);
      multiset(s[..from]) + multiset(s[from + 1..]) + multiset([s[from]]);
      multiset(s);
    }
  }

  /** Where each candidate is after the move, and which candidate each
      slot holds. */
  lemma MovedPositions(order: seq<CandidateInfo>, source: nat, destination: nat)
    requires source < |order| && destination < |order|
    ensures forall i :: 0 <= i < |order| ==>
      0 <= Remap(source, destination, i) < |order|
      && Move(order, source, destination)[Remap(source, destination, i)] == order[i]
    ensures forall j :: 0 <= j < |order| ==>
      0 <= Remap(destination, source, j) < |order|
      && Move(order, source, destination)[j] == order[Remap(destination, source, j)]
  {
    forall i | 0 <= i < |order|
      ensures 0 <= Remap(source, destination, i) < |order|
      ensures Move(order, source, destination)[Remap(source, destination, i)] == order[i]
    {
      MoveFollowsRemap(order, source, destination, i);
    }
    forall j | 0 <= j < |order|
      ensures 0 <= Remap(destination, source, j) < |order|
      ensures Move(order, source, destination)[j] == order[Remap(destination, source, j)]
    {
      RemapIsPermutation(|order|, destination, source, j);
      MoveFollowsRemap(order, source, destination, Remap(destination, source, j));
    }
  }

  /** Two entry lists with distinct keys that hold the same entries, matched
      up by `f` one way and `g` the other, make the same map. */
  lemma MapOfReordered(p: seq<(nat, int)>, q: seq<(nat, int)>, f: nat -> nat, g: nat -> nat)
    requires |p| == |q|
    requires forall x, y :: 0 <= x < y < |p| ==> p[x].0 != p[y].0
    requires forall x, y :: 0 <= x < y < |q| ==> q[x].0 != q[y].0
    requires forall i {:trigger f(i)} :: 0 <= i < |p| ==> f(i) < |q| && q[f(i)] == p[i]
    requires forall j {:trigger g(j)} :: 0 <= j < |q| ==> g(j) < |p| && p[g(j)] == q[j]
    ensures MapOf(p) == MapOf(q)
  {
    SameKeys(p, q, f, g);
    MapOfKeys(p);
    MapOfKeys(q);
    forall k | k in MapOf(p) ensures k in MapOf(q) && MapOf(p)[k] == MapOf(q)[k] {
      var i :| 0 <= i < |p| && p[i].0 == k;
      MapOfLookup(p, i);
      MapOfLookup(q, f(i));
    }
  }

  lemma SameKeys(p: seq<(nat, int)>, q: seq<(nat, int)>, f: nat -> nat, g: nat -> nat)
    requires forall i {:trigger f(i)} :: 0 <= i < |p| ==> f(i) < |q| && q[f(i)] == p[i]
    requires forall j {:trigger g(j)} :: 0 <= j < |q| ==> g(j) < |p| && p[g(j)] == q[j]
    ensures (set i | 0 <= i < |p| :: p[i].0) == (set j | 0 <= j < |q| :: q[j].0)
  {
    var kp := set i | 0 <= i < |p| :: p[i].0;
    var kq := set j | 0 <= j < |q| :: q[j].0;
    forall k | k in kp ensures k in kq {
      var i :| 0 <= i < |p| && p[i].0 == k;
      assert f(i) < |q| && q[f(i)].0 == k;
    }
    forall k | k in kq ensures k in kp {
      var j :| 0 <= j < |q| && q[j].0 == k;
      assert g(j) < |p| && p[g(j)].0 == k;
    }
  }

  /** The indices shown while dragging are the positions the candidates
      take once the item is dropped. */
  lemma AdjustedIndexesArePositionsAfterMove(order: seq<CandidateInfo>, source: nat, destination: nat)
    requires source < |order| && destination < |order| && DistinctIds(order)
    ensures AdjustedIndexes(order, source, destination) == Positions(Move(order, source, destination))
  {
    var n := |order|;
    var moved := Move(order, source, destination);
    var adjusted := seq(n, i requires 0 <= i < n => (order[i].id, Remap(source, destination, i)));
    var after := seq(n, j requires 0 <= j < n => (moved[j].id, j));
    MovedPositions(order, source, destination);
    var f := (i: nat) => if i < n then Remap(source, destination, i) as nat else 0;
    var g := (j: nat) => if j < n then Remap(destination, source, j) as nat else 0;
    forall x, y | 0 <= x < y < n ensures after[x].0 != after[y].0 {
      RemapIsPermutation(n, destination, source, x);
      RemapIsPermutation(n, destination, source, y);
    }
    forall j | 0 <= j < n ensures g(j) < n && adjusted[g(j)] == after[j] {
      RemapIsPermutation(n, destination, source, j);
    }
    MapOfReordered(adjusted, after, f, g);
  }

  /** The ballot state of the voting page. */
  class Ballot {
    var voteOrder: seq<CandidateInfo>

    constructor(order: seq<CandidateInfo>)
      ensures voteOrder == order
    {
      voteOrder := order;
    }

    /** `handleItemDrop`: the held item is moved to the destination, or
        stays where it was when it is dropped outside the list. */
    method HandleItemDrop(source: nat, destination: Option<nat>)
      requires source < |voteOrder| && (destination.Some? ==> destination.value < |voteOrder|)
      modifies this
      ensures destination.Some? ==> voteOrder == Move(old(voteOrder), source, destination.value)
      ensures destination.None? ==> voteOrder == old(voteOrder)
      ensures multiset(voteOrder) == multiset(old(voteOrder))
    {
      var to := if destination.Some? then destination.value else source;
      var item := voteOrder[source];
      var rest := voteOrder[..source] + voteOrder[source + 1..];
      voteOrder := rest[..to] + [item] + rest[to..];
      MoveIsPermutation(old(voteOrder), source, to);
      if destination.None? {
        assert old(voteOrder) == old(voteOrder)[..source] + [item] + old(voteOrder)[source + 1..];
      }
    }
  }

  /** `firstSymbolic` of `updateDisplayIndex`: the least index the map gives
      a symbolic candidate, or the length of the ballot when that is
      smaller or there is none. */
  predicate IsFirstSymbolicIndex(order: seq<CandidateInfo>, indexes: map<nat, int>, first: int)
  {
    first <= |order|
    && (forall j :: 0 <= j < |order| && order[j].symbolic && order[j].id in indexes ==> first <= indexes[order[j].id])
    && (first == |order|
        || exists j :: 0 <= j < |order| && order[j].symbolic && order[j].id in indexes && indexes[order[j].id] == first)
  }

  /** The text shown beside a candidate: "-" or a rank. */
  datatype Label = Dash | Rank(n: int)

  /** `${firstSymbolic < index ? "-" : index + 1}` */
  function LabelOf(first: int, index: int): Label
  {
    if first < index then Dash else Rank(index + 1)
  }

  /** `updateDisplayIndex`: the `forEach` that finds `firstSymbolic`, then
      one label per candidate (an id missing from `indexes` counts as 0). */
  method UpdateDisplayIndex(order: seq<CandidateInfo>, indexes: map<nat, int>)
    returns (first: int, labels: map<nat, Label>)
    ensures IsFirstSymbolicIndex(order, indexes, first)
    ensures forall j :: 0 <= j < |order| ==> order[j].id in labels
    ensures forall id :: id in labels ==>
      (exists j :: 0 <= j < |order| && order[j].id == id)
      && labels[id] == LabelOf(first, if id in indexes then indexes[id] else 0)
  {
    first := |order|;
    var j := 0;
    while j < |order|
      invariant 0 <= j <= |order|
      invariant first <= |order|
      invariant forall i :: 0 <= i < j && order[i].symbolic && order[i].id in indexes ==> first <= indexes[order[i].id]
      invariant first == |order|
        || exists i :: 0 <= i < j && order[i].symbolic && order[i].id in indexes && indexes[order[i].id] == first
    {
      var candidate := order[j];
      if candidate.symbolic {
        first := Min(first, if candidate.id in indexes then indexes[candidate.id] else first);
      }
      j := j + 1;
    }
    labels := map id | id in (set i | 0 <= i < |order| :: order[i].id) ::
      LabelOf(first, if id in indexes then indexes[id] else 0);
  }

  /** A candidate gets "-" exactly when its index is above `firstSymbolic`;
      the first symbolic candidate itself keeps its rank. */
  lemma DashBelowFirstSymbolic(first: int, index: int)
    ensures LabelOf(first, index) == Dash <==> index > first
    ensures index == first ==> LabelOf(first, index) == Rank(first + 1)
  {
  }

  /** With the positions of the ballot as indexes, `firstSymbolic` is the
      position of the first symbolic candidate, or the length of the
      ballot if it has none. */
  lemma FirstSymbolicOfPositions(order: seq<CandidateInfo>, first: int)
    requires DistinctIds(order) && IsFirstSymbolicIndex(order, Positions(order), first)
    ensures 0 <= first <= |order|
    ensures forall j :: 0 <= j < first && j < |order| ==> !order[j].symbolic
    ensures first < |order| ==> order[first].symbolic
  {
    var entries := seq(|order|, i requires 0 <= i < |order| => (order[i].id, i));
    forall j | 0 <= j < |order| && order[j].symbolic ensures first <= j {
      MapOfLookup(entries, j);
    }
    if first < |order| {
      var j :| 0 <= j < |order| && order[j].symbolic && order[j].id in Positions(order)
        && Positions(order)[order[j].id] == first;
      MapOfLookup(entries, j);
    }
  }

  /** The key each candidate is sorted by, `[symbolic ? 1 : 0, random]`
      (`[1, 1]` for a candidate without a key). */
  function SortKey(c: CandidateInfo, random: map<nat, int>): seq<int>
  {
    if c.id in random then [if c.symbolic then 1 else 0, random[c.id]] else [1, 1]
  }

  /** The initial ballot is in `compareList` order of the keys. */
  predicate SortedByKey(order: seq<CandidateInfo>, random: map<nat, int>)
  {
    forall i, j :: 0 <= i < j < |order| ==> CompareList.Lex(SortKey(order[i], random), SortKey(order[j], random)) <= 0
  }

  /** The initial ballot lists every candidate that is not symbolic before
      every symbolic one, whatever the random part of the keys. */
  lemma SymbolicCandidatesLast(order: seq<CandidateInfo>, random: map<nat, int>)
    requires forall i :: 0 <= i < |order| ==> order[i].id in random
    requires SortedByKey(order, random)
    ensures forall i, j :: 0 <= i < |order| && 0 <= j < |order| && !order[i].symbolic && order[j].symbolic ==> i < j
  {
    forall i, j | 0 <= i < |order| && 0 <= j < |order| && !order[i].symbolic && order[j].symbolic
      ensures i < j
    {
      var ki, kj := SortKey(order[i], random), SortKey(order[j], random);
      assert ki[0] == 0 && kj[0] == 1;
      assert CompareList.Lex(kj, ki) == 1;
      assert i != j;
    }
  }

  /** `disabled`: already voted, finalized, not yet opened (no open time
      counts as not opened), closed (no close time counts as closed), or
      not allowed to vote.  `isAfter` is strict. */
  function Disabled(hasVoted: bool, finalized: bool, openTime: Option<int>, closeTime: Option<int>,
                    now: int, mayVote: bool): bool
  {
    var hasOpened := if openTime.Some? then now > openTime.value else false;
    var hasClosed := if closeTime.Some? then now > closeTime.value else true;
    hasVoted || finalized || !hasOpened || hasClosed || !mayVote
  }

  /** Voting is enabled exactly when the voter has not voted and may vote,
      the election is not finalized, and both times are set with
      open < now <= close; the server then accepts the time too. */
  lemma EnabledMeansOpen(hasVoted: bool, finalized: bool, openTime: Option<int>, closeTime: Option<int>,
                         now: int, mayVote: bool)
    ensures !Disabled(hasVoted, finalized, openTime, closeTime, now, mayVote) <==>
      !hasVoted && !finalized && mayVote && openTime.Some? && closeTime.Some?
      && openTime.value < now <= closeTime.value
    ensures !Disabled(hasVoted, finalized, openTime, closeTime, now, mayVote) ==>
      TimeIsInValidInterval(now, SqlNullTime(openTime.value, true), SqlNullTime(closeTime.value, true))
  {
  }

  /** The form check on the secret. */
  function SecretError(secret: string): Option<string>
  {
    if |secret| < 10 then Some("Secret should be at least 10 characters long") else None
  }

  lemma SecretErrorIffShort(secret: string)
    ensures SecretError(secret).Some? <==> |secret| < 10
  {
  }
}
