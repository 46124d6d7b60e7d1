/** How the client shows a Schulze result
    (client/src/components/DisplayResult.tsx, `DisplaySchultzeResult` and
    `DisplayVoteData`): the ranking is cut at the first symbolic candidate
    and at the number of mandates into an elected band, a band of
    substitutes ("Suppleant") and a band that was not elected, each row
    numbered by its place in the ranking; the matrix cells are coloured by
    comparing a cell with its mirror cell. */
module SeatBands {
  import opened Common

  /** `Candidate` of client/src/util/ElectionTypes.ts */
  datatype Candidate = Candidate(id: nat, name: string, presentation: string, symbolic: bool)

  /** `i` is the index of the first symbolic candidate of `ranking`, or its
      length when it has none. */
  predicate IsFirstSymbolic(ranking: seq<Candidate>, i: nat)
  {
    i <= |ranking|
    && (forall j :: 0 <= j < i ==> !ranking[j].symbolic)
    && (i < |ranking| ==> ranking[i].symbolic)
  }

  /** Only one index is the first symbolic one. */
  lemma FirstSymbolicUnique(ranking: seq<Candidate>, i: nat, j: nat)
    requires IsFirstSymbolic(ranking, i) && IsFirstSymbolic(ranking, j)
    ensures i == j
  {
  }

  /** The `firstSymbolic` memo: a loop that returns at the first symbolic
      candidate. */
  method FirstSymbolic(ranking: seq<Candidate>) returns (i: nat)
    ensures IsFirstSymbolic(ranking, i)
  {
    i := 0;
    while i < |ranking|
      invariant 0 <= i <= |ranking|
      invariant forall j :: 0 <= j < i ==> !ranking[j].symbolic
    {
      if ranking[i].symbolic {
        return;
      }
      i := i + 1;
    }
  }

  /** An index argument of `Array.prototype.slice`, resolved against the
      length: negative indices count from the end, and both ends are
      clamped to the array. */
  function SliceIndex(i: int, len: nat): (r: nat)
    ensures r <= len
    ensures 0 <= i ==> r == Min(i, len)
  {
    if i < 0 then (if len + i < 0 then 0 else len + i) else Min(i, len)
  }

  /** `s.slice(start, end)` */
  function Slice<T>(s: seq<T>, start: int, end: int): (r: seq<T>)
    ensures 0 <= start <= end <= |s| ==> r == s[start..end]
    ensures 0 <= end <= start ==> r == []
  {
    var a := SliceIndex(start, |s|);
    var b := SliceIndex(end, |s|);
    if a < b then s[a..b] else []
  }

  /** The rows of a band that starts at `offset` in the ranking: each
      candidate with the rank `i + 1 + offset` printed beside it. */
  function Numbered(band: seq<Candidate>, offset: int): (rows: seq<(int, Candidate)>)
    ensures |rows| == |band|
    ensures forall i :: 0 <= i < |band| ==> rows[i] == (i + 1 + offset, band[i])
  {
    seq(|band|, i requires 0 <= i < |band| => (i + 1 + offset, band[i]))
  }

  /** The elected band, `ranking.slice(0, Math.min(mandates, firstSymbolic))`,
      shown when `firstSymbolic > 0`. */
  function Elected(ranking: seq<Candidate>, firstSymbolic: nat, mandates: int): seq<(int, Candidate)>
  {
    if firstSymbolic > 0 then Numbered(Slice(ranking, 0, Min(mandates, firstSymbolic)), 0) else []
  }

  /** Whether the substitutes' table is shown. */
  predicate ShowsSecondary(firstSymbolic: nat, mandates: int, extraMandates: int)
  {
    extraMandates > 0 && firstSymbolic > mandates
  }

  /** The substitutes' band,
      `ranking.slice(mandates, Math.min(mandates + extraMandates, firstSymbolic))`. */
  function Secondary(ranking: seq<Candidate>, firstSymbolic: nat, mandates: int, extraMandates: int)
    : seq<(int, Candidate)>
  {
    if ShowsSecondary(firstSymbolic, mandates, extraMandates)
    then Numbered(Slice(ranking, mandates, Min(mandates + extraMandates, firstSymbolic)), mandates)
    else []
  }

  /** Whether the table of candidates that were not elected is shown. */
  predicate ShowsNotElected(ranking: seq<Candidate>, firstSymbolic: nat, mandates: int, extraMandates: int)
  {
    |ranking| > mandates + extraMandates || firstSymbolic < |ranking|
  }

  /** Where the band of candidates that were not elected starts. */
  function NotElectedStart(firstSymbolic: nat, mandates: int, extraMandates: int): int
  {
    Min(mandates + extraMandates, firstSymbolic)
  }

  /** The band that was not elected, `ranking.slice(Math.min(mandates +
      extraMandates, firstSymbolic))`. */
  function NotElected(ranking: seq<Candidate>, firstSymbolic: nat, mandates: int, extraMandates: int)
    : seq<(int, Candidate)>
  {
    if ShowsNotElected(ranking, firstSymbolic, mandates, extraMandates)
    then
      var start := NotElectedStart(firstSymbolic, mandates, extraMandates);
      Numbered(Slice(ranking, start, |ranking|), start)
    else []
  }

  /** No symbolic candidate is elected. */
  lemma ElectedAreNotSymbolic(ranking: seq<Candidate>, firstSymbolic: nat, mandates: int)
    requires IsFirstSymbolic(ranking, firstSymbolic) && mandates >= 0
    ensures forall i :: 0 <= i < |Elected(ranking, firstSymbolic, mandates)| ==>
      !Elected(ranking, firstSymbolic, mandates)[i].1.symbolic
    ensures |Elected(ranking, firstSymbolic, mandates)| == Min(mandates, firstSymbolic)
  {
  }

  /** No symbolic candidate is a substitute. */
  lemma SecondaryAreNotSymbolic(ranking: seq<Candidate>, firstSymbolic: nat, mandates: int, extraMandates: int)
    requires IsFirstSymbolic(ranking, firstSymbolic) && mandates >= 0
    ensures forall i :: 0 <= i < |Secondary(ranking, firstSymbolic, mandates, extraMandates)| ==>
      !Secondary(ranking, firstSymbolic, mandates, extraMandates)[i].1.symbolic
    ensures ShowsSecondary(firstSymbolic, mandates, extraMandates) ==>
      |Secondary(ranking, firstSymbolic, mandates, extraMandates)| > 0
  {
  }

  /** The table of candidates that were not elected is shown exactly when
      its band has a candidate. */
  lemma NotElectedShownIffNonEmpty(ranking: seq<Candidate>, firstSymbolic: nat, mandates: int, extraMandates: int)
    requires IsFirstSymbolic(ranking, firstSymbolic) && mandates >= 0 && extraMandates >= 0
    ensures ShowsNotElected(ranking, firstSymbolic, mandates, extraMandates) <==>
      |Slice(ranking, NotElectedStart(firstSymbolic, mandates, extraMandates), |ranking|)| > 0
  {
  }

  /** The three tables together list the whole ranking, in order, once
      each, and every printed rank is the candidate's place in the ranking
      plus one. */
  lemma {:induction false} BandsPartitionRanking(ranking: seq<Candidate>, firstSymbolic: nat,
                                                 mandates: int, extraMandates: int)
    requires IsFirstSymbolic(ranking, firstSymbolic) && mandates >= 0 && extraMandates >= 0
    ensures Elected(ranking, firstSymbolic, mandates)
      + Secondary(ranking, firstSymbolic, mandates, extraMandates)
      + NotElected(ranking, firstSymbolic, mandates, extraMandates)
      == Numbered(ranking, 0)
  {
    var e := Elected(ranking, firstSymbolic, mandates);
    var s := Secondary(ranking, firstSymbolic, mandates, extraMandates);
    var n := NotElected(ranking, firstSymbolic, mandates, extraMandates);
    var start := NotElectedStart(firstSymbolic, mandates, extraMandates);
    if firstSymbolic <= mandates {
      assert e == Numbered(ranking[..firstSymbolic], 0) && s == [] && start == firstSymbolic;
      assert n == Numbered(ranking[start..], start);
      NumberedSplits(ranking, firstSymbolic, firstSymbolic);
    } else if extraMandates > 0 {
      assert e == Numbered(ranking[..mandates], 0) && mandates <= start;
      assert s == Numbered(ranking[mandates..start], mandates);
      assert n == Numbered(ranking[start..], start);
      NumberedSplits(ranking, mandates, start);
    } else {
      assert e == Numbered(ranking[..mandates], 0) && s == [] && start == mandates;
      assert n == Numbered(ranking[start..], start);
      NumberedSplits(ranking, mandates, mandates);
    }
  }

  /** Numbering three consecutive pieces, each from its own start, numbers
      the whole ranking. */
  lemma NumberedSplits(ranking: seq<Candidate>, a: nat, b: nat)
    requires a <= b <= |ranking|
    ensures Numbered(ranking[..a], 0) + Numbered(ranking[a..b], a) + Numbered(ranking[b..], b)
      == Numbered(ranking, 0)
  {
    var whole := Numbered(ranking, 0);
    var parts := Numbered(ranking[..a], 0) + Numbered(ranking[a..b], a) + Numbered(ranking[b..], b);
    forall p | 0 <= p < |whole| ensures parts[p] == whole[p] {
      if p < a {
        assert parts[p] == Numbered(ranking[..a], 0)[p];
      } else if p < b {
        assert parts[p] == Numbered(ranking[a..b], a)[p - a];
      } else {
        assert parts[p] == Numbered(ranking[b..], b)[p - b];
      }
    }
  }

  /** `getBoxClass(a, b)` */
  datatype BoxClass = BadBox | GoodBox | NeutralBox

  function GetBoxClass(a: int, b: int): BoxClass
  {
    if a < b then BadBox else if b < a then GoodBox else NeutralBox
  }

  /** The class of the mirror cell: good and bad change places. */
  function Mirrored(c: BoxClass): BoxClass
  {
    match c
    case BadBox => GoodBox
    case GoodBox => BadBox
    case NeutralBox => NeutralBox
  }

  /** A cell is bad when it is below its mirror, good when above and
      neutral when equal, and a cell and its mirror get mirrored classes. */
  lemma BoxClassOfMirror(a: int, b: int)
    ensures GetBoxClass(a, b) == BadBox <==> a < b
    ensures GetBoxClass(a, b) == GoodBox <==> b < a
    ensures GetBoxClass(a, b) == NeutralBox <==> a == b
    ensures GetBoxClass(b, a) == Mirrored(GetBoxClass(a, b))
  {
  }

  /** What a matrix cell prints: "-" (here None) on the diagonal, the
      entry elsewhere. */
  function CellText(matrix: seq<seq<int>>, r: nat, c: nat): Option<int>
    requires r < |matrix| && c < |matrix[r]|
  {
    if r == c then None else Some(matrix[r][c])
  }

  /** A diagonal cell prints "-" and is neutral; any other cell prints its
      entry and is coloured against its mirror cell, which gets the
      mirrored class. */
  lemma CellsAgainstMirror(matrix: seq<seq<int>>, r: nat, c: nat)
    requires r < |matrix| && c < |matrix| && c < |matrix[r]| && r < |matrix[c]|
    ensures r == c ==>
      (CellText(matrix, r, c) == None && GetBoxClass(matrix[r][c], matrix[c][r]) == NeutralBox)
    ensures r != c ==>
      (CellText(matrix, r, c) == Some(matrix[r][c])
       && GetBoxClass(matrix[c][r], matrix[r][c]) == Mirrored(GetBoxClass(matrix[r][c], matrix[c][r])))
  {
  }
}
