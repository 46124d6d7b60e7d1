/** Small shared vocabulary: an optional value, the names of the symbolic candidates,
    integer minimum and maximum
    (the server's `util.Min` / `util.Max`), distinctness of a sequence, and a
    view of a two-dimensional matrix as a sequence of rows. */
module Common {

  datatype Option<+T> = None | Some(value: T)

  /** `util.BlankCandidate` and `util.VacantCandidate`, the names of the two
      symbolic candidates every election starts with. */
  const Blank: string := "Blank"
  const Vacant: string := "Vakant"

  function Min(a: int, b: int): (r: int)
    ensures r <= a && r <= b && (r == a || r == b)
  {
    if a <= b then a else b
  }

  function Max(a: int, b: int): (r: int)
    ensures r >= a && r >= b && (r == a || r == b)
  {
    if a >= b then a else b
  }

  /** No value occurs twice in `s`. */
  predicate Distinct<T(==)>(s: seq<T>)
  {
    forall x, y :: 0 <= x < y < |s| ==> s[x] != s[y]
  }

  /** The set of values occurring in `s`. */
  function Elements<T>(s: seq<T>): set<T>
  {
    set x | x in s
  }

  /** A sequence has as many distinct values as entries exactly when no value
      repeats (the pigeonhole principle for sequences). */
  lemma {:induction false} DistinctIffCardinality<T>(s: seq<T>)
    ensures |Elements(s)| <= |s|
    ensures Distinct(s) <==> |Elements(s)| == |s|
  {
    if s == [] {
      assert Elements(s) == {};
    } else {
      var t := s[1..];
      DistinctIffCardinality(t);
      assert Elements(s) == {s[0]} + Elements(t);
      if s[0] in t {
        assert Elements(s) == Elements(t);
        var y :| 0 <= y < |t| && t[y] == s[0];
        assert s[0] == s[y + 1];
        assert !Distinct(s);
      } else {
        assert |Elements(s)| == 1 + |Elements(t)|;
        if Distinct(s) {
          assert Distinct(t) by {
            forall x, y | 0 <= x < y < |t| ensures t[x] != t[y] {
              assert t[x] == s[x + 1] && t[y] == s[y + 1];
            }
          }
        } else {
          var x, y :| 0 <= x < y < |s| && s[x] == s[y];
          assert x > 0;
          assert t[x - 1] == t[y - 1];
          assert !Distinct(t);
        }
      }
    }
  }

  /** The entries of a two-dimensional array, row by row. */
  ghost function Rows(a: array2<int>): (r: seq<seq<int>>)
    reads a
    ensures |r| == a.Length0
    ensures forall i :: 0 <= i < a.Length0 ==> |r[i]| == a.Length1
    ensures forall i, j :: 0 <= i < a.Length0 && 0 <= j < a.Length1 ==> r[i][j] == a[i, j]
  {
    seq(a.Length0, i reads a requires 0 <= i < a.Length0 =>
      seq(a.Length1, j reads a requires 0 <= j < a.Length1 && 0 <= i < a.Length0 => a[i, j]))
  }
}
