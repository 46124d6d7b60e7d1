/** `compareList` (client/src/util/funcs.ts): a three-way lexicographic
    comparison of two lists.  The loop also reads the entry at index
    min(|a|, |b|), where at least one list has none; in JavaScript a
    comparison with `undefined` is false, so that step never decides. */
module CompareList {
  import opened Common

  /** `a[i]`: `undefined` (None) past the end. */
  function At(a: seq<int>, i: nat): Option<int>
  {
    if i < |a| then Some(a[i]) else None
  }

  /** `x < y` where either side may be `undefined`. */
  predicate Less(x: Option<int>, y: Option<int>)
  {
    x.Some? && y.Some? && x.value < y.value
  }

  /** Lexicographic order, as a recursive definition: -1, 0 or 1. */
  function Lex(a: seq<int>, b: seq<int>): (r: int)
    ensures -1 <= r <= 1
  {
    if a == [] && b == [] then 0
    else if a == [] then -1
    else if b == [] then 1
    else if a[0] < b[0] then -1
    else if b[0] < a[0] then 1
    else Lex(a[1..], b[1..])
  }

  /** A common prefix can be dropped. */
  lemma {:induction false} LexDropPrefix(a: seq<int>, b: seq<int>, i: nat)
    requires i <= |a| && i <= |b| && a[..i] == b[..i]
    ensures Lex(a, b) == Lex(a[i..], b[i..])
  {
    if i > 0 {
      assert a[0] == a[..i][0] == b[..i][0] == b[0];
      assert a[1..][..i - 1] == a[..i][1..] == b[..i][1..] == b[1..][..i - 1];
      LexDropPrefix(a[1..], b[1..], i - 1);
      assert a[1..][i - 1..] == a[i..] && b[1..][i - 1..] == b[i..];
    }
  }

  /** `compareList(a, b)`: the index loop with its early returns, then the
      length test. */
  method Compare(a: seq<int>, b: seq<int>) returns (r: int)
    ensures r == Lex(a, b)
  {
    var i := 0;
    while i <= |a| && i <= |b|
      invariant i <= |a| + 1 && i <= |b| + 1
      invariant forall j :: 0 <= j < i && j < |a| && j < |b| ==> a[j] == b[j]
    {
      if Less(At(a, i), At(b, i)) {
        assert a[..i] == b[..i];
        LexDropPrefix(a, b, i);
        return -1;
      }
      if Less(At(b, i), At(a, i)) {
        assert a[..i] == b[..i];
        LexDropPrefix(a, b, i);
        return 1;
      }
      i := i + 1;
    }
    var m := Min(|a|, |b|);
    assert a[..m] == b[..m];
    LexDropPrefix(a, b, m);
    if |a| == |b| {
      return 0;
    }
    r := if |a| < |b| then -1 else 1;
  }

  /** Every list compares equal to itself. */
  lemma {:induction false} LexReflexive(a: seq<int>)
    ensures Lex(a, a) == 0
  {
    if a != [] {
      LexReflexive(a[1..]);
    }
  }

  /** Swapping the arguments negates the result. */
  lemma {:induction false} LexAntisymmetric(a: seq<int>, b: seq<int>)
    ensures Lex(a, b) == -Lex(b, a)
  {
    if a != [] && b != [] && a[0] == b[0] {
      LexAntisymmetric(a[1..], b[1..]);
    }
  }

  /** The result is 0 exactly for equal lists. */
  lemma {:induction false} LexZeroIffEqual(a: seq<int>, b: seq<int>)
    ensures Lex(a, b) == 0 <==> a == b
  {
    if a == b {
      LexReflexive(a);
    } else if a != [] && b != [] && a[0] == b[0] {
      assert a == [a[0]] + a[1..] && b == [b[0]] + b[1..];
      LexZeroIffEqual(a[1..], b[1..]);
    }
  }

  /** The first index where the lists differ decides. */
  lemma FirstDifferenceDecides(a: seq<int>, b: seq<int>, k: nat)
    requires k < |a| && k < |b| && a[..k] == b[..k] && a[k] != b[k]
    ensures Lex(a, b) == if a[k] < b[k] then -1 else 1
  {
    LexDropPrefix(a, b, k);
  }

  /** A proper prefix comes first. */
  lemma ProperPrefixIsLess(a: seq<int>, b: seq<int>)
    requires |a| < |b| && a == b[..|a|]
    ensures Lex(a, b) == -1
  {
    assert a[..|a|] == b[..|a|];
    LexDropPrefix(a, b, |a|);
    assert a[|a|..] == [];
  }
}
