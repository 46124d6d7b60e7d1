/** `useGetParams` (client/src/hooks/useGetParams.ts): the query part of the
    page's address, `href.split('?')[1] + "#"` cut at its first '#'.  The
    address is a parameter; parsing the result into `URLSearchParams` is not
    part of this model. */
module GetParams {
  import opened Common

  /** `s.indexOf(c)`: the first index holding `c`, or -1. */
  function IndexOf(s: string, c: char): (r: int)
    ensures -1 <= r < |s|
    ensures r == -1 <==> c !in s
    ensures 0 <= r ==> s[r] == c && c !in s[..r]
  {
    if s == [] then -1
    else if s[0] == c then 0
    else
      var rest := IndexOf(s[1..], c);
      assert rest >= 0 ==> s[..rest + 1] == [s[0]] + s[1..][..rest];
      if rest == -1 then -1 else rest + 1
  }

  /** `href.split('?')[1]`: the text between the first '?' and the next one
      (or the end); `undefined` (None) when there is no '?'. */
  function SecondPiece(href: string): (r: Option<string>)
  {
    var i := IndexOf(href, '?');
    if i < 0 then None
    else
      var rest := href[i + 1..];
      var j := IndexOf(rest, '?');
      if j < 0 then Some(rest) else Some(rest[..j])
  }

  /** String concatenation turns `undefined` into "undefined". */
  function Stringify(o: Option<string>): string
  {
    if o.Some? then o.value else "undefined"
  }

  /** `paramsFiltered` */
  function QueryOf(href: string): string
  {
    var params := Stringify(SecondPiece(href)) + "#";
    assert params[|params| - 1] == '#';
    params[..IndexOf(params, '#')]
  }

  /** The piece after the first '?' holds no '?', and it is the whole rest
      of the address when there is no second '?'. */
  lemma SecondPieceShape(href: string)
    ensures SecondPiece(href).None? <==> '?' !in href
    ensures SecondPiece(href).Some? ==>
      var i := IndexOf(href, '?');
      && '?' !in SecondPiece(href).value
      && SecondPiece(href).value <= href[i + 1..]
      && ('?' !in href[i + 1..] ==> SecondPiece(href).value == href[i + 1..])
  {
  }

  /** The query is the piece cut at its first '#', or the whole piece when it
      has none; so it holds no '#' and is a prefix of the piece. */
  lemma QueryIsPieceCutAtHash(href: string)
    ensures var piece := Stringify(SecondPiece(href));
      && '#' !in QueryOf(href)
      && QueryOf(href) <= piece
      && ('#' !in piece ==> QueryOf(href) == piece)
      && ('#' in piece ==> QueryOf(href) == piece[..IndexOf(piece, '#')])
  {
    var piece := Stringify(SecondPiece(href));
    var params := piece + "#";
    if '#' in piece {
      var h := IndexOf(piece, '#');
      assert params[..h] == piece[..h];
    } else {
      assert params[..|piece|] == piece;
    }
  }

  /** An address without '?' gives the text "undefined". */
  lemma NoQuestionMarkGivesUndefined(href: string)
    requires '?' !in href
    ensures QueryOf(href) == "undefined"
  {
    QueryIsPieceCutAtHash(href);
    assert '#' !in "undefined";
  }
}
