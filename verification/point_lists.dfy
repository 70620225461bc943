/** parse_points: reading a list of "x,y" pairs separated by single spaces. */
module PointLists {
  import opened Geometry
  import opened Results
  import opened Failures
  import opened TextStreams

  /** The piece with its first comma replaced by a space, as
      `val.at(val.find(',')) = ' '` does when a comma is present. */
  function CommaToSpace(piece: string): string {
    if ',' in piece then
      var i := IndexOf(piece, ',');
      piece[..i] + " " + piece[i + 1..]
    else piece
  }

  /** The rewrite keeps the length and changes exactly the first comma,
      which becomes a space; a piece without a comma is unchanged. */
  lemma CommaToSpaceEdits(piece: string)
    ensures |CommaToSpace(piece)| == |piece|
    ensures ',' !in piece ==> CommaToSpace(piece) == piece
    ensures ',' in piece ==>
      var i := IndexOf(piece, ',');
      CommaToSpace(piece)[i] == ' ' &&
      forall j :: 0 <= j < |piece| && j != i ==> CommaToSpace(piece)[j] == piece[j]
  {
  }

  /** `ss2 >> x >> y` into two uninitialised ints; `None` when either is
      left indeterminate. */
  function ReadPair(text: string): (r: Option<Point>)
    ensures SkipSpace(text) == [] ==> r.None?
    ensures !ReadInt(Open(text), None).stream.good ==> r.None?
  {
    var x := ReadInt(Open(text), None);
    var y := ReadInt(x.stream, None);
    if x.value.Some? && y.value.Some? then Some(Point(x.value.value, y.value.value)) else None
  }

  /** The source reads both coordinates of a piece that has a comma into
      uninitialised ints, so it demands that both are extracted. Pieces
      after the first one without a comma are never read. */
  predicate PiecesDefined(pieces: seq<string>)
    decreases |pieces|
  {
    pieces == [] ||
    ',' !in pieces[0] ||
    (ReadPair(CommaToSpace(pieces[0])).Some? && PiecesDefined(pieces[1..]))
  }

  lemma HeadDefined(pieces: seq<string>)
    requires PiecesDefined(pieces) && pieces != [] && ',' in pieces[0]
    ensures ReadPair(CommaToSpace(pieces[0])).Some? && PiecesDefined(pieces[1..])
  {
  }

  /** The loop of parse_points over the pieces getline yields: each piece
      gives one point; a piece without a comma throws. */
  function ParsePieces(pieces: seq<string>): (r: Result<seq<Point>, Failure>)
    requires PiecesDefined(pieces)
    ensures r.Ok? <==> forall k :: 0 <= k < |pieces| ==> ',' in pieces[k]
    ensures r.Ok? ==> |r.value| == |pieces|
    decreases |pieces|
  {
    if pieces == [] then Ok([])
    else if ',' !in pieces[0] then Err(MissingComma(pieces[0]))
    else
      HeadDefined(pieces);
      var tail := pieces[1..];
      assert forall k :: 1 <= k < |pieces| ==> tail[k - 1] == pieces[k];
      match ParsePieces(tail)
      case Err(e) => Err(e)
      case Ok(rest) => Ok([ReadPair(CommaToSpace(pieces[0])).value] + rest)
  }

  /** What reading every piece gives, in order. */
  function ReadPieces(pieces: seq<string>): (r: seq<Option<Point>>)
    ensures |r| == |pieces|
    ensures forall k :: 0 <= k < |pieces| ==> r[k] == ReadPair(CommaToSpace(pieces[k]))
  {
    if pieces == [] then [] else [ReadPair(CommaToSpace(pieces[0]))] + ReadPieces(pieces[1..])
  }

  /** Every point, as a successful read. */
  function Somes(ps: seq<Point>): (r: seq<Option<Point>>)
    ensures |r| == |ps|
    ensures forall k :: 0 <= k < |ps| ==> r[k] == Some(ps[k])
  {
    if ps == [] then [] else [Some(ps[0])] + Somes(ps[1..])
  }

  /** A successful loop reads point k from piece k, its comma made a space. */
  lemma {:induction false} ParsePiecesReads(pieces: seq<string>)
    requires PiecesDefined(pieces) && ParsePieces(pieces).Ok?
    ensures Somes(ParsePieces(pieces).value) == ReadPieces(pieces)
    decreases |pieces|
  {
    if pieces != [] {
      HeadDefined(pieces);
      var tail := pieces[1..];
      ParsePiecesReads(tail);
      var first := ReadPair(CommaToSpace(pieces[0]));
      var r := [first.value] + ParsePieces(tail).value;
      assert ParsePieces(pieces).value == r;
      assert r[1..] == ParsePieces(tail).value;
      assert Somes(r) == [Some(first.value)] + Somes(ParsePieces(tail).value);
    }
  }

  /** A failed loop names a piece without a comma. */
  lemma {:induction false} ParsePiecesFailure(pieces: seq<string>)
    requires PiecesDefined(pieces) && ParsePieces(pieces).Err?
    ensures exists k :: 0 <= k < |pieces| && ',' !in pieces[k] && ParsePieces(pieces).error == MissingComma(pieces[k])
    decreases |pieces|
  {
    if ',' in pieces[0] {
      HeadDefined(pieces);
      var tail := pieces[1..];
      ParsePiecesFailure(tail);
      var k :| 0 <= k < |tail| && ',' !in tail[k] && ParsePieces(tail).error == MissingComma(tail[k]);
      assert pieces[k + 1] == tail[k];
    }
  }

  /** parse_points: the points read from `s`, one per piece and in input
      order, appended to the `points` already there. */
  function ParsePoints(s: string, points: seq<Point>): (r: Result<seq<Point>, Failure>)
    requires PiecesDefined(GetlinePieces(s))
    ensures r.Ok? <==> forall k :: 0 <= k < |GetlinePieces(s)| ==> ',' in GetlinePieces(s)[k]
    ensures r.Ok? ==> |r.value| == |points| + |GetlinePieces(s)| && r.value[..|points|] == points
    ensures r.Ok? ==> forall k :: 0 <= k < |GetlinePieces(s)| ==>
      Some(r.value[|points| + k]) == ReadPair(CommaToSpace(GetlinePieces(s)[k]))
  {
    var pieces := GetlinePieces(s);
    match ParsePieces(pieces)
    case Err(e) => Err(e)
    case Ok(read) =>
      ParsePiecesReads(pieces);
      assert forall k :: 0 <= k < |pieces| ==> Somes(read)[k] == ReadPieces(pieces)[k];
      Ok(points + read)
  }

  // ---------------------------------------------------------------------
  // Formatting points as "x,y x,y ...", the inverse of parse_points.
  // ---------------------------------------------------------------------

  function FormatPair(p: Point): string {
    FormatInt(p.x) + "," + FormatInt(p.y)
  }

  /** The points as "x,y" pairs joined by single spaces. */
  function FormatPoints(ps: seq<Point>): string {
    if ps == [] then ""
    else if |ps| == 1 then FormatPair(ps[0])
    else FormatPair(ps[0]) + " " + FormatPoints(ps[1..])
  }

  lemma FormatIntPlain(n: int)
    ensures ',' !in FormatInt(n) && ' ' !in FormatInt(n)
  {
    var m: nat := if n < 0 then -n else n;
    assert AllDigits(Digits(m));
    if n < 0 {
      assert FormatInt(n) == "-" + Digits(m);
      assert forall i :: 1 <= i < |FormatInt(n)| ==> FormatInt(n)[i] == Digits(m)[i - 1];
    }
  }

  /** One formatted pair is read back as the same point. */
  lemma ReadFormattedPair(p: Point)
    ensures ',' in FormatPair(p) && ' ' !in FormatPair(p)
    ensures ReadPair(CommaToSpace(FormatPair(p))) == Some(p)
  {
    var x := FormatInt(p.x);
    var y := FormatInt(p.y);
    FormatIntPlain(p.x);
    FormatIntPlain(p.y);
    assert FormatPair(p) == x + [','] + y;
    IndexAfter(x, ',', y);
    var text := CommaToSpace(FormatPair(p));
    assert text == x + " " + y by {
      assert FormatPair(p)[..|x|] == x;
      assert FormatPair(p)[|x| + 1..] == y;
    }
    assert text == [] + x + (" " + y);
    ReadFormattedInt([], p.x, " " + y, None);
    assert " " + y == " " + y + [];
    ReadFormattedInt(" ", p.y, [], None);
  }

  /** A formatted pair holds its comma and no space. */
  lemma FormatPairPlain(p: Point)
    ensures ',' in FormatPair(p) && ' ' !in FormatPair(p)
  {
    var x, y := FormatInt(p.x), FormatInt(p.y);
    FormatIntPlain(p.x);
    FormatIntPlain(p.y);
    assert FormatPair(p) == x + [','] + y;
    assert FormatPair(p)[|x|] == ',';
  }

  /** The formatted pair of every point, in order. */
  function FormatPairs(ps: seq<Point>): (r: seq<string>)
    ensures |r| == |ps|
    ensures forall k :: 0 <= k < |ps| ==> r[k] == FormatPair(ps[k])
  {
    if ps == [] then [] else [FormatPair(ps[0])] + FormatPairs(ps[1..])
  }

  /** getline splits formatted points into their formatted pairs. */
  lemma {:induction false} PiecesOfFormat(ps: seq<Point>)
    ensures GetlinePieces(FormatPoints(ps)) == FormatPairs(ps)
    decreases |ps|
  {
    if |ps| == 1 {
      FormatPairPlain(ps[0]);
      assert ps[1..] == [];
    } else if |ps| > 1 {
      FormatPairPlain(ps[0]);
      GetlinePiecesCons(FormatPair(ps[0]), FormatPoints(ps[1..]));
      PiecesOfFormat(ps[1..]);
    }
  }

  lemma {:induction false} FormattedPiecesDefined(ps: seq<Point>)
    ensures PiecesDefined(FormatPairs(ps))
    ensures forall k :: 0 <= k < |ps| ==> ',' in FormatPairs(ps)[k]
    decreases |ps|
  {
    if ps != [] {
      ReadFormattedPair(ps[0]);
      FormattedPiecesDefined(ps[1..]);
      assert FormatPairs(ps)[1..] == FormatPairs(ps[1..]);
      forall k | 0 <= k < |ps|
        ensures ',' in FormatPairs(ps)[k]
      {
        FormatPairPlain(ps[k]);
      }
    }
  }

  /** The k-th formatted pair reads back as the k-th point. */
  lemma ReadBackAt(ps: seq<Point>, k: nat)
    requires k < |ps|
    ensures ReadPair(CommaToSpace(FormatPairs(ps)[k])) == Some(ps[k])
  {
    ReadFormattedPair(ps[k]);
  }

  /** Formatted points parse, and the point read from the k-th pair is the
      k-th point. */
  lemma ParseFormattedPoints(ps: seq<Point>, points: seq<Point>)
    ensures GetlinePieces(FormatPoints(ps)) == FormatPairs(ps)
    ensures PiecesDefined(GetlinePieces(FormatPoints(ps)))
    ensures ParsePoints(FormatPoints(ps), points).Ok?
    ensures forall k :: 0 <= k < |ps| ==> ParsePoints(FormatPoints(ps), points).value[|points| + k] == ps[k]
  {
    PiecesOfFormat(ps);
    FormattedPiecesDefined(ps);
    var text := FormatPoints(ps);
    var pieces := GetlinePieces(text);
    var read := ParsePoints(text, points).value;
    forall k | 0 <= k < |ps|
      ensures read[|points| + k] == ps[k]
    {
      assert Some(read[|points| + k]) == ReadPair(CommaToSpace(pieces[k]));
      ReadBackAt(ps, k);
    }
  }

  /** Parsing formatted points appends exactly those points, in order. */
  lemma ParsePointsRoundTrip(ps: seq<Point>, points: seq<Point>)
    ensures PiecesDefined(GetlinePieces(FormatPoints(ps)))
    ensures ParsePoints(FormatPoints(ps), points) == Ok(points + ps)
  {
    ParseFormattedPoints(ps, points);
    PiecesOfFormat(ps);
    var read := ParsePoints(FormatPoints(ps), points).value;
    assert |read| == |points| + |ps|;
    assert read[..|points|] == points;
    assert read[|points|..] == ps;
    assert read == read[..|points|] + read[|points|..];
  }

  /** A first piece without a comma (a bare number, say) makes the parse
      throw, whatever follows it. */
  lemma MissingCommaFails(piece: string, rest: string, points: seq<Point>)
    requires ' ' !in piece && ',' !in piece
    ensures PiecesDefined(GetlinePieces(piece + " " + rest))
    ensures ParsePoints(piece + " " + rest, points) == Err(MissingComma(piece))
  {
    GetlinePiecesCons(piece, rest);
  }
}
