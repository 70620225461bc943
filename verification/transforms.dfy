/** parse_transform: reading a shape's `transform` and `transform-origin`
    attributes and applying at most one transform to it. */
module Transforms {
  import opened Geometry
  import opened Results
  import opened TextStreams
  import opened Documents
  import opened Elements

  /** The characters the source rewrites to spaces before tokenising. */
  predicate IsSeparator(c: char) {
    c == '(' || c == ')' || c == ','
  }

  /** The transform text with every '(', ')' and ',' replaced by a space. */
  function Separate(s: string): (r: string)
    ensures |r| == |s|
    ensures forall i :: 0 <= i < |s| ==> r[i] == (if IsSeparator(s[i]) then ' ' else s[i])
  {
    if s == [] then [] else [if IsSeparator(s[0]) then ' ' else s[0]] + Separate(s[1..])
  }

  /** What the source extracts from the rewritten transform text: the kind
      word, then up to two integers (a target left `None` is uninitialised). */
  datatype Scan = Scan(kind: string, first: Option<int>, second: Option<int>)

  function ScanTransform(text: string): (r: Scan)
    ensures NoSpace(r.kind)
    ensures r.kind == [] ==> r.first.None? && r.second.None?
    ensures r.first.None? ==> r.second.None?
  {
    var kind := ReadWord(Open(Separate(text)), "");
    var a := ReadInt(kind.stream, None);
    var b := ReadInt(a.stream, None);
    Scan(kind.value, a.value, b.value)
  }

  /** The origin: (0,0) unless `transform-origin` is present, in which case
      two integers are read from it over that initial value. */
  function ParseOrigin(e: Element): (r: Point)
    ensures "transform-origin" !in e.attrs ==> r == Point(0, 0)
  {
    match Attribute(e, "transform-origin")
    case None => Point(0, 0)
    case Some(text) =>
      var x := ReadInt(Open(text), Some(0));
      var y := ReadInt(x.stream, Some(0));
      Point(x.value.value, y.value.value)
  }

  /** The source reads its transform arguments into uninitialised ints, so
      it demands that every argument the chosen kind uses is extracted. */
  predicate TransformDefined(e: Element) {
    match Attribute(e, "transform")
    case None => true
    case Some(text) =>
      var scan := ScanTransform(text);
      (scan.kind == "translate" ==> scan.first.Some? && scan.second.Some?) &&
      (scan.kind == "scale" || scan.kind == "rotate" ==> scan.first.Some?)
  }

  /** A transform directive: what one `transform` attribute asks for. */
  datatype Directive =
    | NoTransform
    | TranslateBy(offset: Point)
    | ScaleBy(origin: Point, factor: int)
    | RotateBy(origin: Point, degrees: int)
    | Unrecognised(kind: string)

  predicate IsKnownKind(kind: string) {
    kind == "translate" || kind == "scale" || kind == "rotate"
  }

  /** The directive an element's attributes describe. */
  function ParseDirective(e: Element): (d: Directive)
    requires TransformDefined(e)
    ensures d.NoTransform? <==> "transform" !in e.attrs
    ensures d.Unrecognised? <==> "transform" in e.attrs && !IsKnownKind(ScanTransform(e.attrs["transform"]).kind)
    ensures d.Unrecognised? ==> d.kind == ScanTransform(e.attrs["transform"]).kind
    ensures "transform" in e.attrs ==>
      var scan := ScanTransform(e.attrs["transform"]);
      (scan.kind == "translate" ==> d == TranslateBy(Point(scan.first.value, scan.second.value))) &&
      (scan.kind == "scale" ==> d == ScaleBy(ParseOrigin(e), scan.first.value)) &&
      (scan.kind == "rotate" ==> d == RotateBy(ParseOrigin(e), scan.first.value))
    ensures (d.ScaleBy? || d.RotateBy?) && "transform-origin" !in e.attrs ==> d.origin == Point(0, 0)
  {
    match Attribute(e, "transform")
    case None => NoTransform
    case Some(text) =>
      var scan := ScanTransform(text);
      if scan.kind == "translate" then TranslateBy(Point(scan.first.value, scan.second.value))
      else if scan.kind == "scale" then ScaleBy(ParseOrigin(e), scan.first.value)
      else if scan.kind == "rotate" then RotateBy(ParseOrigin(e), scan.first.value)
      else Unrecognised(scan.kind)
  }

  /** A shape after parse_transform, with what it wrote to standard output. */
  datatype Transformed = Transformed(shape: Shape, log: seq<Warning>)

  /** Carries out a directive on a shape through the shape's own transforms. */
  function Apply(s: Shape, d: Directive, rot: Rotation): (r: Transformed)
    ensures SameVariant(r.shape, s) && Colours(r.shape) == Colours(s)
    ensures d.NoTransform? || d.Unrecognised? ==> r.shape == s
    ensures d.TranslateBy? ==> r.shape == Translate(s, d.offset)
    ensures d.ScaleBy? ==> r.shape == Scale(s, d.origin, d.factor)
    ensures d.RotateBy? ==> r.shape == Rotate(s, d.origin, d.degrees, rot)
    ensures d.Unrecognised? ==> r.log == [UnrecognisedTransform(d.kind)]
    ensures !d.Unrecognised? ==> r.log == []
    ensures forall k :: 0 <= k < |r.log| ==> r.log[k].UnrecognisedTransform?
  {
    match d
    case NoTransform => Transformed(s, [])
    case TranslateBy(offset) => Transformed(Translate(s, offset), [])
    case ScaleBy(origin, factor) => Transformed(Scale(s, origin, factor), [])
    case RotateBy(origin, degrees) => Transformed(Rotate(s, origin, degrees, rot), [])
    case Unrecognised(kind) => Transformed(s, [UnrecognisedTransform(kind)])
  }

  /** parse_transform: at most one transform, chosen by the element's
      attributes; a missing or unrecognised transform leaves the shape as it
      was, the latter with one warning. */
  function ParseTransform(s: Shape, e: Element, rot: Rotation): (r: Transformed)
    requires TransformDefined(e)
    ensures SameVariant(r.shape, s) && Colours(r.shape) == Colours(s)
    ensures "transform" !in e.attrs ==> r == Transformed(s, [])
    ensures |r.log| <= 1 && (r.log != [] ==> r.shape == s)
    ensures forall k :: 0 <= k < |r.log| ==> r.log[k].UnrecognisedTransform?
    ensures r.log != [] <==> "transform" in e.attrs && !IsKnownKind(ScanTransform(e.attrs["transform"]).kind)
    ensures "transform" in e.attrs ==>
      var scan := ScanTransform(e.attrs["transform"]);
      (scan.kind == "translate" ==> r == Transformed(Translate(s, Point(scan.first.value, scan.second.value)), [])) &&
      (scan.kind == "scale" ==> r == Transformed(Scale(s, ParseOrigin(e), scan.first.value), [])) &&
      (scan.kind == "rotate" ==> r == Transformed(Rotate(s, ParseOrigin(e), scan.first.value, rot), []))
  {
    Apply(s, ParseDirective(e), rot)
  }

  // ---------------------------------------------------------------------
  // Properties of the transform syntax.
  // ---------------------------------------------------------------------

  /** Separate distributes over concatenation. */
  lemma SeparateAppend(a: string, b: string)
    ensures Separate(a + b) == Separate(a) + Separate(b)
  {
    var l := Separate(a + b);
    var r := Separate(a) + Separate(b);
    forall i | 0 <= i < |a + b|
      ensures l[i] == r[i]
    {
      if i < |a| {
        assert (a + b)[i] == a[i];
      } else {
        assert (a + b)[i] == b[i - |a|];
      }
    }
  }

  /** Text with no separator is left as it is. */
  lemma SeparateKeeps(s: string)
    requires Plain(s)
    ensures Separate(s) == s
  {
  }

  lemma FormatIntHasNoSeparator(n: int)
    ensures Plain(FormatInt(n))
  {
    var m: nat := if n < 0 then -n else n;
    assert AllDigits(Digits(m));
  }

  predicate Plain(s: string) {
    forall i :: 0 <= i < |s| ==> !IsSeparator(s[i])
  }

  /** The rewritten text of the call notation "w(x,y)". */
  lemma SeparatedCall(w: string, x: string, y: string)
    requires Plain(w) && Plain(x) && Plain(y)
    ensures Separate(w + "(" + x + "," + y + ")") == w + " " + x + " " + y + " "
  {
    var l := w + "(" + x + "," + y + ")";
    var r := w + " " + x + " " + y + " ";
    assert |l| == |r|;
    forall i | 0 <= i < |l|
      ensures Separate(l)[i] == r[i]
    {
      if i < |w| {
        assert l[i] == w[i] && r[i] == w[i];
      } else if i == |w| {
      } else if i < |w| + 1 + |x| {
        assert l[i] == x[i - |w| - 1] && r[i] == x[i - |w| - 1];
      } else if i == |w| + 1 + |x| {
      } else if i < |w| + 2 + |x| + |y| {
        assert l[i] == y[i - |w| - 2 - |x|] && r[i] == y[i - |w| - 2 - |x|];
      } else {
      }
    }
  }

  /** Scanning text that reads "w x y" once rewritten (optionally followed
      by a space) yields the word w and the integers x and y. */
  lemma ScanWords(text: string, w: string, a: int, b: int, tail: string)
    requires w != [] && NoSpace(w)
    requires tail == [] || tail == " "
    requires Separate(text) == w + " " + FormatInt(a) + " " + FormatInt(b) + tail
    ensures ScanTransform(text) == Scan(w, Some(a), Some(b))
  {
    var x := FormatInt(a);
    var y := FormatInt(b);
    var afterX := " " + y + tail;
    var afterWord := " " + x + afterX;
    Reassociate(w, x, y, tail);
    assert Separate(text) == [] + w + afterWord;
    ReadWordOf([], w, afterWord, "");
    ReadFormattedInt(" ", a, afterX, None);
    ReadFormattedInt(" ", b, tail, None);
    ScanSteps(text, w, afterWord, a, afterX, b, tail);
  }

  lemma Reassociate(w: string, x: string, y: string, tail: string)
    ensures w + " " + x + " " + y + tail == [] + w + (" " + x + (" " + y + tail))
  {
  }

  /** A scan is its three extractions in sequence. */
  lemma ScanSteps(text: string, w: string, afterWord: string, a: int, afterX: string, b: int, tail: string)
    requires ReadWord(Open(Separate(text)), "") == Extracted(Open(afterWord), w)
    requires ReadInt(Open(afterWord), None) == Extracted(Open(afterX), Some(a))
    requires ReadInt(Open(afterX), None) == Extracted(Open(tail), Some(b))
    ensures ScanTransform(text) == Scan(w, Some(a), Some(b))
  {
  }

  /** The scan of the call notation "w(x,y)". */
  lemma ScanCallNotation(w: string, a: int, b: int)
    requires w != [] && NoSpace(w) && Plain(w)
    ensures ScanTransform(w + "(" + FormatInt(a) + "," + FormatInt(b) + ")") == Scan(w, Some(a), Some(b))
  {
    FormatIntHasNoSeparator(a);
    FormatIntHasNoSeparator(b);
    SeparatedCall(w, FormatInt(a), FormatInt(b));
    ScanWords(w + "(" + FormatInt(a) + "," + FormatInt(b) + ")", w, a, b, " ");
  }

  /** The scan of the spaced notation "w x y". */
  lemma ScanSpacedNotation(w: string, a: int, b: int)
    requires w != [] && NoSpace(w) && Plain(w)
    ensures ScanTransform(w + " " + FormatInt(a) + " " + FormatInt(b)) == Scan(w, Some(a), Some(b))
  {
    FormatIntHasNoSeparator(a);
    FormatIntHasNoSeparator(b);
    var spaced := w + " " + FormatInt(a) + " " + FormatInt(b);
    assert Plain(spaced);
    SeparateKeeps(spaced);
    assert spaced + [] == spaced;
    ScanWords(spaced, w, a, b, []);
  }

  /** Because '(', ')' and ',' become spaces, "translate(a,b)" and
      "translate a b" ask for the same translation by (a, b), whatever the
      rest of the element says. */
  lemma TranslateNotations(s: Shape, e: Element, a: int, b: int, rot: Rotation)
    ensures
      var call := e.(attrs := e.attrs["transform" := "translate" + "(" + FormatInt(a) + "," + FormatInt(b) + ")"]);
      var spaced := e.(attrs := e.attrs["transform" := "translate" + " " + FormatInt(a) + " " + FormatInt(b)]);
      TransformDefined(call) && TransformDefined(spaced) &&
      ParseTransform(s, call, rot) == ParseTransform(s, spaced, rot) == Transformed(Translate(s, Point(a, b)), [])
  {
    var w := "translate";
    assert NoSpace(w) && Plain(w);
    var callText := w + "(" + FormatInt(a) + "," + FormatInt(b) + ")";
    var spacedText := w + " " + FormatInt(a) + " " + FormatInt(b);
    ScanCallNotation(w, a, b);
    ScanSpacedNotation(w, a, b);
    var call := e.(attrs := e.attrs["transform" := callText]);
    var spaced := e.(attrs := e.attrs["transform" := spacedText]);
    assert Attribute(call, "transform") == Some(callText);
    assert Attribute(spaced, "transform") == Some(spacedText);
    assert ParseDirective(call) == TranslateBy(Point(a, b));
    assert ParseDirective(spaced) == TranslateBy(Point(a, b));
  }

  /** The rewritten text of the one-argument call notation "w(x)". */
  lemma SeparatedUnaryCall(w: string, x: string)
    requires Plain(w) && Plain(x)
    ensures Separate(w + "(" + x + ")") == w + " " + x + " "
  {
    var l := w + "(" + x + ")";
    var r := w + " " + x + " ";
    assert |l| == |r|;
    forall i | 0 <= i < |l|
      ensures Separate(l)[i] == r[i]
    {
      if i < |w| {
        assert l[i] == w[i] && r[i] == w[i];
      } else if i == |w| {
      } else if i < |w| + 1 + |x| {
        assert l[i] == x[i - |w| - 1] && r[i] == x[i - |w| - 1];
      } else {
      }
    }
  }

  /** A scan whose word and first integer are extracted and whose second
      extraction finds only white space. */
  lemma ScanUnarySteps(text: string, w: string, afterWord: string, a: int)
    requires ReadWord(Open(Separate(text)), "") == Extracted(Open(afterWord), w)
    requires ReadInt(Open(afterWord), None) == Extracted(Open(" "), Some(a))
    ensures ScanTransform(text) == Scan(w, Some(a), None)
  {
    assert SkipSpace(" ") == SkipSpace(" "[1..]);
  }

  /** The scan of "w(v)": the word w, the integer v, and a second argument
      left untouched because the stream runs out. */
  lemma ScanUnaryCall(w: string, v: int)
    requires w != [] && NoSpace(w) && Plain(w)
    ensures ScanTransform(w + "(" + FormatInt(v) + ")") == Scan(w, Some(v), None)
  {
    var x := FormatInt(v);
    var text := w + "(" + x + ")";
    FormatIntHasNoSeparator(v);
    SeparatedUnaryCall(w, x);
    var afterWord := " " + x + " ";
    assert Separate(text) == [] + w + afterWord;
    ReadWordOf([], w, afterWord, "");
    ReadFormattedInt(" ", v, " ", None);
    ScanUnarySteps(text, w, afterWord, v);
  }

  /** The `transform-origin` attribute written as "ox oy", or removed. */
  function WithOrigin(attrs: map<string, string>, origin: Option<Point>): map<string, string> {
    match origin
    case None => attrs - {"transform-origin"}
    case Some(p) => attrs["transform-origin" := FormatInt(p.x) + " " + FormatInt(p.y)]
  }

  /** The origin parse_transform starts from: (0,0) when none is given. */
  function OriginOrZero(origin: Option<Point>): Point {
    match origin
    case None => Point(0, 0)
    case Some(p) => p
  }

  /** The element with its origin set or removed and its transform set to
      the one-argument call "w(v)". */
  function UnaryMarkup(e: Element, w: string, v: int, origin: Option<Point>): Element {
    e.(attrs := WithOrigin(e.attrs, origin)["transform" := w + "(" + FormatInt(v) + ")"])
  }

  /** The origin of such an element is the one written, or (0,0). */
  lemma UnaryMarkupOrigin(e: Element, w: string, v: int, origin: Option<Point>)
    ensures ParseOrigin(UnaryMarkup(e, w, v, origin)) == OriginOrZero(origin)
  {
    var m := UnaryMarkup(e, w, v, origin);
    assert "transform" != "transform-origin";
    if origin.Some? {
      OriginRoundTrip(m, origin.value.x, origin.value.y);
    }
  }

  /** "scale(v)" scales the shape by v about the `transform-origin` point,
      or about (0,0) when that attribute is absent, and logs nothing. */
  lemma ScaleNotation(s: Shape, e: Element, v: int, origin: Option<Point>, rot: Rotation)
    ensures TransformDefined(UnaryMarkup(e, "scale", v, origin))
    ensures ParseTransform(s, UnaryMarkup(e, "scale", v, origin), rot) == Transformed(Scale(s, OriginOrZero(origin), v), [])
  {
    var w := "scale";
    assert NoSpace(w) && Plain(w);
    ScanUnaryCall(w, v);
    UnaryMarkupOrigin(e, w, v, origin);
    var m := UnaryMarkup(e, w, v, origin);
    assert Attribute(m, "transform") == Some(w + "(" + FormatInt(v) + ")");
    assert ParseDirective(m) == ScaleBy(OriginOrZero(origin), v);
  }

  /** "rotate(d)" rotates the shape by d degrees about the
      `transform-origin` point, or about (0,0) when that attribute is
      absent, and logs nothing. */
  lemma RotateNotation(s: Shape, e: Element, d: int, origin: Option<Point>, rot: Rotation)
    ensures TransformDefined(UnaryMarkup(e, "rotate", d, origin))
    ensures ParseTransform(s, UnaryMarkup(e, "rotate", d, origin), rot) == Transformed(Rotate(s, OriginOrZero(origin), d, rot), [])
  {
    var w := "rotate";
    assert NoSpace(w) && Plain(w);
    ScanUnaryCall(w, d);
    UnaryMarkupOrigin(e, w, d, origin);
    var m := UnaryMarkup(e, w, d, origin);
    assert Attribute(m, "transform") == Some(w + "(" + FormatInt(d) + ")");
    assert ParseDirective(m) == RotateBy(OriginOrZero(origin), d);
  }

  /** translate never reads the origin: elements that differ only in their
      `transform-origin` translate a shape identically. */
  lemma TranslateIgnoresOrigin(s: Shape, e: Element, originText: Option<string>, rot: Rotation)
    requires TransformDefined(e)
    requires "transform" in e.attrs && ScanTransform(e.attrs["transform"]).kind == "translate"
    ensures
      var other := e.(attrs := match originText
        case None => e.attrs - {"transform-origin"}
        case Some(t) => e.attrs["transform-origin" := t]);
      TransformDefined(other) && ParseTransform(s, other, rot) == ParseTransform(s, e, rot)
  {
  }

  /** A `transform-origin` of "ox oy" is read as the point (ox, oy). */
  lemma OriginRoundTrip(e: Element, ox: int, oy: int)
    requires Attribute(e, "transform-origin") == Some(FormatInt(ox) + " " + FormatInt(oy))
    ensures ParseOrigin(e) == Point(ox, oy)
  {
    var x := FormatInt(ox);
    var y := FormatInt(oy);
    assert x + " " + y == [] + x + (" " + y);
    ReadFormattedInt([], ox, " " + y, Some(0));
    assert " " + y == " " + y + [];
    ReadFormattedInt(" ", oy, [], Some(0));
  }
}
