/** parse_ellipse, parse_shapes and svg_to_png: from the markup tree to the
    calls made on the image. */
module Conversion {
  import opened Geometry
  import opened Canvas
  import opened Results
  import opened Failures
  import opened Documents
  import opened Elements
  import opened Colors
  import opened Transforms
  import opened TextStreams

  /** A present `fill` must be a colour token the parser reads determinately. */
  predicate FillDefined(e: Element) {
    "fill" in e.attrs ==> ColorTokenDefined(e.attrs["fill"])
  }

  /** parse_ellipse: centre (cx, cy) and radius (rx, ry) from the integer
      attributes, fill from the `fill` colour token. */
  function ParseEllipse(e: Element): (r: Result<Shape, Failure>)
    requires FillDefined(e)
    ensures "fill" !in e.attrs ==> r == Err(MissingAttribute("fill"))
    ensures "fill" in e.attrs ==> (r.Ok? <==> ParseColor(e.attrs["fill"]).Ok?)
    ensures "fill" in e.attrs && r.Err? ==> r.error == ParseColor(e.attrs["fill"]).error
    ensures r.Ok? ==>
      r.value.Ellipse? &&
      r.value.center == Point(IntAttribute(e, "cx"), IntAttribute(e, "cy")) &&
      r.value.radius == Point(IntAttribute(e, "rx"), IntAttribute(e, "ry")) &&
      r.value.fill == ParseColor(e.attrs["fill"]).value
  {
    var cx := IntAttribute(e, "cx");
    var cy := IntAttribute(e, "cy");
    var rx := IntAttribute(e, "rx");
    var ry := IntAttribute(e, "ry");
    match Attribute(e, "fill")
    case None => Err(MissingAttribute("fill"))
    case Some(token) =>
      match ParseColor(token)
      case Err(f) => Err(f)
      case Ok(fill) => Ok(Ellipse(fill, Point(cx, cy), Point(rx, ry)))
  }

  /** What the source demands of a recognised element: a determinate fill,
      and determinate transform arguments once the ellipse is built. */
  predicate ElementDefined(e: Element) {
    FillDefined(e) && (ParseEllipse(e).Ok? ==> TransformDefined(e))
  }

  /** One iteration of the parse_shapes loop for a recognised element:
      parse_ellipse, then parse_transform on the result. */
  function BuildShape(e: Element, rot: Rotation): (r: Result<Transformed, Failure>)
    requires ElementDefined(e)
    ensures r.Ok? ==> r.value.shape.Ellipse?
    ensures r.Ok? <==> ParseEllipse(e).Ok?
    ensures r.Err? ==> r.error == ParseEllipse(e).error
    ensures r.Ok? ==> r.value == ParseTransform(ParseEllipse(e).value, e, rot)
  {
    match ParseEllipse(e)
    case Err(f) => Err(f)
    case Ok(s) => Ok(ParseTransform(s, e, rot))
  }

  /** A recognised element builds exactly when parse_ellipse succeeds; its
      failure is parse_ellipse's; the built shape keeps the parsed fill.
      Without a transform the parsed ellipse is kept as read; a translate,
      scale or rotate transform is applied to it with the integers read and
      logs nothing; any other transform leaves it as it was. */
  lemma BuildShapeOutcome(e: Element, rot: Rotation)
    requires ElementDefined(e)
    ensures BuildShape(e, rot).Ok? <==> ParseEllipse(e).Ok?
    ensures BuildShape(e, rot).Err? ==> BuildShape(e, rot).error == ParseEllipse(e).error
    ensures BuildShape(e, rot).Ok? ==>
      Colours(BuildShape(e, rot).value.shape) == Colours(ParseEllipse(e).value) &&
      (BuildShape(e, rot).value.log != [] ==> BuildShape(e, rot).value.shape == ParseEllipse(e).value)
    ensures BuildShape(e, rot).Ok? && "transform" !in e.attrs ==>
      BuildShape(e, rot).value == Transformed(ParseEllipse(e).value, [])
    ensures BuildShape(e, rot).Ok? && "transform" in e.attrs ==>
      var scan := ScanTransform(e.attrs["transform"]);
      var parsed := ParseEllipse(e).value;
      var built := BuildShape(e, rot).value;
      (scan.kind == "translate" ==> built == Transformed(Translate(parsed, Point(scan.first.value, scan.second.value)), [])) &&
      (scan.kind == "scale" ==> built == Transformed(Scale(parsed, ParseOrigin(e), scan.first.value), [])) &&
      (scan.kind == "rotate" ==> built == Transformed(Rotate(parsed, ParseOrigin(e), scan.first.value, rot), []))
  {
  }

  /** The element names parse_shapes turns into shapes. */
  predicate IsRecognised(e: Element) {
    e.name == "ellipse"
  }

  predicate ChildrenDefined(cs: seq<Element>) {
    forall c :: c in cs && IsRecognised(c) ==> ElementDefined(c)
  }

  /** The recognised children, in document order. */
  function Recognised(cs: seq<Element>): (r: seq<Element>)
    ensures |r| <= |cs|
    ensures forall k :: 0 <= k < |r| ==> r[k] in cs && IsRecognised(r[k])
    ensures forall c :: c in cs && IsRecognised(c) ==> c in r
  {
    if cs == [] then []
    else if IsRecognised(cs[0]) then [cs[0]] + Recognised(cs[1..])
    else Recognised(cs[1..])
  }

  /** The names of the children parse_shapes skips, in document order. */
  function SkippedNames(cs: seq<Element>): seq<string> {
    if cs == [] then []
    else if IsRecognised(cs[0]) then SkippedNames(cs[1..])
    else [cs[0].name] + SkippedNames(cs[1..])
  }

  /** The shape names in "Unrecognized shape type" lines of a log. */
  function ShapeWarnings(log: seq<Warning>): seq<string> {
    if log == [] then []
    else if log[0].UnrecognisedShape? then [log[0].name] + ShapeWarnings(log[1..])
    else ShapeWarnings(log[1..])
  }

  lemma {:induction false} ShapeWarningsAppend(a: seq<Warning>, b: seq<Warning>)
    ensures ShapeWarnings(a + b) == ShapeWarnings(a) + ShapeWarnings(b)
    decreases |a|
  {
    if a == [] {
      assert a + b == b;
    } else {
      assert a + b != [] && (a + b)[0] == a[0] && (a + b)[1..] == a[1..] + b;
      ShapeWarningsAppend(a[1..], b);
      if a[0].UnrecognisedShape? {
        assert ShapeWarnings(a + b) == [a[0].name] + ShapeWarnings(a[1..] + b);
      } else {
        assert ShapeWarnings(a + b) == ShapeWarnings(a[1..] + b);
      }
    }
  }

  lemma {:induction false} NoShapeWarnings(log: seq<Warning>)
    requires forall k :: 0 <= k < |log| ==> log[k].UnrecognisedTransform?
    ensures ShapeWarnings(log) == []
    decreases |log|
  {
    if log != [] {
      NoShapeWarnings(log[1..]);
    }
  }

  /** The shapes parse_shapes keeps, and what it logged. */
  datatype Parsed = Parsed(shapes: seq<Shape>, log: seq<Warning>)

  /** parse_shapes: each recognised child becomes one transformed shape, in
      document order; every other child is skipped with a warning; the
      first failure while building a shape ends the whole parse. */
  function ParseShapes(cs: seq<Element>, rot: Rotation): (r: Result<Parsed, Failure>)
    requires ChildrenDefined(cs)
    ensures r.Ok? ==> forall k :: 0 <= k < |r.value.shapes| ==> r.value.shapes[k].Ellipse?
    decreases |cs|
  {
    if cs == [] then Ok(Parsed([], []))
    else
      var c := cs[0];
      var tail := cs[1..];
      TailDefined(cs);
      if IsRecognised(c) then
        var built := BuildShape(c, rot);
        if built.Err? then Err(built.error)
        else
          var rest := ParseShapes(tail, rot);
          if rest.Err? then Err(rest.error)
          else Ok(Parsed([built.value.shape] + rest.value.shapes, built.value.log + rest.value.log))
      else
        var rest := ParseShapes(tail, rot);
        if rest.Err? then Err(rest.error)
        else Ok(Parsed(rest.value.shapes, [UnrecognisedShape(c.name)] + rest.value.log))
  }

  lemma TailDefined(cs: seq<Element>)
    requires cs != [] && ChildrenDefined(cs)
    ensures ChildrenDefined(cs[1..])
    ensures IsRecognised(cs[0]) ==> ElementDefined(cs[0])
  {
    assert forall x :: x in cs[1..] ==> x in cs;
  }

  lemma RecognisedDefined(cs: seq<Element>)
    requires ChildrenDefined(cs)
    ensures forall j :: 0 <= j < |Recognised(cs)| ==> ElementDefined(Recognised(cs)[j])
  {
  }

  /** What building each element of `kept` gives, in order. */
  function Outcomes(kept: seq<Element>, rot: Rotation): (r: seq<Result<Transformed, Failure>>)
    requires forall j :: 0 <= j < |kept| ==> ElementDefined(kept[j])
    ensures |r| == |kept|
    ensures forall k :: 0 <= k < |kept| ==> r[k] == BuildShape(kept[k], rot)
    decreases |kept|
  {
    if kept == [] then []
    else
      assert forall j :: 1 <= j < |kept| ==> kept[1..][j - 1] == kept[j];
      [BuildShape(kept[0], rot)] + Outcomes(kept[1..], rot)
  }

  /** The outcomes of the recognised children, unfolded at the first child. */
  lemma RecognisedOutcomes(cs: seq<Element>, rot: Rotation)
    requires cs != [] && ChildrenDefined(cs)
    ensures ChildrenDefined(cs[1..])
    ensures IsRecognised(cs[0]) ==> ElementDefined(cs[0])
    ensures IsRecognised(cs[0]) ==>
      Outcomes(Recognised(cs), rot) == [BuildShape(cs[0], rot)] + Outcomes(Recognised(cs[1..]), rot)
    ensures !IsRecognised(cs[0]) ==>
      Outcomes(Recognised(cs), rot) == Outcomes(Recognised(cs[1..]), rot)
  {
    TailDefined(cs);
    RecognisedDefined(cs);
    var tail := cs[1..];
    RecognisedDefined(tail);
    if IsRecognised(cs[0]) {
      var kept := Recognised(cs);
      assert kept == [cs[0]] + Recognised(tail);
      assert kept[0] == cs[0] && kept[1..] == Recognised(tail);
    } else {
      assert Recognised(cs) == Recognised(tail);
    }
  }

  /** Every outcome is a built shape. */
  predicate AllOk(os: seq<Result<Transformed, Failure>>) {
    forall k :: 0 <= k < |os| ==> os[k].Ok?
  }

  /** The k-th outcome is the failure `f`, and every one before it is a
      built shape. */
  predicate FirstFailureAt(os: seq<Result<Transformed, Failure>>, k: nat, f: Failure) {
    k < |os| && os[k] == Err(f) && forall j :: 0 <= j < k ==> os[j].Ok?
  }

  /** The shapes of a list of built outcomes, in order. */
  function ShapesOf(os: seq<Result<Transformed, Failure>>): (r: seq<Shape>)
    requires AllOk(os)
    ensures |r| == |os|
    ensures forall k :: 0 <= k < |os| ==> r[k] == os[k].value.shape
    decreases |os|
  {
    if os == [] then []
    else
      assert forall j :: 1 <= j < |os| ==> os[1..][j - 1] == os[j];
      [os[0].value.shape] + ShapesOf(os[1..])
  }

  lemma AllOkCons(o: Result<Transformed, Failure>, os: seq<Result<Transformed, Failure>>)
    ensures AllOk([o] + os) <==> o.Ok? && AllOk(os)
    ensures AllOk([o] + os) ==> ShapesOf([o] + os) == [o.value.shape] + ShapesOf(os)
  {
    var all := [o] + os;
    assert all[0] == o;
    assert forall k :: 0 <= k < |os| ==> os[k] == all[k + 1];
    if AllOk(all) {
      assert all[1..] == os;
    }
  }

  lemma FailureShifts(o: Result<Transformed, Failure>, os: seq<Result<Transformed, Failure>>, k: nat, f: Failure)
    requires o.Ok? && FirstFailureAt(os, k, f)
    ensures FirstFailureAt([o] + os, k + 1, f)
  {
    var all := [o] + os;
    assert all[k + 1] == os[k];
    forall j | 0 <= j < k + 1
      ensures all[j].Ok?
    {
      if j > 0 {
        assert all[j] == os[j - 1];
      }
    }
  }

  /** The parse succeeds exactly when every recognised child builds. */
  lemma {:induction false} ParseShapesSucceeds(cs: seq<Element>, rot: Rotation)
    requires ChildrenDefined(cs)
    ensures forall j :: 0 <= j < |Recognised(cs)| ==> ElementDefined(Recognised(cs)[j])
    ensures ParseShapes(cs, rot).Ok? <==> AllOk(Outcomes(Recognised(cs), rot))
    decreases |cs|
  {
    RecognisedDefined(cs);
    if cs != [] {
      RecognisedOutcomes(cs, rot);
      var tail := cs[1..];
      ParseShapesSucceeds(tail, rot);
      if IsRecognised(cs[0]) {
        AllOkCons(BuildShape(cs[0], rot), Outcomes(Recognised(tail), rot));
      }
    }
  }

  /** A successful parse keeps one shape per recognised child, in document
      order, each the child's shape after its transform. */
  lemma {:induction false} ParseShapesInOrder(cs: seq<Element>, rot: Rotation)
    requires ChildrenDefined(cs)
    requires ParseShapes(cs, rot).Ok?
    ensures forall j :: 0 <= j < |Recognised(cs)| ==> ElementDefined(Recognised(cs)[j])
    ensures AllOk(Outcomes(Recognised(cs), rot))
    ensures ParseShapes(cs, rot).value.shapes == ShapesOf(Outcomes(Recognised(cs), rot))
    decreases |cs|
  {
    ParseShapesSucceeds(cs, rot);
    if cs != [] {
      RecognisedOutcomes(cs, rot);
      var tail := cs[1..];
      ParseShapesInOrder(tail, rot);
      if IsRecognised(cs[0]) {
        AllOkCons(BuildShape(cs[0], rot), Outcomes(Recognised(tail), rot));
      }
    }
  }

  /** A successful parse logs one "Unrecognized shape type" line per skipped
      child, in document order, and no other shape warning. */
  lemma {:induction false} ParseShapesWarns(cs: seq<Element>, rot: Rotation)
    requires ChildrenDefined(cs)
    requires ParseShapes(cs, rot).Ok?
    ensures ShapeWarnings(ParseShapes(cs, rot).value.log) == SkippedNames(cs)
    decreases |cs|
  {
    if cs != [] {
      TailDefined(cs);
      var tail := cs[1..];
      ParseShapesWarns(tail, rot);
      var rest := ParseShapes(tail, rot).value.log;
      if IsRecognised(cs[0]) {
        var built := BuildShape(cs[0], rot).value.log;
        NoShapeWarnings(built);
        ShapeWarningsAppend(built, rest);
      } else {
        ShapeWarningsAppend([UnrecognisedShape(cs[0].name)], rest);
      }
    }
  }

  /** A failed parse reports the failure of the first recognised child that
      does not build. */
  lemma {:induction false} ParseShapesFirstFailure(cs: seq<Element>, rot: Rotation)
    requires ChildrenDefined(cs)
    requires ParseShapes(cs, rot).Err?
    ensures forall j :: 0 <= j < |Recognised(cs)| ==> ElementDefined(Recognised(cs)[j])
    ensures exists k: nat :: FirstFailureAt(Outcomes(Recognised(cs), rot), k, ParseShapes(cs, rot).error)
    decreases |cs|
  {
    RecognisedDefined(cs);
    RecognisedOutcomes(cs, rot);
    var tail := cs[1..];
    var os := Outcomes(Recognised(cs), rot);
    if IsRecognised(cs[0]) && BuildShape(cs[0], rot).Err? {
      assert FirstFailureAt(os, 0, ParseShapes(cs, rot).error);
    } else {
      ParseShapesFirstFailure(tail, rot);
      var f := ParseShapes(tail, rot).error;
      var k: nat :| FirstFailureAt(Outcomes(Recognised(tail), rot), k, f);
      if IsRecognised(cs[0]) {
        FailureShifts(BuildShape(cs[0], rot), Outcomes(Recognised(tail), rot), k, f);
      }
    }
  }

  /** The lines parse_shapes prints before it returns or an exception
      escapes: each skipped child's warning and each built child's transform
      warning, up to the first recognised child that fails to build. */
  function PrintedLog(cs: seq<Element>, rot: Rotation): (r: seq<Warning>)
    requires ChildrenDefined(cs)
    ensures |r| <= Reached(cs, rot)
    decreases |cs|
  {
    if cs == [] then []
    else
      var c := cs[0];
      var tail := cs[1..];
      TailDefined(cs);
      if IsRecognised(c) then
        var built := BuildShape(c, rot);
        if built.Err? then [] else built.value.log + PrintedLog(tail, rot)
      else [UnrecognisedShape(c.name)] + PrintedLog(tail, rot)
  }

  /** How many children parse_shapes gets through: the position of the
      first recognised child that fails to build, or all of them. */
  function Reached(cs: seq<Element>, rot: Rotation): (n: nat)
    requires ChildrenDefined(cs)
    ensures n <= |cs|
    ensures forall j :: 0 <= j < n ==> !IsRecognised(cs[j]) || BuildShape(cs[j], rot).Ok?
    ensures n < |cs| ==> IsRecognised(cs[n]) && BuildShape(cs[n], rot).Err?
    decreases |cs|
  {
    if cs == [] then 0
    else
      var tail := cs[1..];
      TailDefined(cs);
      assert forall j :: 1 <= j < |cs| ==> cs[j] == tail[j - 1];
      if IsRecognised(cs[0]) && BuildShape(cs[0], rot).Err? then 0 else 1 + Reached(tail, rot)
  }

  /** parse_shapes succeeds exactly when it gets through every child;
      otherwise the child where it stops is recognised and its failure is
      the one that escapes. */
  lemma {:induction false} ParseShapesStops(cs: seq<Element>, rot: Rotation)
    requires ChildrenDefined(cs)
    ensures ParseShapes(cs, rot).Ok? <==> Reached(cs, rot) == |cs|
    ensures Reached(cs, rot) < |cs| ==>
      IsRecognised(cs[Reached(cs, rot)]) && ElementDefined(cs[Reached(cs, rot)]) &&
      BuildShape(cs[Reached(cs, rot)], rot) == Err(ParseShapes(cs, rot).error)
    decreases |cs|
  {
    if cs != [] {
      TailDefined(cs);
      var tail := cs[1..];
      ParseShapesStops(tail, rot);
      var n := Reached(tail, rot);
      if n < |tail| {
        assert cs[n + 1] == tail[n];
      }
    }
  }

  /** Whether parse_shapes returns or throws, it has printed one
      "Unrecognized shape type" line per skipped child it got through, in
      document order, and no other shape warning. */
  lemma {:induction false} PrintedWarns(cs: seq<Element>, rot: Rotation)
    requires ChildrenDefined(cs)
    ensures ShapeWarnings(PrintedLog(cs, rot)) == SkippedNames(cs[..Reached(cs, rot)])
    decreases |cs|
  {
    if cs != [] {
      TailDefined(cs);
      PrintedWarns(cs[1..], rot);
      if IsRecognised(cs[0]) && BuildShape(cs[0], rot).Err? {
        assert cs[..Reached(cs, rot)] == [];
      } else {
        ReachedPastHead(cs, rot);
        PrintedHeadWarns(cs, rot);
      }
    }
  }

  /** When the head child is skipped or builds, parse_shapes gets one child
      further than it does on the rest, and the skipped names it passes are
      the head's (if skipped) followed by those it passes in the rest. */
  lemma ReachedPastHead(cs: seq<Element>, rot: Rotation)
    requires cs != [] && ChildrenDefined(cs)
    requires !IsRecognised(cs[0]) || BuildShape(cs[0], rot).Ok?
    ensures ChildrenDefined(cs[1..])
    ensures Reached(cs, rot) == 1 + Reached(cs[1..], rot)
    ensures SkippedNames(cs[..Reached(cs, rot)]) ==
      (if IsRecognised(cs[0]) then [] else [cs[0].name]) + SkippedNames(cs[1..][..Reached(cs[1..], rot)])
  {
    TailDefined(cs);
    var n := Reached(cs[1..], rot);
    assert Reached(cs, rot) == 1 + n;
    var got := cs[..1 + n];
    assert got != [] && got[0] == cs[0] && got[1..] == cs[1..][..n];
  }

  /** The head child that parse_shapes gets past adds no shape warning when
      it builds, and exactly its own name when it is skipped. */
  lemma PrintedHeadWarns(cs: seq<Element>, rot: Rotation)
    requires cs != [] && ChildrenDefined(cs)
    requires !IsRecognised(cs[0]) || BuildShape(cs[0], rot).Ok?
    ensures ChildrenDefined(cs[1..])
    ensures ShapeWarnings(PrintedLog(cs, rot)) ==
      (if IsRecognised(cs[0]) then [] else [cs[0].name]) + ShapeWarnings(PrintedLog(cs[1..], rot))
  {
    TailDefined(cs);
    var c := cs[0];
    var rest := PrintedLog(cs[1..], rot);
    if IsRecognised(c) {
      var built := BuildShape(c, rot).value.log;
      NoShapeWarnings(built);
      ShapeWarningsAppend(built, rest);
    } else {
      ShapeWarningsAppend([UnrecognisedShape(c.name)], rest);
    }
  }

  /** On success, the printed lines are exactly the parse's log. */
  lemma {:induction false} PrintedLogOnSuccess(cs: seq<Element>, rot: Rotation)
    requires ChildrenDefined(cs) && ParseShapes(cs, rot).Ok?
    ensures PrintedLog(cs, rot) == ParseShapes(cs, rot).value.log
    decreases |cs|
  {
    if cs != [] {
      TailDefined(cs);
      PrintedLogOnSuccess(cs[1..], rot);
    }
  }

  /** The draw loop of svg_to_png: every shape's calls, shape after shape. */
  function DrawAll(shapes: seq<Shape>): (r: seq<Command>)
    ensures shapes != [] ==> Draw(shapes[0]) <= r
    decreases |shapes|
  {
    if shapes == [] then []
    else
      assert forall k :: 1 <= k < |shapes| ==> shapes[1..][k - 1] == shapes[k];
      Draw(shapes[0]) + DrawAll(shapes[1..])
  }

  /** A list of ellipses draws as one ellipse call per shape, in order. */
  lemma {:induction false} DrawAllEllipses(shapes: seq<Shape>)
    requires forall k :: 0 <= k < |shapes| ==> shapes[k].Ellipse?
    ensures |DrawAll(shapes)| == |shapes|
    ensures forall k :: 0 <= k < |shapes| ==>
      DrawAll(shapes)[k] == DrawEllipse(shapes[k].center, shapes[k].radius, shapes[k].fill)
    decreases |shapes|
  {
    if shapes != [] {
      var tail := shapes[1..];
      assert forall k :: 1 <= k < |shapes| ==> tail[k - 1] == shapes[k];
      DrawAllEllipses(tail);
      assert DrawAll(shapes) == Draw(shapes[0]) + DrawAll(tail);
    }
  }

  /** Drawing a list is drawing its parts in order: earlier shapes' calls
      all come before later shapes' calls, and no shape's calls are split. */
  lemma {:induction false} DrawAllAppend(a: seq<Shape>, b: seq<Shape>)
    ensures DrawAll(a + b) == DrawAll(a) + DrawAll(b)
    decreases |a|
  {
    if a == [] {
      assert a + b == b;
    } else {
      assert a + b != [] && (a + b)[0] == a[0] && (a + b)[1..] == a[1..] + b;
      DrawAllAppend(a[1..], b);
      calc {
        DrawAll(a + b);
        Draw(a[0]) + DrawAll(a[1..] + b);
        Draw(a[0]) + (DrawAll(a[1..]) + DrawAll(b));
        (Draw(a[0]) + DrawAll(a[1..])) + DrawAll(b);
      }
    }
  }

  /** The outcome of one conversion. */
  datatype Conversion =
    | NotLoaded                                    // the document failed to load: nothing drawn, nothing saved
    | Aborted(failure: Failure, log: seq<Warning>)  // an exception escaped: nothing saved, the lines printed until then
    | Saved(image: Image, log: seq<Warning>)       // the image saved, with the warnings printed

  /** svg_to_png: parse the shapes, make an image of the root's size, draw
      every shape in list order, save. */
  function SvgToPng(doc: Option<Element>, rot: Rotation): (r: Conversion)
    requires doc.Some? ==> ChildrenDefined(doc.value.children)
    ensures doc.None? <==> r.NotLoaded?
    ensures doc.Some? ==> forall j :: 0 <= j < |Recognised(doc.value.children)| ==>
      ElementDefined(Recognised(doc.value.children)[j])
    ensures doc.Some? ==> (r.Saved? <==> AllOk(Outcomes(Recognised(doc.value.children), rot)))
    ensures r.Aborted? ==>
      exists k: nat :: FirstFailureAt(Outcomes(Recognised(doc.value.children), rot), k, r.failure)
    ensures r.Saved? ==>
      r.image.width == IntAttribute(doc.value, "width") &&
      r.image.height == IntAttribute(doc.value, "height")
    ensures r.Saved? ==> r.image.trace == DrawAll(ShapesOf(Outcomes(Recognised(doc.value.children), rot)))
    ensures r.Saved? ==> ShapeWarnings(r.log) == SkippedNames(doc.value.children)
    ensures r.Aborted? ==>
      Reached(doc.value.children, rot) < |doc.value.children| &&
      ShapeWarnings(r.log) == SkippedNames(doc.value.children[..Reached(doc.value.children, rot)])
  {
    match doc
    case None => NotLoaded
    case Some(root) =>
      ParseShapesSucceeds(root.children, rot);
      match ParseShapes(root.children, rot)
      case Err(f) =>
        ParseShapesFirstFailure(root.children, rot);
        ParseShapesStops(root.children, rot);
        PrintedWarns(root.children, rot);
        Aborted(f, PrintedLog(root.children, rot))
      case Ok(parsed) =>
        ParseShapesInOrder(root.children, rot);
        ParseShapesWarns(root.children, rot);
        var width := IntAttribute(root, "width");
        var height := IntAttribute(root, "height");
        Saved(Image(width, height, DrawAll(parsed.shapes)), parsed.log)
  }

  /** A saved image holds one ellipse call per recognised child, in
      document order, drawing the shape that child builds. */
  lemma SavedTrace(doc: Option<Element>, rot: Rotation)
    requires doc.Some? ==> ChildrenDefined(doc.value.children)
    requires SvgToPng(doc, rot).Saved?
    ensures forall j :: 0 <= j < |Recognised(doc.value.children)| ==>
      ElementDefined(Recognised(doc.value.children)[j])
    ensures forall k :: 0 <= k < |Recognised(doc.value.children)| ==>
      BuildShape(Recognised(doc.value.children)[k], rot).Ok?
    ensures
      var kept := Recognised(doc.value.children);
      var trace := SvgToPng(doc, rot).image.trace;
      |trace| == |kept| &&
      forall k :: 0 <= k < |kept| ==>
        var s := BuildShape(kept[k], rot).value.shape;
        trace[k] == DrawEllipse(s.center, s.radius, s.fill)
  {
    var kept := Recognised(doc.value.children);
    var os := Outcomes(kept, rot);
    var shapes := ShapesOf(os);
    var trace := SvgToPng(doc, rot).image.trace;
    assert trace == DrawAll(shapes);
    forall k | 0 <= k < |shapes|
      ensures shapes[k].Ellipse?
    {
      assert shapes[k] == os[k].value.shape && os[k] == BuildShape(kept[k], rot);
    }
    DrawAllEllipses(shapes);
  }

  /** The markup of an ellipse: the element parse_ellipse reads back as it. */
  function EllipseMarkup(s: Shape): Element
    requires s.Ellipse?
  {
    Element("ellipse",
      map["fill" := FormatHex(s.fill)],
      map["cx" := s.center.x, "cy" := s.center.y, "rx" := s.radius.x, "ry" := s.radius.y],
      [])
  }

  /** parse_ellipse reads back every ellipse from its markup, and with no
      transform attribute the shape is kept as read. */
  lemma EllipseRoundTrip(s: Shape, rot: Rotation)
    requires s.Ellipse?
    ensures ElementDefined(EllipseMarkup(s))
    ensures ParseEllipse(EllipseMarkup(s)) == Ok(s)
    ensures BuildShape(EllipseMarkup(s), rot) == Ok(Transformed(s, []))
  {
    FormatHexRoundTrip(s.fill);
  }

  /** The markup of an ellipse with a `transform` attribute "translate(a,b)". */
  function TranslatedMarkup(s: Shape, a: int, b: int): Element
    requires s.Ellipse?
  {
    var e := EllipseMarkup(s);
    e.(attrs := e.attrs["transform" := "translate" + "(" + FormatInt(a) + "," + FormatInt(b) + ")"])
  }

  /** A translated ellipse element builds as the ellipse moved by (a, b). */
  lemma TranslatedMarkupBuilds(s: Shape, a: int, b: int, rot: Rotation)
    requires s.Ellipse?
    ensures ElementDefined(TranslatedMarkup(s, a, b))
    ensures BuildShape(TranslatedMarkup(s, a, b), rot) == Ok(Transformed(Translate(s, Point(a, b)), []))
  {
    var e := EllipseMarkup(s);
    var m := TranslatedMarkup(s, a, b);
    EllipseRoundTrip(s, rot);
    TranslateNotations(s, e, a, b, rot);
    assert "transform" != "fill";
    assert Attribute(m, "fill") == Attribute(e, "fill");
    assert ParseEllipse(m) == ParseEllipse(e);
  }

  /** The transform of a kept child reaches the image: a document whose
      only child is an ellipse translated by (a, b) saves one draw_ellipse
      call at the moved centre, with the radius and fill as written. */
  lemma TranslatedEllipseDrawn(root: Element, s: Shape, a: int, b: int, rot: Rotation)
    requires s.Ellipse?
    requires root.children == [TranslatedMarkup(s, a, b)]
    ensures ChildrenDefined(root.children)
    ensures SvgToPng(Some(root), rot) == Saved(
      Image(IntAttribute(root, "width"), IntAttribute(root, "height"),
        [DrawEllipse(s.center.Translate(Point(a, b)), s.radius, s.fill)]),
      [])
  {
    var m := TranslatedMarkup(s, a, b);
    var moved := Translate(s, Point(a, b));
    TranslatedMarkupBuilds(s, a, b, rot);
    ParseLoneChild(m, Transformed(moved, []), rot);
    DrawAllEllipses([moved]);
  }

  /** One recognised child that builds, in front of children that parse. */
  lemma ParseBuiltChild(c: Element, rest: seq<Element>, rot: Rotation)
    requires IsRecognised(c) && ElementDefined(c) && BuildShape(c, rot).Ok?
    requires ChildrenDefined(rest) && ParseShapes(rest, rot).Ok?
    ensures ChildrenDefined([c] + rest)
    ensures ParseShapes([c] + rest, rot) == Ok(Parsed(
      [BuildShape(c, rot).value.shape] + ParseShapes(rest, rot).value.shapes,
      BuildShape(c, rot).value.log + ParseShapes(rest, rot).value.log))
  {
    var cs := [c] + rest;
    assert cs[0] == c && cs[1..] == rest;
    assert forall x :: x in cs ==> x == c || x in rest;
  }

  /** One skipped child in front of children that parse. */
  lemma ParseSkippedChild(c: Element, rest: seq<Element>, rot: Rotation)
    requires !IsRecognised(c)
    requires ChildrenDefined(rest) && ParseShapes(rest, rot).Ok?
    ensures ChildrenDefined([c] + rest)
    ensures ParseShapes([c] + rest, rot) == Ok(Parsed(
      ParseShapes(rest, rot).value.shapes,
      [UnrecognisedShape(c.name)] + ParseShapes(rest, rot).value.log))
  {
    var cs := [c] + rest;
    assert cs[0] == c && cs[1..] == rest;
    assert forall x :: x in cs ==> x == c || x in rest;
  }

  lemma ParseLoneChild(e: Element, t: Transformed, rot: Rotation)
    requires IsRecognised(e) && ElementDefined(e) && BuildShape(e, rot) == Ok(t)
    ensures ChildrenDefined([e])
    ensures ParseShapes([e], rot) == Ok(Parsed([t.shape], t.log))
  {
    var empty: seq<Element> := [];
    var noLog: seq<Warning> := [];
    assert ParseShapes(empty, rot) == Ok(Parsed([], noLog));
    ParseBuiltChild(e, empty, rot);
    assert [e] + empty == [e];
    assert [t.shape] + [] == [t.shape] && t.log + noLog == t.log;
  }

  /** Two recognised children that build without warnings, with a skipped
      child between them. */
  lemma ParseAroundSkipped(ea: Element, other: Element, eb: Element, a: Shape, b: Shape, rot: Rotation)
    requires IsRecognised(ea) && ElementDefined(ea) && BuildShape(ea, rot) == Ok(Transformed(a, []))
    requires IsRecognised(eb) && ElementDefined(eb) && BuildShape(eb, rot) == Ok(Transformed(b, []))
    requires !IsRecognised(other)
    ensures ChildrenDefined([ea, other, eb])
    ensures ParseShapes([ea, other, eb], rot) == Ok(Parsed([a, b], [UnrecognisedShape(other.name)]))
  {
    var u := UnrecognisedShape(other.name);
    var noLog: seq<Warning> := [];
    ParseLoneChild(eb, Transformed(b, []), rot);
    ParseSkippedChild(other, [eb], rot);
    assert [other] + [eb] == [other, eb] && [u] + noLog == [u];
    ParseBuiltChild(ea, [other, eb], rot);
    assert [ea] + [other, eb] == [ea, other, eb];
    assert [a] + [b] == [a, b] && noLog + [u] == [u];
  }

  /** An element of any other name between two ellipses is skipped with one
      warning; the two ellipses are drawn in document order. */
  lemma SkipsUnknownElement(root: Element, a: Shape, other: Element, b: Shape, rot: Rotation)
    requires a.Ellipse? && b.Ellipse? && !IsRecognised(other)
    requires root.children == [EllipseMarkup(a), other, EllipseMarkup(b)]
    ensures ChildrenDefined(root.children)
    ensures SvgToPng(Some(root), rot) == Saved(
      Image(IntAttribute(root, "width"), IntAttribute(root, "height"),
        [DrawEllipse(a.center, a.radius, a.fill), DrawEllipse(b.center, b.radius, b.fill)]),
      [UnrecognisedShape(other.name)])
  {
    EllipseRoundTrip(a, rot);
    EllipseRoundTrip(b, rot);
    ParseAroundSkipped(EllipseMarkup(a), other, EllipseMarkup(b), a, b, rot);
    DrawAllEllipses([a, b]);
    assert DrawAll([a, b]) == [DrawEllipse(a.center, a.radius, a.fill), DrawEllipse(b.center, b.radius, b.fill)];
  }

  /** A circle element is not among the names parse_shapes recognises: it
      draws nothing and is reported as an unrecognised shape. */
  lemma CircleElementSkipped(root: Element, circle: Element, rot: Rotation)
    requires circle.name == "circle"
    requires root.children == [circle]
    ensures ChildrenDefined(root.children)
    ensures SvgToPng(Some(root), rot) == Saved(
      Image(IntAttribute(root, "width"), IntAttribute(root, "height"), []),
      [UnrecognisedShape("circle")])
  {
    assert !IsRecognised(circle) by {
      assert circle.name[0] != "ellipse"[0];
    }
    assert root.children[1..] == [];
    assert ParseShapes([], rot) == Ok(Parsed([], []));
    assert [UnrecognisedShape(circle.name)] + [] == [UnrecognisedShape("circle")];
    assert ParseShapes(root.children, rot) == Ok(Parsed([], [UnrecognisedShape("circle")]));
  }

  /** An ellipse without a fill ends the conversion before anything is
      drawn, whatever follows it. */
  lemma MissingFillAborts(root: Element, e: Element, rest: seq<Element>, rot: Rotation)
    requires IsRecognised(e) && "fill" !in e.attrs
    requires root.children == [e] + rest
    requires ChildrenDefined(rest)
    ensures ChildrenDefined(root.children)
    ensures SvgToPng(Some(root), rot) == Aborted(MissingAttribute("fill"), [])
  {
    assert forall c :: c in root.children ==> c == e || c in rest;
  }

  /** A recognised child without a fill fails first and prints nothing. */
  lemma FilllessHead(e: Element, rest: seq<Element>, rot: Rotation)
    requires IsRecognised(e) && "fill" !in e.attrs
    requires ChildrenDefined(rest)
    ensures ChildrenDefined([e] + rest)
    ensures ParseShapes([e] + rest, rot) == Err(MissingAttribute("fill"))
    ensures PrintedLog([e] + rest, rot) == []
  {
    var cs := [e] + rest;
    assert cs[0] == e;
    assert forall c :: c in cs ==> c == e || c in rest;
  }

  /** A skipped child in front of children whose parse fails: the failure
      stands, and the skipped child's warning is printed first. */
  lemma SkippedBeforeFailure(c: Element, rest: seq<Element>, rot: Rotation)
    requires !IsRecognised(c)
    requires ChildrenDefined(rest) && ParseShapes(rest, rot).Err?
    ensures ChildrenDefined([c] + rest)
    ensures ParseShapes([c] + rest, rot) == ParseShapes(rest, rot)
    ensures PrintedLog([c] + rest, rot) == [UnrecognisedShape(c.name)] + PrintedLog(rest, rot)
  {
    var cs := [c] + rest;
    assert cs[0] == c && cs[1..] == rest;
    assert forall x :: x in cs ==> x == c || x in rest;
  }

  /** A warning printed for a skipped child survives a later failure: it is
      on standard output before the exception escapes. */
  lemma WarningBeforeAbort(root: Element, other: Element, e: Element, rest: seq<Element>, rot: Rotation)
    requires !IsRecognised(other)
    requires IsRecognised(e) && "fill" !in e.attrs
    requires root.children == [other, e] + rest
    requires ChildrenDefined(rest)
    ensures ChildrenDefined(root.children)
    ensures SvgToPng(Some(root), rot) == Aborted(MissingAttribute("fill"), [UnrecognisedShape(other.name)])
  {
    FilllessHead(e, rest, rot);
    SkippedBeforeFailure(other, [e] + rest, rot);
    assert [other] + ([e] + rest) == root.children;
    var noLog: seq<Warning> := [];
    assert [UnrecognisedShape(other.name)] + noLog == [UnrecognisedShape(other.name)];
  }
}
