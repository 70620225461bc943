# SVG to PNG conversion: a Dafny model

This project models the core of a small SVG-to-PNG converter written in C++:

- the shape classes of `svg/elements.cpp` (ellipse, polygon and polyline, plus the derived circle, rect and line), with their `draw`, `translate`, `scale`, `rotate` and `duplicate` operations;
- the parsing and conversion code of `svg/svg_to_png.cpp`:
  - the `COLORS` table;
  - `parse_color`, `parse_transform`, `parse_points`, `parse_ellipse` and `parse_shapes`;
  - the draw loop of `svg_to_png`.

The C++ class hierarchy becomes the sum type `Elements.Shape`. Each in-place transform becomes a pure function that returns the transformed shape. `draw` returns the sequence of calls it makes on the image (`Canvas.Command`) instead of mutating pixels.

The markup tree that tinyxml2 would produce is an abstract `Documents.Element`, which holds:

- a name;
- string attributes;
- the attributes readable as integers;
- child elements.

The two kinds of line printed on standard output are `Documents.Warning` values collected in a log. A C++ exception that escapes is a `Failures.Failure`.

The `std::stringstream` extraction the parsers rely on is modelled in `TextStreams`:

- an extraction skips white space;
- an integer read with no digits stores 0 and fails the stream;
- a read at end of input leaves the target untouched and fails the stream;
- a failed stream ignores later reads.

Module layout:

| file | module | what it holds |
|---|---|---|
| results.dfy | Results | `Option` and `Result` |
| failures.dfy | Failures | the exceptions the parsers let escape |
| geometry.dfy | Geometry | `Point`, `Color`, the point transforms, the `Rotation` parameter type |
| canvas.dfy | Canvas | drawing calls and the image |
| elements.dfy | Elements | shapes, transforms, draw, constructors |
| text_streams.dfy | TextStreams | stream extraction, `getline`, `find`, integer formatting |
| colors.dfy | Colors | `COLORS`, `parse_color`, `#RRGGBB` formatting |
| documents.dfy | Documents | markup elements and warnings |
| transforms.dfy | Transforms | `parse_transform` |
| point_lists.dfy | PointLists | `parse_points` |
| conversion.dfy | Conversion | `parse_ellipse`, `parse_shapes`, `svg_to_png` |

## Model

| member | source | states |
|---|---|---|
| Elements.MapPoints | svg/elements.cpp:46-49 | the per-vertex loop keeps the vertex count and replaces vertex i by the operation applied to vertex i |
| Elements.Translate | svg/elements.cpp:13-15 | translation keeps the variant and the colours; an ellipse moves its centre by t and keeps its radius; a polygon or polyline moves every vertex by t (the loops at lines 46-49 and 86-89) |
| Elements.Scale | svg/elements.cpp:16-20 | scaling keeps the variant and the colours; an ellipse scales its centre about the origin and multiplies both radius components by v; every polygon or polyline vertex is scaled about the origin (lines 51-54 and 91-94) |
| Elements.Rotate | svg/elements.cpp:22-24 | rotation keeps the variant and the colours; an ellipse rotates only its centre and keeps its radius; every polygon or polyline vertex is rotated (lines 56-59 and 96-99) |
| Elements.Duplicate | svg/elements.cpp:25-27 | the duplicate of every variant equals the original: same colour(s) and same geometry (also lines 61-63 and 101-103) |
| Elements.PolylineLoopBound | svg/elements.cpp:82 | the loop bound `points.size() - 1` as written, as unsigned 64-bit arithmetic: it is one less than the count for a non-empty vector |
| Elements.EmptyPolylineOverruns | svg/elements.cpp:82 | for an empty vector that bound wraps around to 2^64 - 1, so the loop enters its first iteration |
| Elements.Segments | svg/elements.cpp:81-84 | a polyline with n >= 1 vertices makes n - 1 draw_line calls joining vertex i to vertex i + 1 in the stroke colour, in order; an empty one makes none |
| Elements.Draw | svg/elements.cpp:10-12 | an ellipse makes exactly one draw_ellipse call with its centre, radius and fill; a polygon makes one draw_polygon call with its vertices and fill (lines 42-44); a polyline makes its segment calls (lines 81-84) |
| Elements.DrawAgreesWithLoop | svg/elements.cpp:81-84 | wherever the loop as written stays in range, the corrected draw makes as many calls as the loop iterates |
| Elements.TranslateRoundTrip | svg/elements.cpp:13-15 | translating by t and then by -t gives back the same shape, for every variant |
| Elements.TranslateCompose | svg/elements.cpp:46-49 | two translations equal one translation by their sum |
| Elements.ScaleByOne | svg/elements.cpp:16-20 | scaling by 1 about any origin leaves every shape unchanged |
| Elements.ScaleCompose | svg/elements.cpp:16-20 | scaling by a and then by b about one origin equals scaling by a*b, for the radius as for the vertices |
| Elements.RotateFullTurn | svg/elements.cpp:22-24 | if the point rotation is the identity at 360 degrees, so is the shape rotation |
| Elements.CircleStaysCircular | svg/elements.cpp:29-34 | a circle (equal radius components) stays one under translate, scale and rotate |
| Elements.DrawTranslated | svg/elements.cpp:42-49 | drawing a translated shape makes the same number of calls, in the same order and colours, each displaced by t |
| Elements.DerivedShapesDraw | svg/elements.cpp:105-110 | the derived constructors draw through their parent: a circle draws one ellipse and a rect one polygon (lines 29-34 and 65-69); a two-point line draws exactly one segment |
| Elements.Circle | svg/elements.cpp:29-34 | the circle constructor builds an ellipse with the given fill that draws one draw_ellipse call with the given centre and radius |
| Elements.Rect | svg/elements.cpp:65-69 | the rect constructor builds a polygon over the given points with the given fill, drawn as one draw_polygon call |
| Elements.Line | svg/elements.cpp:105-110 | the line constructor builds a polyline over the given points with the given stroke, drawn as its segments |
| TextStreams.ReadInt | svg/svg_to_png.cpp:48 | extracting an int from a failed stream changes nothing; a successful extraction needs a good stream and yields a value; a target that held a value still holds one |
| TextStreams.ReadWord | svg/svg_to_png.cpp:58 | extracting a word from a failed stream changes nothing; a successful extraction yields a non-empty word |
| TextStreams.GetlinePieces | svg/svg_to_png.cpp:81 | the pieces getline yields with delimiter ' ' contain no space, and there are none exactly when the text is empty |
| TextStreams.GetlinePiecesCons | svg/svg_to_png.cpp:81 | a space-free piece followed by a space is visited first, and then the rest is split the same way |
| TextStreams.IndexOf | svg/svg_to_png.cpp:82 | find returns the position of the first occurrence of the character |
| TextStreams.IndexAfter | svg/svg_to_png.cpp:82 | in a + c + b with no c in a, find returns the length of a |
| TextStreams.DigitsValue | svg/svg_to_png.cpp:61 | the decimal digits of n read back as n |
| TextStreams.ReadFormattedInt | svg/svg_to_png.cpp:61 | extracting an int from its own decimal text, after any white space, yields that int and leaves exactly the rest unread |
| TextStreams.ReadWordOf | svg/svg_to_png.cpp:58 | extracting a word from text that begins with it yields that word and leaves the rest unread |
| Colors.HexValue | svg/svg_to_png.cpp:27 | the value of k hexadecimal digits is below 16^k |
| Colors.SplitChannels | svg/svg_to_png.cpp:28-30 | red = v >> 16, green = (v >> 8) & 0xFF and blue = v & 0xFF reassemble to v for every 24-bit v |
| Colors.PackInjective | svg/svg_to_png.cpp:28-30 | two colours with the same 24-bit value are the same colour |
| Colors.ParseColor | svg/svg_to_png.cpp:21-35 | an empty token fails; a '#' token yields the colour whose 24-bit value is the hexadecimal run after '#' and any white space, and black when that run is empty (the failed extraction stores 0); any other token succeeds exactly when it names an entry of the table, yields that entry, and otherwise fails naming the token |
| Colors.HexSkipsSpace | svg/svg_to_png.cpp:26-27 | "# ff" is read as 0xff: the extraction skips white space after '#' |
| Colors.HexStopsAtNonDigit | svg/svg_to_png.cpp:26-27 | "#1z" is read as 1: the digit run stops at the first non-digit |
| Colors.HexWithoutDigits | svg/svg_to_png.cpp:25-30 | "#zz" yields black, because the failed extraction stores 0 |
| Colors.FormatHexRoundTrip | svg/svg_to_png.cpp:21-35 | every colour written as "#RRGGBB" parses back to itself |
| Colors.FormattedDigits | svg/svg_to_png.cpp:27-30 | the six digits of "#RRGGBB" read as a hexadecimal number give the colour's 24-bit value, which fits 24 bits |
| Colors.LeadingZero | svg/svg_to_png.cpp:27 | a leading zero digit does not change the value of a hexadecimal run |
| Colors.PaddedText | svg/svg_to_png.cpp:26-27 | in "#0" followed by six digits, the extraction reads the seven digits whole |
| Colors.PaddedHexRoundTrip | svg/svg_to_png.cpp:21-35 | a colour written with a leading zero, "#0RRGGBB", is well-defined and parses back to itself: the 24-bit bound is on the value, not on the digit count |
| Colors.SixDigitsFit | svg/svg_to_png.cpp:27-30 | at most six hexadecimal digits always fit 24 bits |
| Colors.NamedExamples | svg/svg_to_png.cpp:12-19 | "red", "yellow" and "black" give their table triples; a name not in the table ("orange") fails |
| Colors.NamedTable | svg/svg_to_png.cpp:12-19 | the `Named` table holds exactly black, white, red, green, blue and yellow, with the listed triples |
| Transforms.Separate | svg/svg_to_png.cpp:50-55 | the rewritten text has the same length, with each '(', ')' and ',' replaced by a space and every other character kept |
| Transforms.SeparatedCall | svg/svg_to_png.cpp:50-55 | "w(x,y)" is rewritten to "w x y " |
| Transforms.ScanTransform | svg/svg_to_png.cpp:56-69 | the kind word has no white space; when no word is read, no integer is read either; when the first integer is left untouched, so is the second (a failed stream ignores later reads) |
| Transforms.ParseDirective | svg/svg_to_png.cpp:39-73 | no directive exactly when `transform` is absent; "translate" gives a translation by the two integers read, "scale" and "rotate" a scaling or rotation by the integer read about the parsed origin; an unrecognised directive exactly when the first word is none of these, and it carries that word; the origin is (0,0) when `transform-origin` is absent |
| Transforms.Apply | svg/svg_to_png.cpp:59-73 | a translation, scaling or rotation directive calls the shape's translate, scale or rotate with the directive's arguments; no directive and an unrecognised one leave the shape unchanged; only an unrecognised one logs, exactly one line naming the word; variant and colours are kept |
| Transforms.ParseTransform | svg/svg_to_png.cpp:39-74 | with no transform attribute the shape is unchanged and nothing is logged; a first word of translate, scale or rotate applies that transform with the integers read (scale and rotate about the parsed origin) and logs nothing; otherwise exactly one line is logged and the shape is unchanged; variant and colours are kept |
| Transforms.TranslateNotations | svg/svg_to_png.cpp:59-62 | "translate(a,b)" and "translate a b" both translate the shape by (a,b) and log nothing |
| Transforms.ScaleNotation | svg/svg_to_png.cpp:43-66 | "scale(v)" scales the shape by v about the point written in `transform-origin`, or about (0,0) when it is absent, and logs nothing |
| Transforms.RotateNotation | svg/svg_to_png.cpp:43-70 | "rotate(d)" rotates the shape by d degrees about the point written in `transform-origin`, or about (0,0) when it is absent, and logs nothing |
| Transforms.TranslateIgnoresOrigin | svg/svg_to_png.cpp:43-62 | a translate gives the same result whatever `transform-origin` says, or when it is absent |
| Transforms.ParseOrigin | svg/svg_to_png.cpp:43-49 | without `transform-origin` the origin is (0,0) |
| Transforms.OriginRoundTrip | svg/svg_to_png.cpp:43-49 | a `transform-origin` of "ox oy" is read as the point (ox, oy) |
| PointLists.ParsePieces | svg/svg_to_png.cpp:81-87 | the loop succeeds exactly when every piece has a comma, and then gives one point per piece |
| PointLists.ParsePiecesReads | svg/svg_to_png.cpp:82-86 | on success, point k is what `ss2 >> x >> y` reads from piece k with its first comma made a space |
| PointLists.ParsePiecesFailure | svg/svg_to_png.cpp:82 | on failure, the failure names a piece without a comma |
| PointLists.CommaToSpaceEdits | svg/svg_to_png.cpp:82 | the piece keeps its length; a piece with a comma has its first comma replaced by a space and every other character kept; a piece without one is unchanged |
| PointLists.ReadPair | svg/svg_to_png.cpp:83-85 | blank text reads no point; when reading x fails the stream, y is never written, so no point is read |
| PointLists.ParsePoints | svg/svg_to_png.cpp:77-88 | the read points are appended after the existing ones, one per getline piece, in order; it succeeds exactly when every piece has a comma |
| PointLists.ReadFormattedPair | svg/svg_to_png.cpp:82-85 | a formatted "x,y" pair is read back as the point (x, y) |
| PointLists.PiecesOfFormat | svg/svg_to_png.cpp:81 | getline splits space-joined pairs into exactly those pairs |
| PointLists.ParsePointsRoundTrip | svg/svg_to_png.cpp:77-88 | parsing points written as space-joined "x,y" pairs appends exactly those points |
| PointLists.MissingCommaFails | svg/svg_to_png.cpp:82 | a first piece without a comma makes the whole parse fail on that piece |
| Conversion.ParseEllipse | svg/svg_to_png.cpp:91-98 | a missing fill fails; otherwise it succeeds exactly when the fill parses, with the parse's failure if not; the result is an ellipse with centre (cx, cy), radius (rx, ry) (0 where absent) and the parsed fill |
| Conversion.BuildShape | svg/svg_to_png.cpp:109-115 | a recognised child builds exactly when parse_ellipse succeeds, and fails with its failure otherwise; the built value is parse_transform applied to the parsed ellipse, so a built shape is always an ellipse |
| Conversion.BuildShapeOutcome | svg/svg_to_png.cpp:109-116 | a recognised child builds exactly when parse_ellipse succeeds, fails with its failure and keeps the parsed fill; without a transform the parsed ellipse is kept; a translate, scale or rotate transform is applied to it with the integers read (scale and rotate about the parsed origin) and logs nothing; an unrecognised transform leaves the parsed ellipse as it was |
| Conversion.TranslatedMarkupBuilds | svg/svg_to_png.cpp:109-115 | an ellipse element with `transform="translate(a,b)"` builds as that ellipse moved by (a, b), with nothing logged |
| Conversion.TranslatedEllipseDrawn | svg/svg_to_png.cpp:102-136 | a root whose only child is such an element saves one draw_ellipse call at the moved centre, with the original radius and fill, and prints nothing |
| Conversion.Recognised | svg/svg_to_png.cpp:106-114 | the kept children are children named "ellipse", and every such child is kept |
| Conversion.ParseShapes | svg/svg_to_png.cpp:102-118 | every parsed shape is an ellipse |
| Conversion.ParseShapesSucceeds | svg/svg_to_png.cpp:102-118 | the parse succeeds exactly when every recognised child builds |
| Conversion.ParseShapesInOrder | svg/svg_to_png.cpp:109-116 | on success, the shape list holds one shape per recognised child, in document order, each as built and transformed |
| Conversion.ParseShapesWarns | svg/svg_to_png.cpp:111-113 | on success, the "Unrecognized shape type" lines name exactly the skipped children, in document order |
| Conversion.ParseShapesFirstFailure | svg/svg_to_png.cpp:109-116 | a failed parse reports the failure of the first recognised child that does not build; all earlier ones build |
| Conversion.ParseShapesStops | svg/svg_to_png.cpp:104-116 | the parse succeeds exactly when it gets through every child; otherwise the child where it stops is recognised and its build failure is the one that escapes |
| Conversion.PrintedWarns | svg/svg_to_png.cpp:111-113 | whether the parse returns or throws, the lines printed so far include one "Unrecognized shape type" line per skipped child before the stopping point, in document order, and no other shape warning |
| Conversion.PrintedLog | svg/svg_to_png.cpp:102-118 | the lines printed by the loop (line 112, and line 72 inside parse_transform) are at most one per child it reaches |
| Conversion.Reached | svg/svg_to_png.cpp:103-116 | the loop stops at the first recognised child that fails to build: every child before that point is skipped or builds, and the child at it, if any, is recognised and fails |
| Conversion.PrintedLogOnSuccess | svg/svg_to_png.cpp:102-118 | on success the printed lines are exactly the parse's log |
| Conversion.DrawAllEllipses | svg/svg_to_png.cpp:134-136 | a list of ellipses makes one draw_ellipse call per shape, in list order |
| Conversion.DrawAll | svg/svg_to_png.cpp:134-136 | the first shape's calls come first in the image |
| Conversion.DrawAllAppend | svg/svg_to_png.cpp:134-136 | drawing a list is drawing its parts one after the other: every shape's calls stay together, in list order |
| Conversion.SvgToPng | svg/svg_to_png.cpp:122-141 | nothing is done exactly when the document fails to load; the image is saved exactly when every recognised child builds, and otherwise the conversion aborts with the first failure; the image has the root's width and height; its calls draw the parsed shapes; a saved log names exactly the skipped children, and an aborted one the skipped children before the failing child |
| Conversion.SavedTrace | svg/svg_to_png.cpp:129-136 | a saved image holds exactly one draw_ellipse call per recognised child, in document order, with that child's transformed centre, radius and fill |
| Conversion.EllipseRoundTrip | svg/svg_to_png.cpp:91-98 | an ellipse written as markup with cx, cy, rx, ry and a "#RRGGBB" fill parses back to itself, and with no transform it builds unchanged |
| Conversion.SkipsUnknownElement | svg/svg_to_png.cpp:102-118 | an element of another name between two ellipses draws nothing and logs one line; the two ellipses are drawn in document order |
| Conversion.CircleElementSkipped | svg/svg_to_png.cpp:109-113 | a `circle` element is not recognised: the saved image is empty and the log names "circle" |
| Conversion.MissingFillAborts | svg/svg_to_png.cpp:96 | an ellipse without a fill aborts the conversion before anything is drawn or printed, whatever follows it |
| Conversion.WarningBeforeAbort | svg/svg_to_png.cpp:96-112 | a skipped child's warning printed before a fill-less ellipse is still among the printed lines of the aborted conversion |

## Left out

- File I/O is not modelled. Loading the file is the `Option<Element>` argument of `SvgToPng`, with `None` meaning the load failed. Rasterising and saving the PNG are not modelled; the image is its list of drawing calls.
- The tinyxml2 parser is not modelled. `IntAttribute` returns 0 for a missing attribute. A present attribute that does not read as an integer is not modelled.
- Standard output is not modelled. The printed lines are the `Warning` log; an aborted conversion carries the lines printed before the exception escaped.
- Pointers, `new` and `delete` are not modelled. Shapes are values, so the memory of `duplicate` and of the final `delete` loop has no counterpart.
- The point type's header is not part of this model. `Point.Translate` (component-wise addition) and `Point.Scale` (origin + (p - origin) * v) are ASSUMED integer bodies. Every translate and scale lemma depends on them.
- `point::rotate` is not modelled. It is passed in as a `Rotation` function value. Only properties that hold for every rotation are proved, and `RotateFullTurn` assumes the point rotation is the identity at 360 degrees.
- Integer widths are not modelled. Coordinates, radii, scale products and the `int v` of parse_color are unbounded. 32-bit overflow, and an 8-bit colour channel receiving `v >> 16` for a value above 0xFFFFFF, are not modelled.
- Colors.ParseColor requires a token after '#' and its white space to be non-empty, to carry no sign, not to start with a "0x" prefix, and to have a hexadecimal run whose value fits 24 bits (`ColorTokenDefined`). Leading zeros are allowed, so "#0000001" is accepted. With nothing after the white space, `v` is never written. A run whose value exceeds 0xFFFFFF leaves 24 bits, so the narrowing of `v >> 16` into an 8-bit channel would matter, and a value past the `int` range is stored clamped. A sign and a "0x" prefix are accepted by the hexadecimal extraction. These last cases are defined in C++, but they are excluded as corner cases of the partial parse.
- TextStreams.ReadInt: an extraction into an int that was never initialised leaves an indeterminate value at end of input, or after an earlier extraction failed. Examples are "translate(a,5)" and the point piece "a,5": the first read stores 0 and the second target is never written. `TransformDefined` excludes such inputs for the transform arguments, and `PiecesDefined` for the point coordinates.
- Conversion.ParseEllipse: `parse_color(elem->Attribute("fill"))` with a missing attribute builds a `std::string` from a null pointer. This is undefined behaviour, modelled as the failure `MissingAttribute("fill")`.
- Elements.Line: the constructor passes `get_color()` to its base before the base exists, so the stored fill is unspecified. It is a free parameter of `Line`.
- Conversion.ParseShapes, Conversion.SvgToPng: both over-require slightly through `ChildrenDefined`. It asks every recognised child to be well-defined, including children after the first failure, which the source never reaches.
- `svg/svg_to_png.hpp` only declares `svg_to_png` and is not modelled.
- `elements.hpp` declares `circle`, `polyline`, `rect` and `line` without the constructors `elements.cpp` defines. The model follows the `.cpp` definitions.
- Three behaviours of the code are worth stating, since a reader might expect otherwise:
  - `parse_shapes` recognises only `ellipse`. `circle`, `rect`, `polygon`, `polyline` and `line` elements are skipped with a warning, so a markup `line` or `circle` draws nothing (see `CircleElementSkipped`).
  - The rect constructor takes its corner points as given and derives no corners from x, y, width and height.
  - An unknown colour name or a missing fill aborts the whole conversion; there is no per-shape recovery. The lines printed before that point stay printed.
- `parse_points` is modelled, but `parse_shapes` never calls it, because no polygon or polyline parser exists.

## Findings

| source | as written | input that shows it | evidently intended | confidence | as-written member | corrected member |
|---|---|---|---|---|---|---|
| svg/elements.cpp:82 | the polyline draw loop runs `i` up to `points.size() - 1`, computed in unsigned `size_t` | a polyline with no points: `0 - 1` wraps to 2^64 - 1, and the first iteration reads `points[0]` and `points[1]` of an empty vector | an empty polyline draws nothing; otherwise n - 1 segments | high (not executed) | Elements.PolylineLoopBound, Elements.EmptyPolylineOverruns | Elements.Draw, Elements.Segments, Elements.DrawAgreesWithLoop |
