/** Colour tokens: the fixed name table and `#` hexadecimal literals. */
module Colors {
  import opened Geometry
  import opened Results
  import opened Failures
  import opened TextStreams

  /** The named colours, as in the COLORS table. */
  const Named: map<string, Color> := map[
    "black"  := Color(0, 0, 0),
    "white"  := Color(255, 255, 255),
    "red"    := Color(255, 0, 0),
    "green"  := Color(0, 255, 0),
    "blue"   := Color(0, 0, 255),
    "yellow" := Color(255, 255, 0)
  ]

  predicate IsHexDigit(c: char) {
    ('0' <= c <= '9') || ('a' <= c <= 'f') || ('A' <= c <= 'F')
  }

  predicate AllHexDigits(s: string) {
    forall i :: 0 <= i < |s| ==> IsHexDigit(s[i])
  }

  function HexDigitValue(c: char): (d: nat)
    requires IsHexDigit(c)
    ensures d < 16
  {
    if '0' <= c <= '9' then c as int - '0' as int
    else if 'a' <= c <= 'f' then c as int - 'a' as int + 10
    else c as int - 'A' as int + 10
  }

  /** The longest prefix of hexadecimal digits: what `ss >> std::hex >> v`
      consumes from text that starts with a digit. */
  function HexRun(s: string): (r: string)
    ensures |r| <= |s| && r == s[..|r|]
    ensures AllHexDigits(r)
    ensures |r| == |s| || !IsHexDigit(s[|r|])
  {
    if s != [] && IsHexDigit(s[0]) then [s[0]] + HexRun(s[1..]) else []
  }

  function Pow16(k: nat): (p: nat)
    ensures p >= 1
  {
    if k == 0 then 1 else 16 * Pow16(k - 1)
  }

  /** The value of hexadecimal digits, most significant first. */
  function HexValue(ds: string): (v: nat)
    requires AllHexDigits(ds)
    ensures v < Pow16(|ds|)
  {
    if ds == [] then 0 else HexValue(ds[..|ds| - 1]) * 16 + HexDigitValue(ds[|ds| - 1])
  }

  /** Every run of at most six digits fits 24 bits, so the "#RGB" to
      "#RRGGBB" forms are always read determinately. */
  lemma SixDigitsFit(ds: string)
    requires AllHexDigits(ds) && |ds| <= 6
    ensures HexValue(ds) < 0x100_0000
  {
    assert Pow16(6) == 0x100_0000;
    Pow16Monotone(|ds|, 6);
  }

  lemma {:induction false} Pow16Monotone(j: nat, k: nat)
    requires j <= k
    ensures Pow16(j) <= Pow16(k)
    decreases k
  {
    if j < k {
      Pow16Monotone(j, k - 1);
    }
  }

  /** The colour's bits side by side, (red << 16) | (green << 8) | blue; the
      three channels occupy disjoint bits, so the bitwise or is a sum. */
  function Pack(c: Color): nat {
    c.red * 0x1_0000 + c.green * 0x100 + c.blue
  }

  /** Splits a 24-bit value into channels as the source does:
      red = v >> 16, green = (v >> 8) & 0xFF, blue = v & 0xFF. For a
      non-negative value `>> k` is division by 2^k and `& 0xFF` is the
      remainder modulo 256. */
  function SplitChannels(v: nat): (c: Color)
    requires v < 0x100_0000
    ensures Pack(c) == v
  {
    var red := v / 0x1_0000;
    var green := (v / 0x100) % 0x100;
    var blue := v % 0x100;
    assert v == red * 0x1_0000 + (v % 0x1_0000);
    assert v % 0x1_0000 == green * 0x100 + blue;
    Color(red, green, blue)
  }

  /** The text `ss >> std::hex >> v` reads its digits from: what follows
      '#', after the white space the extraction skips. */
  function HexText(s: string): string
    requires |s| > 0
  {
    SkipSpace(s[1..])
  }

  /** What the source demands of a colour token so that `ss >> std::hex >> v`
      stores a determinate value that fits 24 bits: something other than
      white space follows '#' (otherwise `v` is never written), it carries
      no sign, is not read as a "0x" prefix, and the value of its
      hexadecimal run fits 24 bits. A run of no digits is fine: the failed
      extraction stores 0. */
  predicate ColorTokenDefined(s: string) {
    |s| > 0 && s[0] == '#' ==>
      var t := HexText(s);
      var run := HexRun(t);
      t != [] && t[0] != '-' && t[0] != '+' && HexValue(run) < 0x100_0000 &&
      !(run == "0" && |t| > 1 && (t[1] == 'x' || t[1] == 'X'))
  }

  /** parse_color: a '#' token is read as a hexadecimal number (0 when no
      digit follows) and split into channels; any other token must be a
      name in the table; an empty token fails on its first character. */
  function ParseColor(s: string): (r: Result<Color, Failure>)
    requires ColorTokenDefined(s)
    ensures s == [] ==> r == Err(EmptyColorToken)
    ensures |s| > 0 && s[0] == '#' ==> r.Ok? && Pack(r.value) == HexValue(HexRun(HexText(s)))
    ensures |s| > 0 && s[0] == '#' && HexRun(HexText(s)) == [] ==> r == Ok(Color(0, 0, 0))
    ensures |s| > 0 && s[0] != '#' ==> (r.Ok? <==> s in Named)
    ensures |s| > 0 && s[0] != '#' && s in Named ==> r.value == Named[s]
    ensures |s| > 0 && s[0] != '#' && s !in Named ==> r == Err(UnknownColorName(s))
  {
    if s == [] then Err(EmptyColorToken)
    else if s[0] == '#' then
      var run := HexRun(HexText(s));
      if run == [] then Ok(Color(0, 0, 0))
      else Ok(SplitChannels(HexValue(run)))
    else if s in Named then Ok(Named[s])
    else Err(UnknownColorName(s))
  }

  // ---------------------------------------------------------------------
  // Formatting a colour as "#RRGGBB", the inverse of hexadecimal parsing.
  // ---------------------------------------------------------------------

  function HexChar(d: nat): (c: char)
    requires d < 16
    ensures IsHexDigit(c) && HexDigitValue(c) == d
  {
    if d < 10 then ('0' as int + d) as char else ('A' as int + d - 10) as char
  }

  function HexByte(b: Byte): (s: string)
    ensures |s| == 2 && AllHexDigits(s)
  {
    [HexChar(b / 16), HexChar(b % 16)]
  }

  /** The literal "#RRGGBB" for a colour, upper-case digits. */
  function FormatHex(c: Color): (s: string)
    ensures |s| == 7 && s[0] == '#' && AllHexDigits(s[1..])
  {
    "#" + HexByte(c.red) + HexByte(c.green) + HexByte(c.blue)
  }

  lemma HexValueAppendByte(ds: string, b: Byte)
    requires AllHexDigits(ds)
    ensures HexValue(ds + HexByte(b)) == HexValue(ds) * 256 + b
  {
    var s := ds + HexByte(b);
    assert s[..|s| - 1] == ds + [HexChar(b / 16)];
    assert (ds + [HexChar(b / 16)])[..|ds|] == ds;
  }

  lemma {:induction false} PackInjective(a: Color, b: Color)
    requires Pack(a) == Pack(b)
    ensures a == b
  {
    var v := Pack(a);
    assert v / 0x1_0000 == a.red && v / 0x1_0000 == b.red;
    assert v % 0x1_0000 == a.green * 0x100 + a.blue;
    assert v % 0x1_0000 == b.green * 0x100 + b.blue;
  }

  lemma {:induction false} HexRunAll(s: string)
    requires AllHexDigits(s)
    ensures HexRun(s) == s
    decreases |s|
  {
    if s != [] {
      HexRunAll(s[1..]);
    }
  }

  /** The six digits of "#RRGGBB" carry the colour's packed value, which
      fits 24 bits. */
  lemma {:induction false} FormattedDigits(c: Color)
    ensures FormatHex(c)[1..] == HexByte(c.red) + HexByte(c.green) + HexByte(c.blue)
    ensures HexValue(FormatHex(c)[1..]) == Pack(c) < 0x100_0000
  {
    var digits := HexByte(c.red) + HexByte(c.green) + HexByte(c.blue);
    assert FormatHex(c)[1..] == digits;
    assert HexValue(HexByte(c.red)) == c.red by {
      assert HexByte(c.red) == [] + HexByte(c.red);
      HexValueAppendByte([], c.red);
    }
    HexValueAppendByte(HexByte(c.red), c.green);
    HexValueAppendByte(HexByte(c.red) + HexByte(c.green), c.blue);
    assert Pack(c) < 0x100_0000 by {
      assert c.red * 0x1_0000 <= 255 * 0x1_0000;
      assert c.green * 0x100 <= 255 * 0x100;
    }
  }

  /** Every colour survives formatting as "#RRGGBB" and parsing back. */
  lemma {:induction false} FormatHexRoundTrip(c: Color)
    ensures ColorTokenDefined(FormatHex(c))
    ensures ParseColor(FormatHex(c)) == Ok(c)
  {
    var s := FormatHex(c);
    var digits := s[1..];
    FormattedDigits(c);
    assert !IsSpace(digits[0]);
    assert HexText(s) == digits;
    HexRunAll(digits);
    PackInjective(ParseColor(s).value, c);
  }

  /** The table names exactly six colours, with these triples. */
  lemma NamedTable()
    ensures Named.Keys == {"black", "white", "red", "green", "blue", "yellow"}
    ensures Named["black"] == Color(0, 0, 0) && Named["white"] == Color(255, 255, 255)
    ensures Named["red"] == Color(255, 0, 0) && Named["green"] == Color(0, 255, 0)
    ensures Named["blue"] == Color(0, 0, 255) && Named["yellow"] == Color(255, 255, 0)
  {
  }

  /** White space after '#' is skipped before the digits. */
  lemma HexSkipsSpace()
    ensures ParseColor("# ff") == Ok(Color(0, 0, 255))
  {
    var t := "# ff";
    assert t[1..] == " ff" && " ff"[1..] == "ff";
    assert HexText(t) == "ff";
    assert "ff"[1..] == "f" && "f"[1..] == [];
    assert HexRun("ff") == "ff";
    assert "ff"[..1] == "f";
    assert HexValue("ff") == 255;
    SplitBlue(255);
  }

  /** A value below 256 is all blue. */
  lemma SplitBlue(v: nat)
    requires v < 0x100
    ensures SplitChannels(v) == Color(0, 0, v)
  {
    assert v / 0x1_0000 == 0 && v / 0x100 == 0 && v % 0x100 == v;
  }

  /** The digit run stops at the first character that is not a digit. */
  lemma HexStopsAtNonDigit()
    ensures ParseColor("#1z") == Ok(Color(0, 0, 1))
  {
    var t := "#1z";
    assert t[1..] == "1z" && "1z"[1..] == "z";
    assert HexText(t) == "1z";
    assert HexRun("1z") == "1";
    assert HexValue("1") == 1;
    SplitBlue(1);
  }

  /** A leading zero does not change a run's value. */
  lemma {:induction false} LeadingZero(ds: string)
    requires AllHexDigits(ds)
    ensures AllHexDigits(['0'] + ds) && HexValue(['0'] + ds) == HexValue(ds)
    decreases |ds|
  {
    var s := ['0'] + ds;
    if ds != [] {
      assert s[..|s| - 1] == ['0'] + ds[..|ds| - 1];
      assert s[|s| - 1] == ds[|ds| - 1];
      LeadingZero(ds[..|ds| - 1]);
    }
  }

  /** The token "#0" followed by the digits `ds` is read from the run "0" + ds. */
  lemma PaddedText(ds: string)
    requires AllHexDigits(ds) && |ds| == 6
    ensures HexText("#0" + ds) == ['0'] + ds
    ensures HexRun(HexText("#0" + ds)) == ['0'] + ds
  {
    var t := "#0" + ds;
    assert t[1..] == ['0'] + ds;
    LeadingZero(ds);
    HexRunAll(['0'] + ds);
  }

  /** Leading zeros do not count against the 24 bits: a colour written with
      seven digits, "#0RRGGBB", still parses back to itself. */
  lemma PaddedHexRoundTrip(c: Color)
    ensures ColorTokenDefined("#0" + FormatHex(c)[1..])
    ensures ParseColor("#0" + FormatHex(c)[1..]) == Ok(c)
  {
    var digits := FormatHex(c)[1..];
    var t := "#0" + digits;
    FormattedDigits(c);
    PaddedText(digits);
    LeadingZero(digits);
    assert ColorTokenDefined(t) by {
      assert HexText(t)[0] == '0' && HexText(t) != "0";
    }
    PackInjective(ParseColor(t).value, c);
  }

  /** A token with no hexadecimal digit stores 0: black. */
  lemma HexWithoutDigits()
    ensures ParseColor("#zz") == Ok(Color(0, 0, 0))
  {
    var t := "#zz";
    assert t[1..] == "zz";
    assert HexText(t) == "zz";
    assert HexRun("zz") == [];
  }

  /** The name table gives exactly its listed triples. */
  lemma NamedExamples()
    ensures ParseColor("red") == Ok(Color(255, 0, 0))
    ensures ParseColor("yellow") == Ok(Color(255, 255, 0))
    ensures ParseColor("black") == Ok(Color(0, 0, 0))
    ensures ParseColor("orange") == Err(UnknownColorName("orange"))
  {
  }
}
