/** What the parsing code gets from `std::stringstream` and `std::getline`.

    A stream is the text not yet consumed and a flag saying whether it is
    still good. Formatted extraction (`>>`) skips leading white space; an
    integer read that finds no digits stores 0 and fails the stream; a read
    that finds only white space leaves its target untouched and fails the
    stream; a failed stream leaves every later target untouched. A target
    that may still be uninitialised is an `Option` whose `None` means
    "indeterminate". Values are unbounded: the clamping of out-of-range
    literals is not modelled. */
module TextStreams {
  import opened Results

  /** The characters `isspace` accepts in the "C" locale. */
  predicate IsSpace(c: char) {
    c == ' ' || c == '\t' || c == '\n' || c == '\r' || c == '\U{000B}' || c == '\U{000C}'
  }

  predicate IsDigit(c: char) {
    '0' <= c <= '9'
  }

  predicate AllDigits(s: string) {
    forall i :: 0 <= i < |s| ==> IsDigit(s[i])
  }

  predicate NoSpace(s: string) {
    forall i :: 0 <= i < |s| ==> !IsSpace(s[i])
  }

  function DigitValue(c: char): nat
    requires IsDigit(c)
  {
    c as int - '0' as int
  }

  function DigitChar(d: nat): (c: char)
    requires d < 10
    ensures IsDigit(c) && DigitValue(c) == d
  {
    ('0' as int + d) as char
  }

  /** The value of a non-empty run of decimal digits, most significant first. */
  function DecValue(ds: string): nat
    requires AllDigits(ds)
  {
    if ds == [] then 0 else DecValue(ds[..|ds| - 1]) * 10 + DigitValue(ds[|ds| - 1])
  }

  /** The text left after skipping leading white space. */
  function SkipSpace(s: string): (r: string)
    ensures r == [] || !IsSpace(r[0])
  {
    if s != [] && IsSpace(s[0]) then SkipSpace(s[1..]) else s
  }

  /** The longest prefix of decimal digits. */
  function DigitRun(s: string): (r: string)
    ensures |r| <= |s| && AllDigits(r)
  {
    if s != [] && IsDigit(s[0]) then [s[0]] + DigitRun(s[1..]) else []
  }

  /** The longest prefix without white space. */
  function WordRun(s: string): (r: string)
    ensures |r| <= |s| && NoSpace(r)
  {
    if s != [] && !IsSpace(s[0]) then [s[0]] + WordRun(s[1..]) else []
  }

  /** Unconsumed text and the stream's good/fail state. */
  datatype Stream = Stream(rest: string, good: bool)

  /** The stream after one extraction, and the extracted target. */
  datatype Extracted<T> = Extracted(stream: Stream, value: T)

  /** A fresh string stream over `s`. */
  function Open(s: string): Stream {
    Stream(s, true)
  }

  /** `st >> n` for an `int` target whose previous value is `prior`. */
  function ReadInt(st: Stream, prior: Option<int>): (r: Extracted<Option<int>>)
    ensures !st.good ==> r == Extracted(st, prior)
    ensures prior.Some? ==> r.value.Some?
    ensures r.stream.good ==> st.good && r.value.Some?
  {
    if !st.good then Extracted(st, prior)
    else
      var t := SkipSpace(st.rest);
      if t == [] then Extracted(Stream([], false), prior)
      else
        var signed := t[0] == '-' || t[0] == '+';
        var body := if signed then t[1..] else t;
        var ds := DigitRun(body);
        if ds == [] then Extracted(Stream(body, false), Some(0))
        else
          var magnitude: int := DecValue(ds);
          Extracted(Stream(body[|ds|..], true), Some(if t[0] == '-' then -magnitude else magnitude))
  }

  /** `st >> w` for a `std::string` target whose previous value is `prior`. */
  function ReadWord(st: Stream, prior: string): (r: Extracted<string>)
    ensures !st.good ==> r == Extracted(st, prior)
    ensures r.stream.good ==> st.good && r.value != []
    ensures NoSpace(prior) ==> NoSpace(r.value)
  {
    if !st.good then Extracted(st, prior)
    else
      var t := SkipSpace(st.rest);
      if t == [] then Extracted(Stream([], false), prior)
      else
        var w := WordRun(t);
        Extracted(Stream(t[|w|..], true), w)
  }

  /** The pieces `while (std::getline(ss, piece, ' '))` visits: the text
      split at every single space, where a piece may be empty, except that
      a final empty piece (text ending in a space, or empty text) is not
      visited. */
  function GetlinePieces(s: string): (r: seq<string>)
    ensures forall k :: 0 <= k < |r| ==> ' ' !in r[k]
    ensures s == [] <==> r == []
    decreases |s|
  {
    if s == [] then []
    else if ' ' !in s then [s]
    else
      var i := IndexOf(s, ' ');
      [s[..i]] + GetlinePieces(s[i + 1..])
  }

  /** The position of the first occurrence of `c` (std::string::find). */
  function IndexOf(s: string, c: char): (i: nat)
    requires c in s
    ensures i < |s| && s[i] == c && c !in s[..i]
  {
    if s[0] == c then 0 else
      assert c in s[1..] by { var j :| 0 <= j < |s| && s[j] == c; assert s[1..][j - 1] == c; }
      1 + IndexOf(s[1..], c)
  }

  // ---------------------------------------------------------------------
  // Decimal formatting, the inverse of integer extraction.
  // ---------------------------------------------------------------------

  /** The decimal digits of `n`, most significant first, without leading zeros. */
  function Digits(n: nat): (r: string)
    ensures r != [] && AllDigits(r)
  {
    if n < 10 then [DigitChar(n)] else Digits(n / 10) + [DigitChar(n % 10)]
  }

  /** The decimal text of an integer, with a leading '-' when negative. */
  function FormatInt(n: int): (r: string)
    ensures r != [] && NoSpace(r)
  {
    if n < 0 then "-" + Digits(-n) else Digits(n)
  }

  lemma {:induction false} DigitsValue(n: nat)
    ensures DecValue(Digits(n)) == n
  {
    if n >= 10 {
      var ds := Digits(n);
      assert ds[..|ds| - 1] == Digits(n / 10);
      DigitsValue(n / 10);
    }
  }

  lemma {:induction false} DigitRunOfDigits(ds: string, rest: string)
    requires AllDigits(ds)
    requires rest == [] || !IsDigit(rest[0])
    ensures DigitRun(ds + rest) == ds
    decreases |ds|
  {
    if ds != [] {
      assert (ds + rest)[1..] == ds[1..] + rest;
      DigitRunOfDigits(ds[1..], rest);
    }
  }

  lemma {:induction false} SkipSpaces(lead: string, s: string)
    requires forall i :: 0 <= i < |lead| ==> IsSpace(lead[i])
    requires s == [] || !IsSpace(s[0])
    ensures SkipSpace(lead + s) == s
    decreases |lead|
  {
    if lead != [] {
      assert (lead + s)[1..] == lead[1..] + s;
      SkipSpaces(lead[1..], s);
    }
  }

  /** Extracting an integer from its own decimal text (after any white
      space, before anything that is not a digit) yields that integer and
      leaves the stream good at the text that follows. */
  lemma ReadFormattedInt(lead: string, n: int, rest: string, prior: Option<int>)
    requires forall i :: 0 <= i < |lead| ==> IsSpace(lead[i])
    requires rest == [] || !IsDigit(rest[0])
    ensures ReadInt(Open(lead + FormatInt(n) + rest), prior) == Extracted(Open(rest), Some(n))
  {
    var text := FormatInt(n) + rest;
    assert lead + FormatInt(n) + rest == lead + text;
    SkipSpaces(lead, text);
    if n < 0 {
      ReadNegativeText(lead, n, rest, prior);
    } else {
      ReadNonNegativeText(lead, n, rest, prior);
    }
  }

  lemma ReadNegativeText(lead: string, n: int, rest: string, prior: Option<int>)
    requires n < 0
    requires rest == [] || !IsDigit(rest[0])
    requires SkipSpace(lead + (FormatInt(n) + rest)) == FormatInt(n) + rest
    ensures ReadInt(Open(lead + (FormatInt(n) + rest)), prior) == Extracted(Open(rest), Some(n))
  {
    var m: nat := -n;
    DigitRunOfDigits(Digits(m), rest);
    DigitsValue(m);
    assert FormatInt(n) + rest == "-" + (Digits(m) + rest);
    ReadSignedDigits(Open(lead + (FormatInt(n) + rest)), prior, true, Digits(m), rest);
  }

  lemma ReadNonNegativeText(lead: string, n: int, rest: string, prior: Option<int>)
    requires n >= 0
    requires rest == [] || !IsDigit(rest[0])
    requires SkipSpace(lead + (FormatInt(n) + rest)) == FormatInt(n) + rest
    ensures ReadInt(Open(lead + (FormatInt(n) + rest)), prior) == Extracted(Open(rest), Some(n))
  {
    DigitRunOfDigits(Digits(n), rest);
    DigitsValue(n);
    ReadSignedDigits(Open(lead + (FormatInt(n) + rest)), prior, false, Digits(n), rest);
  }

  /** Integer extraction from an optional '-' sign, a digit run and the rest. */
  lemma ReadSignedDigits(st: Stream, prior: Option<int>, negative: bool, ds: string, rest: string)
    requires st.good
    requires SkipSpace(st.rest) == (if negative then "-" + (ds + rest) else ds + rest)
    requires ds != [] && AllDigits(ds) && DigitRun(ds + rest) == ds
    ensures ReadInt(st, prior) == Extracted(Open(rest), Some(if negative then -(DecValue(ds) as int) else DecValue(ds)))
  {
    var t := SkipSpace(st.rest);
    var body := ds + rest;
    assert body[|ds|..] == rest;
    var magnitude: int := DecValue(ds);
    if negative {
      assert t == ['-'] + body;
      assert t[1..] == body;
      assert ReadInt(st, prior) == Extracted(Stream(body[|ds|..], true), Some(-magnitude));
    } else {
      assert t == body && t[0] == ds[0];
      assert ReadInt(st, prior) == Extracted(Stream(body[|ds|..], true), Some(magnitude));
    }
  }

  /** Extracting a word from text that starts with it (after any white
      space) yields exactly that word. */
  lemma {:induction false} ReadWordOf(lead: string, w: string, rest: string, prior: string)
    requires forall i :: 0 <= i < |lead| ==> IsSpace(lead[i])
    requires w != [] && NoSpace(w)
    requires rest == [] || IsSpace(rest[0])
    ensures ReadWord(Open(lead + w + rest), prior) == Extracted(Open(rest), w)
  {
    assert lead + w + rest == lead + (w + rest);
    SkipSpaces(lead, w + rest);
    WordRunOf(w, rest);
  }

  lemma {:induction false} WordRunOf(w: string, rest: string)
    requires NoSpace(w)
    requires rest == [] || IsSpace(rest[0])
    ensures WordRun(w + rest) == w
    decreases |w|
  {
    if w != [] {
      assert (w + rest)[1..] == w[1..] + rest;
      WordRunOf(w[1..], rest);
    }
  }

  /** The first `c` in `a + [c] + b` is the one right after `a` when `a`
      has none. */
  lemma IndexAfter(a: string, c: char, b: string)
    requires c !in a
    ensures c in a + [c] + b && IndexOf(a + [c] + b, c) == |a|
  {
    var s := a + [c] + b;
    assert s[|a|] == c;
    var i := IndexOf(s, c);
    assert forall j :: 0 <= j < |a| ==> s[j] == a[j];
    assert !(i < |a|);
    assert !(|a| < i) by {
      assert forall j :: 0 <= j < i ==> s[..i][j] == s[j];
    }
  }

  /** getline visits a space-free piece followed by a space, then the
      pieces of what follows. */
  lemma GetlinePiecesCons(piece: string, rest: string)
    requires ' ' !in piece
    ensures GetlinePieces(piece + " " + rest) == [piece] + GetlinePieces(rest)
  {
    var s := piece + " " + rest;
    IndexAfter(piece, ' ', rest);
    assert s[..|piece|] == piece;
    assert s[|piece| + 1..] == rest;
  }
}
