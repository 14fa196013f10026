/** `parse_color` (main.py:48-63): turns a colour given on the command line as
    `#RRGGBB`, `#RGB` or `R,G,B` into an (R, G, B) tuple, or raises ValueError. */
module ColorParsing {
  import opened Outcomes
  import opened PyText

  /** The tuple `parse_color` returns. Python ints are unbounded and the comma
      form does not clamp, so the channels are plain integers. */
  datatype Rgb = Rgb(r: int, g: int, b: int)

  predicate IsByteColor(c: Rgb) {
    0 <= c.r < 256 && 0 <= c.g < 256 && 0 <= c.b < 256
  }

  /** The ValueError raised, by cause. */
  datatype ColorError =
    | InvalidHexLength                                // "Invalid hex color"
    | InvalidLiteral(literal: string, radix: Radix)   // raised by int(literal, base)
    | WrongArity                                      // "RGB must have 3 comma-separated numbers"
    | UnknownFormat                                   // "Use #RRGGBB or R,G,B format for colors"

  predicate StartsWithHash(t: string) {
    |t| > 0 && t[0] == '#'
  }

  /** Reads each text from left to right; on success, the values in order,
      otherwise the position of the first text that `read` refuses. */
  function ReadAll(texts: seq<string>, read: string -> Option<int>): (r: Result<seq<int>, nat>)
    ensures r.Ok? <==> forall k :: 0 <= k < |texts| ==> read(texts[k]).Some?
    ensures r.Ok? ==> (|r.value| == |texts|
      && forall k :: 0 <= k < |texts| ==> read(texts[k]) == Some(r.value[k]))
    ensures r.Err? ==> (r.error < |texts| && read(texts[r.error]) == None
      && forall j :: 0 <= j < r.error ==> read(texts[j]).Some?)
  {
    if texts == [] then Ok([])
    else
      assert forall k :: 0 <= k < |texts| - 1 ==> texts[1..][k] == texts[k + 1];
      match read(texts[0])
      case None => Err(0)
      case Some(v) =>
        match ReadAll(texts[1..], read)
        case Err(k) => Err(k + 1)
        case Ok(vs) => Ok([v] + vs)
  }

  /** `int(text, base)` applied to each text in turn, as a list comprehension
      does: the first text that `int()` refuses is the error raised. */
  function ParseLiterals(texts: seq<string>, radix: Radix): (r: Result<seq<int>, ColorError>)
    ensures r.Ok? <==> forall k :: 0 <= k < |texts| ==> IntLiteral(texts[k], radix).Some?
    ensures r.Ok? ==> (|r.value| == |texts|
      && forall k :: 0 <= k < |texts| ==> IntLiteral(texts[k], radix) == Some(r.value[k]))
    ensures r.Err? ==> exists k :: (0 <= k < |texts| && r.error == InvalidLiteral(texts[k], radix)
      && IntLiteral(texts[k], radix) == None
      && forall j :: 0 <= j < k ==> IntLiteral(texts[j], radix).Some?)
  {
    match ReadAll(texts, t => IntLiteral(t, radix))
    case Err(k) => Err(InvalidLiteral(texts[k], radix))
    case Ok(vs) => Ok(vs)
  }

  /** `#RGB` stands for `#RRGGBB`: a three-character body has each character doubled. */
  function ExpandShortHex(body: string): string {
    if |body| == 3 then [body[0], body[0], body[1], body[1], body[2], body[2]] else body
  }

  /** The hex branch, applied to the text after `#`: `int(e[i:i+2], 16)` for
      i = 0, 2, 4 in that order, the first refusal being the error raised.
      Each call is written as HexPairMeaning, which HexPairValue proves is
      exactly what `int()` does with a two-character text. */
  function ParseHexBody(body: string): Result<Rgb, ColorError> {
    var e := ExpandShortHex(body);
    if |e| != 6 then Err(InvalidHexLength)
    else
      var r, g, b := HexPairMeaning(e[0], e[1]), HexPairMeaning(e[2], e[3]), HexPairMeaning(e[4], e[5]);
      if r.None? then Err(InvalidLiteral(e[0..2], Hexadecimal))
      else if g.None? then Err(InvalidLiteral(e[2..4], Hexadecimal))
      else if b.None? then Err(InvalidLiteral(e[4..6], Hexadecimal))
      else Ok(Rgb(r.value, g.value, b.value))
  }

  /** The comma branch: every field goes through `int()` before the count is checked. */
  function ParseDecimalList(t: string): Result<Rgb, ColorError> {
    match ParseLiterals(Split(t, ','), Decimal)
    case Err(err) => Err(err)
    case Ok(vs) => if |vs| != 3 then Err(WrongArity) else Ok(Rgb(vs[0], vs[1], vs[2]))
  }

  /** `parse_color(c)`. A leading `#` (after trimming) always selects the hex
      branch, a comma otherwise selects the decimal branch, and anything else is
      refused; each branch raises only its own kinds of error. */
  function ParseColor(c: string): (r: Result<Rgb, ColorError>)
    ensures StartsWithHash(Strip(c)) ==>
      r.Ok? || r.error == InvalidHexLength || (r.error.InvalidLiteral? && r.error.radix == Hexadecimal)
    ensures !StartsWithHash(Strip(c)) && ',' in Strip(c) ==>
      r.Ok? || r.error == WrongArity || (r.error.InvalidLiteral? && r.error.radix == Decimal)
    ensures r == Err(UnknownFormat) <==> !StartsWithHash(Strip(c)) && ',' !in Strip(c)
  {
    var t := Strip(c);
    if StartsWithHash(t) then ParseHexBody(t[1..])
    else if ',' in t then ParseDecimalList(t)
    else Err(UnknownFormat)
  }

  // ---------------------------------------------------------------------------
  // Formatters: the inverse direction, used to state the round trips.

  function HexByte(v: nat): string
    requires v < 256
  {
    [DigitChar(v / 16), DigitChar(v % 16)]
  }

  /** `#rrggbb` in lower-case hex. */
  function FormatHex(c: Rgb): string
    requires IsByteColor(c)
  {
    "#" + HexByte(c.r) + HexByte(c.g) + HexByte(c.b)
  }

  /** `R,G,B` in decimal, a minus sign on negative channels. */
  function FormatDecimal(c: Rgb): string {
    FormatInt(c.r) + "," + FormatInt(c.g) + "," + FormatInt(c.b)
  }

  // ---------------------------------------------------------------------------
  // Properties

  /** Whitespace around the argument never changes the outcome. */
  lemma ParseIgnoresPadding(w1: string, c: string, w2: string)
    requires AllSpace(w1) && AllSpace(w2)
    ensures ParseColor(w1 + c + w2) == ParseColor(c)
  {
    TrimPadding(w1, c, w2, StripBlanks);
  }

  /** Three texts that `int()` all accepts are read to their three values. */
  lemma ThreeLiterals(x: string, y: string, z: string, radix: Radix)
    requires IntLiteral(x, radix).Some? && IntLiteral(y, radix).Some? && IntLiteral(z, radix).Some?
    ensures ParseLiterals([x, y, z], radix)
      == Ok([IntLiteral(x, radix).value, IntLiteral(y, radix).value, IntLiteral(z, radix).value])
  {
    var texts := [x, y, z];
    var read := t => IntLiteral(t, radix);
    assert forall k :: 0 <= k < 3 ==> read(texts[k]).Some?;
    var vs := ReadAll(texts, read).value;
    assert vs == [read(x).value, read(y).value, read(z).value];
  }

  /** After `#`, a body of any length other than 3 or 6 is "Invalid hex color";
      a body of length 3 or 6 never is. */
  lemma HexLengthRule(c: string)
    requires StartsWithHash(Strip(c))
    ensures ParseColor(c) == Err(InvalidHexLength) <==> |Strip(c)| != 4 && |Strip(c)| != 7
  {
  }

  /** `#RGB` parses exactly as `#RRGGBB`. */
  lemma ShortHexExpands(x: char, y: char, z: char)
    ensures ParseColor(['#', x, y, z]) == ParseColor(['#', x, x, y, y, z, z])
  {
    var short := ['#', x, y, z];
    var long := ['#', x, x, y, y, z, z];
    if !IsSpace(z) {
      TrimUnchanged(short, StripBlanks);
      TrimUnchanged(long, StripBlanks);
      assert ExpandShortHex(short[1..]) == long[1..];
    } else {
      // `strip()` takes the trailing `z` (and `zz`) away, and no body that is
      // left has 3 or 6 characters: both are "Invalid hex color".
      HashTextTrimmed(short, 3);
      HexLengthRule(short);
      if IsSpace(y) {
        HashTextTrimmed(long, 3);
      } else {
        HashTextTrimmed(long, 5);
        assert TrimRight(long[..5], StripBlanks) == long[..5];
      }
      HexLengthRule(long);
    }
  }

  /** A text starting with `#` whose characters from `n` on are whitespace
      strips to the trimmed first `n` characters, which still start with `#`. */
  lemma HashTextTrimmed(s: string, n: nat)
    requires 1 <= n <= |s| && s[0] == '#' && AllSpace(s[n..])
    ensures Strip(s) == TrimRight(s[..n], StripBlanks)
    ensures StartsWithHash(Strip(s)) && |Strip(s)| <= n
  {
    assert TrimLeft(s, StripBlanks) == s;
    assert s == s[..n] + s[n..];
    TrimRightPadding(s[..n], s[n..], StripBlanks);
    TrimRightSpec(s[..n], StripBlanks);
  }

  /** Six hex digits after `#` give `(16*d0+d1, 16*d2+d3, 16*d4+d5)`, three bytes. */
  lemma SixHexDigits(body: string)
    requires |body| == 6 && forall k :: 0 <= k < 6 ==> IsDigit(body[k], Hexadecimal)
    ensures ParseColor("#" + body) == Ok(Rgb(
      16 * DigitValue(body[0], Hexadecimal) + DigitValue(body[1], Hexadecimal),
      16 * DigitValue(body[2], Hexadecimal) + DigitValue(body[3], Hexadecimal),
      16 * DigitValue(body[4], Hexadecimal) + DigitValue(body[5], Hexadecimal)))
    ensures IsByteColor(ParseColor("#" + body).value)
  {
    var v0 := 16 * DigitValue(body[0], Hexadecimal) + DigitValue(body[1], Hexadecimal);
    var v1 := 16 * DigitValue(body[2], Hexadecimal) + DigitValue(body[3], Hexadecimal);
    var v2 := 16 * DigitValue(body[4], Hexadecimal) + DigitValue(body[5], Hexadecimal);
    assert ParseHexBody(body) == Ok(Rgb(v0, v1, v2));
    assert ParseColor("#" + body) == ParseHexBody(body) by {
      HashBranch(body);
    }
  }

  /** The text after a `#` that ends in a non-space character goes to the hex branch whole. */
  lemma HashBranch(body: string)
    requires body != [] && !IsSpace(body[|body| - 1])
    ensures ParseColor("#" + body) == ParseHexBody(body)
  {
    var s := "#" + body;
    assert Strip(s) == s by {
      assert s[|s| - 1] == body[|body| - 1];
      TrimUnchanged(s, StripBlanks);
    }
    assert s[1..] == body;
  }

  /** The two hex digits of a byte read back as the byte. */
  lemma HexByteDigits(v: nat)
    requires v < 256
    ensures |HexByte(v)| == 2
    ensures IsDigit(HexByte(v)[0], Hexadecimal) && IsDigit(HexByte(v)[1], Hexadecimal)
    ensures 16 * DigitValue(HexByte(v)[0], Hexadecimal) + DigitValue(HexByte(v)[1], Hexadecimal) == v
  {
  }

  /** Formatting a byte triple as `#rrggbb` and parsing it gives the triple back. */
  lemma FormatHexRoundTrip(c: Rgb)
    requires IsByteColor(c)
    ensures ParseColor(FormatHex(c)) == Ok(c)
  {
    var x, y, z := HexByte(c.r), HexByte(c.g), HexByte(c.b);
    HexByteDigits(c.r);
    HexByteDigits(c.g);
    HexByteDigits(c.b);
    assert FormatHex(c) == "#" + (x + y + z);
    HexTriple(x, y, z, c);
  }

  lemma HexTriple(x: string, y: string, z: string, c: Rgb)
    requires |x| == 2 && |y| == 2 && |z| == 2
    requires IsDigit(x[0], Hexadecimal) && IsDigit(x[1], Hexadecimal)
    requires IsDigit(y[0], Hexadecimal) && IsDigit(y[1], Hexadecimal)
    requires IsDigit(z[0], Hexadecimal) && IsDigit(z[1], Hexadecimal)
    requires c.r == 16 * DigitValue(x[0], Hexadecimal) + DigitValue(x[1], Hexadecimal)
    requires c.g == 16 * DigitValue(y[0], Hexadecimal) + DigitValue(y[1], Hexadecimal)
    requires c.b == 16 * DigitValue(z[0], Hexadecimal) + DigitValue(z[1], Hexadecimal)
    ensures ParseColor("#" + (x + y + z)) == Ok(c)
  {
    var body := x + y + z;
    assert body == [x[0], x[1], y[0], y[1], z[0], z[1]];
    SixHexDigits(body);
  }

  /** Formatting any triple as `R,G,B` and parsing it gives the triple back:
      the comma form keeps negative and over-255 channels as they are. */
  lemma FormatDecimalRoundTrip(c: Rgb)
    ensures ParseColor(FormatDecimal(c)) == Ok(c)
  {
    var x, y, z := FormatInt(c.r), FormatInt(c.g), FormatInt(c.b);
    var s := FormatDecimal(c);
    FormatIntShape(c.r);
    FormatIntShape(c.g);
    FormatIntShape(c.b);
    assert s[0] == x[0] && s[|s| - 1] == z[|z| - 1] && s[|x|] == ',';
    DecimalBranch(s);
    SplitThree(x, y, z);
    FormatIntRoundTrip(c.r);
    FormatIntRoundTrip(c.g);
    FormatIntRoundTrip(c.b);
    ThreeLiterals(x, y, z, Decimal);
  }

  /** Text with no `#` or whitespace at the front, none at the end, and a comma
      goes to the comma branch as it is. */
  lemma DecimalBranch(s: string)
    requires s != [] && s[0] != '#' && !IsSpace(s[0]) && !IsSpace(s[|s| - 1]) && ',' in s
    ensures ParseColor(s) == ParseDecimalList(s)
  {
    TrimUnchanged(s, StripBlanks);
  }

  /** Three comma-free fields joined by commas split back into those fields. */
  lemma SplitThree(x: string, y: string, z: string)
    requires ',' !in x && ',' !in y && ',' !in z
    ensures Split(x + "," + y + "," + z, ',') == [x, y, z]
  {
    assert x + "," + y + "," + z == Join([x, y, z], ',') by {
      assert [x, y, z][1..] == [y, z] && [y, z][1..] == [z];
      assert Join([y, z], ',') == y + [','] + z;
    }
    SplitJoin([x, y, z], ',');
  }

  /** In the comma form, when every field is a number, the result is a colour
      exactly when there are three fields, and "wrong arity" otherwise. */
  lemma DecimalArity(c: string)
    requires !StartsWithHash(Strip(c)) && ',' in Strip(c)
    requires forall k :: 0 <= k < |Split(Strip(c), ',')| ==>
      IntLiteral(Split(Strip(c), ',')[k], Decimal).Some?
    ensures ParseColor(c).Ok? <==> |Split(Strip(c), ',')| == 3
    ensures ParseColor(c).Err? ==> ParseColor(c).error == WrongArity
  {
  }

  /** An empty or blank field in the comma form, as in `1,,2`, is refused by `int()`. */
  lemma BlankFieldRejected(c: string, k: nat)
    requires !StartsWithHash(Strip(c)) && ',' in Strip(c)
    requires k < |Split(Strip(c), ',')| && AllSpace(Split(Strip(c), ',')[k])
    ensures ParseColor(c).Err? && ParseColor(c).error.InvalidLiteral?
  {
    BlankLiteral(Split(Strip(c), ',')[k], Decimal);
  }

  /** A channel read from two characters lies in -15..255: a sign can make it
      negative, never larger than a byte. */
  lemma PairMeaningRange(a: char, b: char)
    requires HexPairMeaning(a, b).Some?
    ensures -15 <= HexPairMeaning(a, b).value <= 255
  {
  }

  /** Every colour the hex branch returns has its channels in -15..255. */
  lemma HexChannelRange(c: string)
    requires StartsWithHash(Strip(c)) && ParseColor(c).Ok?
    ensures var v := ParseColor(c).value;
      -15 <= v.r <= 255 && -15 <= v.g <= 255 && -15 <= v.b <= 255
  {
    var e := ExpandShortHex(Strip(c)[1..]);
    PairMeaningRange(e[0], e[1]);
    PairMeaningRange(e[2], e[3]);
    PairMeaningRange(e[4], e[5]);
  }

  /** A character that is neither a hex digit, whitespace `int()` skips, nor a sign. */
  predicate IsForeign(ch: char) {
    !IsDigit(ch, Hexadecimal) && !IsBlank(ch, IntBlanks) && ch != '+' && ch != '-'
  }

  lemma ForeignPair(a: char, b: char)
    requires IsForeign(a) || IsForeign(b)
    ensures HexPairMeaning(a, b) == None
  {
  }

  /** After `#`, a body of 3 or 6 characters holding a foreign character is
      refused by `int()`. */
  lemma HexForeignRejected(c: string, k: nat)
    requires StartsWithHash(Strip(c))
    requires var body := Strip(c)[1..]; (|body| == 3 || |body| == 6) && k < |body| && IsForeign(body[k])
    ensures ParseColor(c).Err? && ParseColor(c).error.InvalidLiteral?
  {
    var body := Strip(c)[1..];
    var e := ExpandShortHex(body);
    var i := if |body| == 3 then 2 * k else k;
    assert e[i] == body[k];
    var p := i / 2 * 2;
    ForeignPair(e[p], e[p + 1]);
  }

  /** A leading `#` wins over commas: `#1,2,3` is a hex body of the wrong length. */
  lemma HashBeatsComma()
    ensures ParseColor("#1,2,3") == Err(InvalidHexLength)
  {
    TrimUnchanged("#1,2,3", StripBlanks);
  }

  /** Bodies of length 4 and 0 are refused. */
  lemma HexLengthExamples()
    ensures ParseColor("#abcd") == Err(InvalidHexLength)
    ensures ParseColor("#") == Err(InvalidHexLength)
  {
    TrimUnchanged("#abcd", StripBlanks);
    TrimUnchanged("#", StripBlanks);
  }

  /** Neither a `#` nor a comma: refused outright. */
  lemma NoFormatExample()
    ensures ParseColor("red") == Err(UnknownFormat)
  {
    TrimUnchanged("red", StripBlanks);
  }

  /** `1,,2` fails on its empty middle field, before its count is looked at. */
  lemma EmptyFieldExample()
    ensures ParseColor("1,,2") == Err(InvalidLiteral("", Decimal))
  {
    var joined := "1" + "," + "" + "," + "2";
    assert joined == "1,,2";
    assert ParseColor(joined) == Err(InvalidLiteral("", Decimal)) by {
      assert IntLiteral("1", Decimal) == Some(1) by {
        UnsignedLiteral("1");
      }
      BlankLiteral("", Decimal);
      SecondFieldReported("1", "", "2");
    }
  }

  /** The separators U+001C..U+001F are whitespace to `strip()` but not to
      `int()`: the field `\x1c2` of `1,\x1c2,3` is refused. */
  lemma SeparatorInField(c: char)
    requires '\U{1c}' <= c <= '\U{1f}'
    ensures ParseColor(['1', ',', c, '2', ',', '3']) == Err(InvalidLiteral([c, '2'], Decimal))
  {
    var joined := "1" + "," + [c, '2'] + "," + "3";
    assert joined == ['1', ',', c, '2', ',', '3'];
    assert ParseColor(joined) == Err(InvalidLiteral([c, '2'], Decimal)) by {
      assert IntLiteral("1", Decimal) == Some(1) by {
        UnsignedLiteral("1");
      }
      SeparatorNotSkipped(c, '2', Decimal);
      SecondFieldReported("1", [c, '2'], "3");
    }
  }

  /** In `x,y,z`, a number followed by a field `int()` refuses reports that
      field, whatever the third one holds. */
  lemma SecondFieldReported(x: string, y: string, z: string)
    requires x != [] && x[0] != '#' && !IsSpace(x[0]) && z != [] && !IsSpace(z[|z| - 1])
    requires ',' !in x && ',' !in y && ',' !in z
    requires IntLiteral(x, Decimal).Some? && IntLiteral(y, Decimal) == None
    ensures ParseColor(x + "," + y + "," + z) == Err(InvalidLiteral(y, Decimal))
  {
    var s := x + "," + y + "," + z;
    assert s[0] == x[0] && s[|s| - 1] == z[|z| - 1] && s[|x|] == ',';
    DecimalBranch(s);
    SplitThree(x, y, z);
    SecondFieldRefused(x, y, z, Decimal);
  }

  /** Three fields whose first is a number and whose second is not: the
      second is the one reported. */
  lemma SecondFieldRefused(x: string, y: string, z: string, radix: Radix)
    requires IntLiteral(x, radix).Some? && IntLiteral(y, radix) == None
    ensures ParseLiterals([x, y, z], radix) == Err(InvalidLiteral(y, radix))
  {
    var texts := [x, y, z];
    var r := ParseLiterals(texts, radix);
    assert IntLiteral(texts[0], radix).Some? && IntLiteral(texts[1], radix) == None;
    var k :| 0 <= k < 3 && r.error == InvalidLiteral(texts[k], radix)
      && IntLiteral(texts[k], radix) == None
      && forall j :: 0 <= j < k ==> IntLiteral(texts[j], radix).Some?;
    assert k == 1;
  }

  /** A separator U+001C..U+001F inside a hex pair is refused by
      `int(p, 16)`, though `strip()` would drop it at the ends of the argument. */
  lemma SeparatorInHexPair(c: char)
    requires '\U{1c}' <= c <= '\U{1f}'
    ensures ParseColor(['#', '1', c, '2', '2', '3', '3']) == Err(InvalidLiteral(['1', c], Hexadecimal))
  {
    var body := ['1', c, '2', '2', '3', '3'];
    assert "#" + body == ['#', '1', c, '2', '2', '3', '3'];
    assert ParseColor("#" + body) == Err(InvalidLiteral(['1', c], Hexadecimal)) by {
      HashBranch(body);
      assert body[0..2] == ['1', c];
    }
  }
}
