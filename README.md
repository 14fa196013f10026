# Wedding QR script — verified model of its colour, layout and naming logic

`main.py` renders a QR code for a URL as a PNG. It can optionally:
- overlay a logo, shrunk if it is too wide and centred on a white rounded pad;
- add a caption strip below the code with the text centred in it.

It also writes a PDF copy, usually beside the PNG (see Findings). This project models the logic in that
script that computes values:

- **`parse_color`** turns `#RRGGBB`, `#RGB` or `R,G,B` into a colour or raises
  `ValueError` (module `ColorParsing`). It is modelled on the Python text
  operations it relies on (module `PyText`):
  - `str.strip` with Python's whitespace set;
  - `str.split(',')`, which keeps empty fields;
  - the literal grammar `int(text, 10)` and `int(text, 16)` accept: surrounding
    whitespace, a sign, `_` between digits and a `0x` prefix. The whitespace
    `int()` skips is not quite `strip()`'s: the separators U+001C..U+001F are
    whitespace to `strip()` but not to `int()`, so one inside a field or a hex
    pair makes `int()` raise.
- **The ranking step of `get_dominant_colors`** (module `DominantColors`):
  - it sorts the quantizer's `(count, index)` pairs in descending order;
  - it looks each index up in the flat palette;
  - it keeps the first `num_colors` colours.
- **The geometry of `add_logo` and `add_caption_strip`** (module `Layout`): the
  shrink-only resize, the centred offsets `(outer - inner) // 2` and the
  caption canvas.
- **The PDF name** `output.rsplit('.', 1)[0] + ".pdf"` (module `OutputPath`).

`Outcomes` holds the `Option` and `Result` types. Raised `ValueError`s become
`Err` values:
- in `parse_color`: `InvalidHexLength`, `InvalidLiteral` (the text `int()`
  refused and its base), `WrongArity` and `UnknownFormat`;
- in `get_dominant_colors`: `UnpackError`.

The ranking loop is a method. Its loop invariants connect it to a functional
specification of `sorted(..., reverse=True)`. Everything else is functions and
lemmas.

## Model

| member | source | states |
|---|---|---|
| PyText.Strip | main.py:50 | `c.strip()`, the trim over `str.isspace()`; specified by TrimSpec, TrimPadding and TrimUnchanged below |
| PyText.TrimLeftSpec | main.py:50 | left trimming removes only whitespace (of the set in use), leaves a suffix, and what remains does not start with whitespace |
| PyText.TrimRightSpec | main.py:50 | right trimming removes only whitespace, leaves a prefix, and what remains does not end with whitespace |
| PyText.TrimSpec | main.py:50 | a trim, by `strip()` or by `int()`, returns a middle slice of the text with only whitespace cut on either side and no whitespace left at either end |
| PyText.TrimPadding | main.py:50 | extra whitespace on either side never changes what a trim returns |
| PyText.TrimUnchanged | main.py:50 | text with no whitespace at either end is returned by a trim as it is |
| PyText.Split | main.py:59 | `c.split(",")`, at least one field; specified by SplitSpec and SplitJoin below |
| PyText.SplitSpec | main.py:59 | no field of `split(',')` contains a comma, and joining the fields with commas gives back the text |
| PyText.SplitJoin | main.py:59 | splitting the comma-join of comma-free fields gives those exact fields back (empty fields included) |
| PyText.SplitWithoutSeparator | main.py:59 | a text without a comma splits into itself alone |
| PyText.SplitAfterField | main.py:59 | a comma splits off the field before it from the fields after it |
| PyText.IntLiteral | main.py:57 | `int(text, base)`: trims the whitespace `int()` skips, then an optional sign, a `0x` prefix in base 16, and a digit group; specified by FormatIntRoundTrip, UnsignedLiteral, NegatedLiteral, HexPairValue, BlankLiteral and SeparatorNotSkipped |
| PyText.FormatInt | main.py:59 | `str(n)`, the text `R,G,B` is built from; FormatIntShape and FormatIntRoundTrip state what it is |
| PyText.FormatIntRoundTrip | main.py:59 | `int()` in base 10 reads every integer's decimal form back as that integer |
| PyText.FormatIntShape | main.py:59 | the decimal form of an integer is never empty, has no whitespace at its ends and contains no comma |
| PyText.UnsignedLiteral | main.py:59 | a decimal digit group (single `_` between digits allowed) is read as its value |
| PyText.NegatedLiteral | main.py:59 | a `-` before a decimal digit group negates its value |
| PyText.HexPairValue | main.py:57 | `int(pair, 16)` on two characters is 16a+b for two hex digits. Otherwise: a single hex digit next to whitespace `int()` skips (not U+001C..U+001F), or after `+`, gives that digit; after `-` it gives the digit negated; anything else is refused |
| PyText.BlankLiteral | main.py:59 | `int()` refuses empty text and text made only of `str.isspace()` characters, in either base |
| PyText.SeparatorNotSkipped | main.py:59 | a separator U+001C..U+001F is whitespace to `strip()`, yet `int()` refuses a two-character text starting with one |
| PyText.DigitChar | main.py:57 | the digit character for d below 16 is a hex digit (and for d below 10 a decimal digit) whose value is d |
| ColorParsing.ReadAll | main.py:59 | the comprehension's conversions succeed iff every text converts; the values come in the same order; on failure it names the first text refused, all texts before it having converted |
| ColorParsing.ParseLiterals | main.py:59 | succeeds iff `int()` accepts every field; then value k is `int(field k)`; otherwise the error carries the text of the first field refused, every field before it accepted, and the base used |
| ColorParsing.ParseColor | main.py:48-63 | after `#` only a length error or a base-16 `int()` error can occur; in the comma form only an arity error or a base-10 `int()` error; "Use #RRGGBB or R,G,B" is raised iff the trimmed text neither starts with `#` nor contains a comma |
| ColorParsing.ParseIgnoresPadding | main.py:50 | whitespace around the argument never changes the result |
| ColorParsing.ExpandShortHex | main.py:53-54 | doubles each character of a 3-character body; ShortHexExpands states the effect |
| ColorParsing.ParseHexBody | main.py:55-57 | the hex branch after `#`; specified by HexLengthRule, SixHexDigits, HexForeignRejected, HexChannelRange and the ParseColor contract |
| ColorParsing.ParseDecimalList | main.py:58-62 | the comma branch; specified by DecimalArity, BlankFieldRejected, SecondFieldReported and FormatDecimalRoundTrip |
| ColorParsing.HashBranch | main.py:51-52 | a `#` followed by text that ends in a non-space character is parsed by the hex branch on that whole text |
| ColorParsing.HexLengthRule | main.py:53-56 | after `#`, "Invalid hex color" is raised iff the trimmed text has neither 4 nor 7 characters |
| ColorParsing.ShortHexExpands | main.py:53-54 | `#xyz` gives the same result as `#xxyyzz`, for any three characters |
| ColorParsing.HashTextTrimmed | main.py:50-52 | a `#` text with trailing whitespace strips to its trimmed front part, still starting with `#` |
| ColorParsing.SixHexDigits | main.py:57 | six hex digits after `#` give (16·d0+d1, 16·d2+d3, 16·d4+d5), each a byte |
| ColorParsing.ThreeLiterals | main.py:57-59 | three texts that `int()` accepts convert to their three values, in order |
| ColorParsing.HexByteDigits | main.py:57 | the two hex digits written for a byte read back as that byte |
| ColorParsing.FormatHexRoundTrip | main.py:51-57 | every byte colour written as `#rrggbb` parses back to itself |
| ColorParsing.HexTriple | main.py:57 | three pairs of hex digits after `#` parse to the colour their digits spell |
| ColorParsing.FormatDecimalRoundTrip | main.py:58-62 | every integer colour written as `R,G,B` parses back to itself, negative channels included |
| ColorParsing.DecimalBranch | main.py:50-58 | text with a comma, not starting with `#` and with no whitespace at its ends goes to the comma branch unchanged |
| ColorParsing.SplitThree | main.py:59 | three comma-free fields joined by commas split back into exactly those three fields |
| ColorParsing.DecimalArity | main.py:60-62 | when every field is a number, the comma form succeeds iff there are exactly three fields, and otherwise fails with the arity error |
| ColorParsing.BlankFieldRejected | main.py:59 | an empty or blank field in the comma form makes `int()` fail, whatever the number of fields |
| ColorParsing.PairMeaningRange | main.py:57 | a channel read from two characters lies in -15..255 |
| ColorParsing.HexChannelRange | main.py:57 | every colour the hex branch returns has its channels in -15..255 (a sign may make them negative) |
| ColorParsing.ForeignPair | main.py:57 | a pair holding a character that is not a hex digit, whitespace `int()` skips, or a sign is refused |
| ColorParsing.HexForeignRejected | main.py:57 | a hex body of the right length with such a character fails with a base-16 `int()` error |
| ColorParsing.HashBeatsComma | main.py:51-56 | `#1,2,3` is taken as hex and refused for its length, not read as a comma list |
| ColorParsing.HexLengthExamples | main.py:55-56 | `#abcd` and a bare `#` are refused for their length |
| ColorParsing.NoFormatExample | main.py:63 | `red` is refused as being in neither format |
| ColorParsing.EmptyFieldExample | main.py:59 | `1,,2` fails on its empty field (with the text `""`) before the field count is checked |
| ColorParsing.SecondFieldRefused | main.py:59 | among three fields, a number followed by a refused field reports that second field, whatever the third |
| ColorParsing.SecondFieldReported | main.py:58-59 | `x,y,z` with `int(x)` accepted and `int(y)` refused fails with `y`'s text |
| ColorParsing.SeparatorInField | main.py:59 | `1,\x1c2,3` (any of U+001C..U+001F) fails on the field `\x1c2` |
| ColorParsing.SeparatorInHexPair | main.py:57 | `#1\x1f2233` (any of U+001C..U+001F) fails on the pair `1\x1f` |
| DominantColors.Insert | main.py:95 | inserting into a descending list keeps it descending and adds exactly the one pair |
| DominantColors.SortDescending | main.py:95 | the ranking is descending in `(count, index)` tuple order and is a permutation of the input |
| DominantColors.SortedUnique | main.py:95 | two descending lists with the same pairs are equal, so the ranking is the one `sorted(reverse=True)` returns |
| DominantColors.TailMultiset | main.py:95 | two lists with the same pairs and the same first pair have the same remaining pairs |
| DominantColors.HeadIsGreatest | main.py:95 | the first pair of a descending list is at least every pair in it |
| DominantColors.PaletteColor | main.py:98 | the three-value unpack succeeds iff the palette holds values 3i..3i+2, and then gives those values |
| DominantColors.DominantColors | main.py:94-100 | succeeds iff every ranked index is in the palette; then returns min(num_colors, number of pairs) colours, the k-th being the palette colour of the k-th ranked pair; otherwise fails on the first ranked index that cannot be unpacked |
| DominantColors.RankingFailsIff | main.py:97-99 | the unpack fails for some ranked pair iff some input pair has an index beyond the palette |
| DominantColors.KeptAreTop | main.py:95-100 | a pair left out by the cut has a count no larger than that of any kept pair |
| DominantColors.RankedByCount | main.py:95 | pixel counts never increase along the ranking |
| Layout.CenterOffset | main.py:138-139 | `(outer - inner) // 2` leaves margins that differ by at most one pixel, the extra one on the far side, also when the inner size is the larger |
| Layout.FitLogo | main.py:112-121 | the logo's new width is min(logo width, target width); a logo no wider than the target keeps its size (never grown), a wider one gets the target width and the computed height |
| Layout.PlaceLogo | main.py:132-142 | the backdrop is the logo grown by the pad on every side, and the logo sits the pad inside the backdrop's corner |
| Layout.LogoCentred | main.py:138-142 | the backdrop is centred on the QR image, and the logo's position is the centred offset of the logo's own size, whatever the pad |
| Layout.LayOutCaption | main.py:179-182 | the canvas is the QR image plus a strip of height `strip_h`; the text is centred across the width and within the strip to one pixel |
| OutputPath.LastIndex | main.py:227 | gives the position of the last occurrence of the character, or none iff the character does not occur |
| OutputPath.LastIndexUnique | main.py:227 | an occurrence with none after it is the one `rsplit` cuts at |
| OutputPath.StemBeforeLastDot | main.py:227 | `output.rsplit('.', 1)[0]`; PdfPath's contract characterises it |
| OutputPath.PdfPath | main.py:227 | the PDF name ends in `.pdf`; before that comes the whole output path if it has no dot, else the part before its last dot |
| OutputPath.PdfStemUnique | main.py:227 | that description fixes the PDF name: any text meeting it is the text used |
| OutputPath.PdfPathLeavesDirectory | main.py:227 | `out.d/qr` gives the PDF name `out.pdf`, which is not in the PNG's directory `out.d/` |
| OutputPath.Directory | main.py:227 | the directory part is a prefix of the path that is empty or ends with `/`, and no `/` follows it |
| OutputPath.FileName | main.py:227 | the file name contains no `/` and completes the directory part to the whole path |
| OutputPath.PdfFileName | main.py:227 | a file name with its extension replaced ends in `.pdf` and gains no `/` |
| OutputPath.IntendedPdfPath | main.py:227 | the corrected PDF name ends in `.pdf` |
| OutputPath.DirectoryAppend | main.py:227 | appending text without `/` to a directory part keeps it as the directory part |
| OutputPath.IntendedKeepsDirectory | main.py:227 | the corrected PDF name lies in the same directory as the PNG |
| OutputPath.IntendedAgreesOnExtension | main.py:227 | when the file name has an extension (a dot that is not its first character), the corrected name equals the script's name |
| OutputPath.StemInFileName | main.py:227 | the last dot of the file name is where `rsplit('.', 1)` cuts the whole path |
| OutputPath.LastIndexAppend | main.py:227 | the last occurrence of a character in a suffix is its last occurrence in the whole text |

## Left out

- QR encoding, image resizing with LANCZOS, and the drawing itself (rounded masks, alpha, pasting into the image in place, the divider line, text rendering). These are library calls; only the positions and sizes they receive are modelled.
- The quantizer inside `get_dominant_colors` (the 150×150 resize, `quantize(method=2)`, `getpalette()`, `getcolors()`). Its output pairs and palette are inputs to the model, including their possible lengths. The case where `getcolors()` returns `None`, which makes `sorted` raise, is not modelled.
- Floating-point quantities become integer parameters: `int(base.width * scale)`, `int(target_w / aspect)`, the pad `int(min(w, h) * 0.08)`, `int(h * strip_height_ratio)`, the font size, and the text's bounding box from `textbbox`.
- The corner radius `int(min(new_w, new_h) * round_ratio)` and the backdrop radius `radius + pad // 2` only shape the drawn masks, so they are not modelled.
- Font loading with fallback, file input and output (PNG and PDF writing at 300 dpi), `argparse`, and the `print` calls are not modelled. They have no computed result beyond the values the model covers.
- PyText.IntLiteral: only ASCII digits are accepted. Python's `int()` also accepts other Unicode decimal digits and limits string conversions to 4300 digits; neither is modelled.
- OutputPath.Directory: only `/` separates directories. Windows `\` separators and drive letters are not modelled.
- OutputPath.IntendedPdfPath: names whose only dot starts the file name (`.png`) get `.pdf` appended. This is a simpler rule than `os.path.splitext`, which also treats leading runs of dots specially.

## Findings

| source | as written | input that shows it | evidently intended | confidence | as-written member | corrected member |
|---|---|---|---|---|---|---|
| main.py:227 | `args.output.rsplit('.', 1)[0] + ".pdf"` cuts the path at its last dot even when that dot is in a directory name | `--output out.d/qr` writes the PDF as `out.pdf` in the parent directory, not as `out.d/qr.pdf` beside the PNG | the PDF gets the PNG's file name with its extension replaced, in the PNG's directory | not executed | OutputPath.PdfPathLeavesDirectory | OutputPath.IntendedKeepsDirectory |
