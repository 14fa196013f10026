/** The pieces of Python's built-in text handling that `parse_color` relies on:
    `str.strip()`, `str.split(sep)` and `int(text, base)` for bases 10 and 16. */
module PyText {
  import opened Outcomes

  /** The characters for which Python's `str.isspace()` holds. */
  predicate IsSpace(ch: char) {
    ch == ' ' || ('\t' <= ch <= '\r') || ('\U{1c}' <= ch <= '\U{1f}')
    || ch == '\U{85}' || ch == '\U{a0}' || ch == '\U{1680}'
    || ('\U{2000}' <= ch <= '\U{200a}') || ch == '\U{2028}' || ch == '\U{2029}'
    || ch == '\U{202f}' || ch == '\U{205f}' || ch == '\U{3000}'
  }

  predicate AllSpace(w: string) {
    forall k :: 0 <= k < |w| ==> IsSpace(w[k])
  }

  /** The whitespace a trim removes. `str.strip()` removes every character
      for which `str.isspace()` holds. `int()` first turns non-ASCII
      whitespace into a space and then skips only ASCII whitespace (space and
      `\t` to `\r`), so it keeps the separators U+001C..U+001F, which are
      ASCII but not whitespace to it. */
  datatype Blanks = StripBlanks | IntBlanks

  predicate IsBlank(ch: char, blanks: Blanks) {
    IsSpace(ch) && (blanks == IntBlanks ==> !('\U{1c}' <= ch <= '\U{1f}'))
  }

  predicate AllBlank(w: string, blanks: Blanks) {
    forall k :: 0 <= k < |w| ==> IsBlank(w[k], blanks)
  }

  /** Drops the leading whitespace. */
  function TrimLeft(s: string, blanks: Blanks): string {
    if |s| > 0 && IsBlank(s[0], blanks) then TrimLeft(s[1..], blanks) else s
  }

  /** Drops the trailing whitespace. */
  function TrimRight(s: string, blanks: Blanks): string {
    if |s| > 0 && IsBlank(s[|s| - 1], blanks) then TrimRight(s[..|s| - 1], blanks) else s
  }

  /** Drops the whitespace at both ends. */
  function Trim(s: string, blanks: Blanks): string {
    TrimRight(TrimLeft(s, blanks), blanks)
  }

  /** Python's `s.strip()` with no argument. */
  function Strip(s: string): string {
    Trim(s, StripBlanks)
  }

  /** TrimLeft keeps the suffix that starts at the first non-blank character. */
  lemma {:induction false} TrimLeftSpec(s: string, blanks: Blanks)
    ensures |TrimLeft(s, blanks)| <= |s| && TrimLeft(s, blanks) == s[|s| - |TrimLeft(s, blanks)|..]
    ensures AllBlank(s[..|s| - |TrimLeft(s, blanks)|], blanks)
    ensures TrimLeft(s, blanks) == [] || !IsBlank(TrimLeft(s, blanks)[0], blanks)
  {
    if |s| > 0 && IsBlank(s[0], blanks) {
      TrimLeftSpec(s[1..], blanks);
      var n := |s| - |TrimLeft(s, blanks)|;
      assert s[..n] == [s[0]] + s[1..][..n - 1];
    }
  }

  /** TrimRight keeps the prefix that ends at the last non-blank character. */
  lemma {:induction false} TrimRightSpec(s: string, blanks: Blanks)
    ensures |TrimRight(s, blanks)| <= |s| && TrimRight(s, blanks) == s[..|TrimRight(s, blanks)|]
    ensures AllBlank(s[|TrimRight(s, blanks)|..], blanks)
    ensures TrimRight(s, blanks) == [] || !IsBlank(TrimRight(s, blanks)[|TrimRight(s, blanks)| - 1], blanks)
  {
    if |s| > 0 && IsBlank(s[|s| - 1], blanks) {
      var p := s[..|s| - 1];
      TrimRightSpec(p, blanks);
      var n := |TrimRight(s, blanks)|;
      assert s[n..] == p[n..] + [s[|s| - 1]];
    }
  }

  /** A trim leaves a middle part of the text that neither starts nor ends
      with whitespace, and removes only whitespace around it. */
  lemma TrimSpec(s: string, blanks: Blanks)
    ensures var t := Trim(s, blanks);
      exists i :: 0 <= i <= |s| - |t| && t == s[i..i + |t|]
        && AllBlank(s[..i], blanks) && AllBlank(s[i + |t|..], blanks)
    ensures var t := Trim(s, blanks);
      t == [] || (!IsBlank(t[0], blanks) && !IsBlank(t[|t| - 1], blanks))
  {
    TrimLeftSpec(s, blanks);
    var l := TrimLeft(s, blanks);
    TrimRightSpec(l, blanks);
    var t := Trim(s, blanks);
    var i := |s| - |l|;
    assert t == s[i..i + |t|];
    assert s[i + |t|..] == l[|t|..];
  }

  lemma {:induction false} TrimLeftPadding(w: string, x: string, blanks: Blanks)
    requires AllBlank(w, blanks)
    ensures TrimLeft(w + x, blanks) == TrimLeft(x, blanks)
  {
    if w != [] {
      assert (w + x)[1..] == w[1..] + x;
      TrimLeftPadding(w[1..], x, blanks);
    } else {
      assert w + x == x;
    }
  }

  lemma {:induction false} TrimRightPadding(x: string, w: string, blanks: Blanks)
    requires AllBlank(w, blanks)
    ensures TrimRight(x + w, blanks) == TrimRight(x, blanks)
  {
    if w != [] {
      assert (x + w)[..|x + w| - 1] == x + w[..|w| - 1];
      TrimRightPadding(x, w[..|w| - 1], blanks);
    } else {
      assert x + w == x;
    }
  }

  lemma {:induction false} TrimLeftTrailing(x: string, w: string, blanks: Blanks)
    requires AllBlank(w, blanks)
    ensures TrimLeft(x + w, blanks) == if TrimLeft(x, blanks) == [] then [] else TrimLeft(x, blanks) + w
  {
    if x == [] {
      assert x + w == w;
      TrimLeftPadding(w, [], blanks);
      assert w + [] == w;
    } else if IsBlank(x[0], blanks) {
      assert (x + w)[1..] == x[1..] + w;
      TrimLeftTrailing(x[1..], w, blanks);
    }
  }

  /** Whitespace around the text never matters to a trim. */
  lemma TrimPadding(w1: string, s: string, w2: string, blanks: Blanks)
    requires AllBlank(w1, blanks) && AllBlank(w2, blanks)
    ensures Trim(w1 + s + w2, blanks) == Trim(s, blanks)
  {
    assert w1 + s + w2 == w1 + (s + w2);
    TrimLeftPadding(w1, s + w2, blanks);
    TrimLeftTrailing(s, w2, blanks);
    if TrimLeft(s, blanks) != [] {
      TrimRightPadding(TrimLeft(s, blanks), w2, blanks);
    }
  }

  /** Text that already starts and ends with a non-blank character is unchanged. */
  lemma TrimUnchanged(s: string, blanks: Blanks)
    requires s != [] && !IsBlank(s[0], blanks) && !IsBlank(s[|s| - 1], blanks)
    ensures Trim(s, blanks) == s
  {
  }

  // ---------------------------------------------------------------------------
  // str.split(sep)

  /** Python's `s.split(sep)` for a one-character separator: every occurrence
      of `sep` cuts, so empty fields are kept. */
  function Split(s: string, sep: char): (parts: seq<string>)
    ensures |parts| >= 1
  {
    if s == [] then [[]]
    else
      var rest := Split(s[1..], sep);
      if s[0] == sep then [[]] + rest
      else [[s[0]] + rest[0]] + rest[1..]
  }

  /** The fields Split produces hold no separator, and joining them with the
      separator gives the text back. */
  lemma {:induction false} SplitSpec(s: string, sep: char)
    ensures forall k :: 0 <= k < |Split(s, sep)| ==> sep !in Split(s, sep)[k]
    ensures Join(Split(s, sep), sep) == s
  {
    if s != [] {
      var rest := Split(s[1..], sep);
      SplitSpec(s[1..], sep);
      if s[0] == sep {
        JoinAfterEmpty(rest, sep);
      } else {
        JoinExtendFirst(s[0], rest, sep);
      }
      assert s == [s[0]] + s[1..];
    }
  }

  /** Joining after an empty first field puts one separator in front. */
  lemma JoinAfterEmpty(rest: seq<string>, sep: char)
    requires |rest| >= 1
    ensures Join([[]] + rest, sep) == [sep] + Join(rest, sep)
  {
    assert ([[]] + rest)[1..] == rest;
  }

  /** Putting a character in front of the first field puts it in front of the join. */
  lemma JoinExtendFirst(c: char, rest: seq<string>, sep: char)
    requires |rest| >= 1
    ensures Join([[c] + rest[0]] + rest[1..], sep) == [c] + Join(rest, sep)
  {
    var parts := [[c] + rest[0]] + rest[1..];
    assert parts[1..] == rest[1..];
  }

  /** Python's `sep.join(parts)`, the inverse of Split. */
  function Join(parts: seq<string>, sep: char): string
    requires |parts| >= 1
  {
    if |parts| == 1 then parts[0] else parts[0] + [sep] + Join(parts[1..], sep)
  }

  lemma {:induction false} SplitWithoutSeparator(s: string, sep: char)
    requires sep !in s
    ensures Split(s, sep) == [s]
  {
    if s != [] {
      SplitWithoutSeparator(s[1..], sep);
      assert [s[0]] + s[1..] == s;
    }
  }

  lemma {:induction false} SplitAfterField(x: string, sep: char, y: string)
    requires sep !in x
    ensures Split(x + [sep] + y, sep) == [x] + Split(y, sep)
  {
    if x == [] {
      assert x + [sep] + y == [sep] + y;
      assert ([sep] + y)[1..] == y;
    } else {
      assert (x + [sep] + y)[1..] == x[1..] + [sep] + y;
      SplitAfterField(x[1..], sep, y);
      assert [x[0]] + x[1..] == x;
    }
  }

  /** Split is the only way to cut a text into separator-free fields whose
      join is the text. */
  lemma {:induction false} SplitJoin(parts: seq<string>, sep: char)
    requires |parts| >= 1
    requires forall k :: 0 <= k < |parts| ==> sep !in parts[k]
    ensures Split(Join(parts, sep), sep) == parts
  {
    if |parts| == 1 {
      SplitWithoutSeparator(parts[0], sep);
    } else {
      SplitJoin(parts[1..], sep);
      SplitAfterField(parts[0], sep, Join(parts[1..], sep));
      assert [parts[0]] + parts[1..] == parts;
    }
  }

  // ---------------------------------------------------------------------------
  // int(text, base)

  datatype Radix = Decimal | Hexadecimal

  function Base(radix: Radix): nat {
    if radix == Decimal then 10 else 16
  }

  predicate IsDigit(ch: char, radix: Radix) {
    ('0' <= ch <= '9')
    || (radix == Hexadecimal && (('a' <= ch <= 'f') || ('A' <= ch <= 'F')))
  }

  function DigitValue(ch: char, radix: Radix): (v: nat)
    requires IsDigit(ch, radix)
    ensures v < Base(radix)
  {
    if '0' <= ch <= '9' then ch as int - '0' as int
    else if 'a' <= ch <= 'f' then ch as int - 'a' as int + 10
    else ch as int - 'A' as int + 10
  }

  /** The digit part of a Python integer literal: digits, with single
      underscores allowed between two digits. Read from the right: a digit,
      preceded by nothing, by a group, or by an underscore after a group. */
  predicate IsDigitGroup(s: string, radix: Radix)
    decreases |s|
  {
    |s| > 0 && IsDigit(s[|s| - 1], radix)
    && (|s| == 1 ||
        var p := s[..|s| - 1];
        if p[|p| - 1] == '_' then IsDigitGroup(p[..|p| - 1], radix) else IsDigitGroup(p, radix))
  }

  /** The value of a digit group, underscores ignored. */
  function GroupValue(s: string, radix: Radix): nat
    requires IsDigitGroup(s, radix)
    decreases |s|
  {
    var d := DigitValue(s[|s| - 1], radix);
    if |s| == 1 then d
    else
      var p := s[..|s| - 1];
      (if p[|p| - 1] == '_' then GroupValue(p[..|p| - 1], radix) else GroupValue(p, radix))
        * Base(radix) + d
  }

  lemma {:induction false} GroupStartsWithDigit(s: string, radix: Radix)
    requires IsDigitGroup(s, radix)
    ensures IsDigit(s[0], radix)
  {
    if |s| > 1 {
      var p := s[..|s| - 1];
      if p[|p| - 1] == '_' {
        GroupStartsWithDigit(p[..|p| - 1], radix);
      } else {
        GroupStartsWithDigit(p, radix);
      }
    }
  }

  /** For base 16, `int()` skips a `0x`/`0X` prefix, and one underscore after it. */
  function WithoutPrefix(u: string, radix: Radix): string {
    if radix == Hexadecimal && |u| >= 2 && u[0] == '0' && (u[1] == 'x' || u[1] == 'X') then
      if |u| >= 3 && u[2] == '_' then u[3..] else u[2..]
    else u
  }

  /** Python's `int(text, base)`: surrounding whitespace, then an optional sign,
      then (base 16) an optional prefix, then a digit group. None stands for the
      ValueError it raises. */
  function IntLiteral(text: string, radix: Radix): Option<int> {
    ReadSigned(Trim(text, IntBlanks), radix)
  }

  /** The stripped text: an optional sign, then the unsigned part. */
  function ReadSigned(t: string, radix: Radix): Option<int> {
    if |t| > 0 && (t[0] == '+' || t[0] == '-') then
      match ReadUnsigned(t[1..], radix)
      case None => None
      case Some(v) => Some(if t[0] == '-' then -v else v)
    else ReadUnsigned(t, radix)
  }

  function ReadUnsigned(u: string, radix: Radix): Option<int> {
    var digits := WithoutPrefix(u, radix);
    if IsDigitGroup(digits, radix) then Some(GroupValue(digits, radix) as int) else None
  }

  // ---------------------------------------------------------------------------
  // str(n): the decimal text of an integer

  function DigitChar(d: nat): (ch: char)
    requires d < 16
    ensures IsDigit(ch, Hexadecimal) && DigitValue(ch, Hexadecimal) == d
    ensures d < 10 ==> IsDigit(ch, Decimal) && DigitValue(ch, Decimal) == d
  {
    "0123456789abcdef"[d]
  }

  function NatDigits(n: nat): (s: string)
    ensures |s| > 0
    ensures forall k :: 0 <= k < |s| ==> IsDigit(s[k], Decimal)
  {
    if n < 10 then [DigitChar(n)] else NatDigits(n / 10) + [DigitChar(n % 10)]
  }

  /** Python's `str(n)`: a `-` for negative numbers, then the decimal digits. */
  function FormatInt(n: int): string {
    if n < 0 then "-" + NatDigits(-n) else NatDigits(n)
  }

  /** `str(n)` is never empty, has no whitespace at its ends and holds no comma. */
  lemma FormatIntShape(n: int)
    ensures var s := FormatInt(n);
      |s| > 0 && !IsSpace(s[0]) && !IsSpace(s[|s| - 1]) && ',' !in s
  {
    var d := NatDigits(if n < 0 then -n else n);
    assert d[|d| - 1] in d;
    if n < 0 {
      assert FormatInt(n) == "-" + d;
    }
  }

  lemma {:induction false} NatDigitsValue(n: nat)
    ensures IsDigitGroup(NatDigits(n), Decimal)
    ensures GroupValue(NatDigits(n), Decimal) == n
  {
    var s := NatDigits(n);
    if n >= 10 {
      NatDigitsValue(n / 10);
      assert s[..|s| - 1] == NatDigits(n / 10);
    }
  }

  /** In base 10 the unsigned part is read as its digit group. */
  lemma DecimalGroupRead(s: string)
    requires IsDigitGroup(s, Decimal)
    ensures ReadUnsigned(s, Decimal) == Some(GroupValue(s, Decimal) as int)
  {
  }

  /** A literal without sign or whitespace reads as its digit group. */
  lemma UnsignedLiteral(s: string)
    requires IsDigitGroup(s, Decimal)
    ensures IntLiteral(s, Decimal) == Some(GroupValue(s, Decimal) as int)
  {
    GroupStartsWithDigit(s, Decimal);
    TrimUnchanged(s, IntBlanks);
    DecimalGroupRead(s);
  }

  /** A `-` before a digit group negates its value. */
  lemma NegatedLiteral(s: string)
    requires IsDigitGroup(s, Decimal)
    ensures IntLiteral("-" + s, Decimal) == Some(-(GroupValue(s, Decimal) as int))
  {
    var t := "-" + s;
    assert t[1..] == s && t[|t| - 1] == s[|s| - 1];
    assert Trim(t, IntBlanks) == t by {
      GroupStartsWithDigit(s, Decimal);
      TrimUnchanged(t, IntBlanks);
    }
    DecimalGroupRead(s);
  }

  /** `int(str(n))` gives back `n`, for every integer. */
  lemma FormatIntRoundTrip(n: int)
    ensures IntLiteral(FormatInt(n), Decimal) == Some(n)
  {
    if n < 0 {
      var s := NatDigits(-n);
      assert FormatInt(n) == "-" + s;
      NatDigitsValue(-n);
      NegatedLiteral(s);
    } else {
      NatDigitsValue(n);
      UnsignedLiteral(NatDigits(n));
    }
  }

  /** What `int()`'s trim leaves of a two-character text. */
  lemma TrimPair(a: char, b: char)
    ensures !IsBlank(a, IntBlanks) && !IsBlank(b, IntBlanks) ==> Trim([a, b], IntBlanks) == [a, b]
    ensures IsBlank(a, IntBlanks) && !IsBlank(b, IntBlanks) ==> Trim([a, b], IntBlanks) == [b]
    ensures !IsBlank(a, IntBlanks) && IsBlank(b, IntBlanks) ==> Trim([a, b], IntBlanks) == [a]
    ensures IsBlank(a, IntBlanks) && IsBlank(b, IntBlanks) ==> Trim([a, b], IntBlanks) == []
  {
    var s := [a, b];
    assert s[1..] == [b] && s[..1] == [a];
    if IsBlank(a, IntBlanks) {
      assert TrimLeft(s, IntBlanks) == TrimLeft([b], IntBlanks);
      if IsBlank(b, IntBlanks) {
        assert [b][1..] == [];
        assert TrimLeft([b], IntBlanks) == [];
      }
    } else {
      assert TrimLeft(s, IntBlanks) == s;
      if IsBlank(b, IntBlanks) {
        assert TrimRight(s, IntBlanks) == TrimRight([a], IntBlanks);
      }
    }
  }

  /** `int(c, 16)` on one character that `int()` does not skip. */
  lemma HexSingle(c: char)
    requires !IsBlank(c, IntBlanks)
    ensures IntLiteral([c], Hexadecimal)
      == if IsDigit(c, Hexadecimal) then Some(DigitValue(c, Hexadecimal) as int) else None
  {
    TrimUnchanged([c], IntBlanks);
    assert Trim([c], IntBlanks) == [c];
    var digits := WithoutPrefix(if c == '+' || c == '-' then [] else [c], Hexadecimal);
    if IsDigit(c, Hexadecimal) {
      assert digits == [c];
      assert IsDigitGroup(digits, Hexadecimal);
      assert [c][..0] == [];
      assert GroupValue([c], Hexadecimal) == DigitValue(c, Hexadecimal);
    } else {
      assert !IsDigitGroup(digits, Hexadecimal);
    }
  }

  /** `int(ab, 16)` on two characters that `int()` does not skip. */
  lemma HexDouble(a: char, b: char)
    requires !IsBlank(a, IntBlanks) && !IsBlank(b, IntBlanks)
    ensures IntLiteral([a, b], Hexadecimal) ==
      if IsDigit(a, Hexadecimal) && IsDigit(b, Hexadecimal) then
        Some(16 * DigitValue(a, Hexadecimal) + DigitValue(b, Hexadecimal))
      else if a == '+' && IsDigit(b, Hexadecimal) then Some(DigitValue(b, Hexadecimal) as int)
      else if a == '-' && IsDigit(b, Hexadecimal) then Some(-(DigitValue(b, Hexadecimal) as int))
      else None
  {
    var s := [a, b];
    TrimUnchanged(s, IntBlanks);
    assert Trim(s, IntBlanks) == s;
    if a == '+' || a == '-' {
      assert s[1..] == [b];
      assert WithoutPrefix([b], Hexadecimal) == [b];
      if IsDigit(b, Hexadecimal) {
        assert IsDigitGroup([b], Hexadecimal);
        assert [b][..0] == [];
        assert GroupValue([b], Hexadecimal) == DigitValue(b, Hexadecimal);
      } else {
        assert !IsDigitGroup([b], Hexadecimal);
      }
    } else {
      var digits := WithoutPrefix(s, Hexadecimal);
      if IsDigit(a, Hexadecimal) && IsDigit(b, Hexadecimal) {
        assert digits == s;
        assert IsDigitGroup(s, Hexadecimal);
        assert s[..|s| - 1] == [a];
        assert [a][..0] == [];
        assert GroupValue([a], Hexadecimal) == DigitValue(a, Hexadecimal);
        assert GroupValue(s, Hexadecimal)
          == 16 * DigitValue(a, Hexadecimal) + DigitValue(b, Hexadecimal);
      } else {
        assert !IsDigitGroup(digits, Hexadecimal);
      }
    }
  }

  /** What a two-character channel text means to `int(p, 16)`: two hex digits,
      or one hex digit beside whitespace `int()` skips or after a sign; anything
      else is refused. */
  function HexPairMeaning(a: char, b: char): Option<int> {
    if IsDigit(a, Hexadecimal) && IsDigit(b, Hexadecimal) then
      Some(16 * DigitValue(a, Hexadecimal) + DigitValue(b, Hexadecimal))
    else if (IsBlank(a, IntBlanks) || a == '+') && IsDigit(b, Hexadecimal) then
      Some(DigitValue(b, Hexadecimal) as int)
    else if a == '-' && IsDigit(b, Hexadecimal) then
      Some(-(DigitValue(b, Hexadecimal) as int))
    else if IsDigit(a, Hexadecimal) && IsBlank(b, IntBlanks) then
      Some(DigitValue(a, Hexadecimal) as int)
    else None
  }

  /** `int(p, 16)` on every two-character text agrees with HexPairMeaning. */
  lemma HexPairValue(a: char, b: char)
    ensures IntLiteral([a, b], Hexadecimal) == HexPairMeaning(a, b)
  {
    if IsBlank(a, IntBlanks) && IsBlank(b, IntBlanks) {
      SpacedPair(a, b);
    } else if IsBlank(a, IntBlanks) || IsBlank(b, IntBlanks) {
      HalfSpacedPair(a, b);
    } else {
      HexDouble(a, b);
    }
  }

  lemma SpacedPair(a: char, b: char)
    requires IsBlank(a, IntBlanks) && IsBlank(b, IntBlanks)
    ensures IntLiteral([a, b], Hexadecimal) == HexPairMeaning(a, b)
  {
    TrimPair(a, b);
    assert !IsDigit(a, Hexadecimal) && !IsDigit(b, Hexadecimal);
  }

  lemma HalfSpacedPair(a: char, b: char)
    requires IsBlank(a, IntBlanks) != IsBlank(b, IntBlanks)
    ensures IntLiteral([a, b], Hexadecimal) == HexPairMeaning(a, b)
  {
    if IsBlank(a, IntBlanks) {
      assert IntLiteral([a, b], Hexadecimal) == IntLiteral([b], Hexadecimal) by {
        TrimPair(a, b);
        TrimUnchanged([b], IntBlanks);
      }
      HexSingle(b);
    } else {
      assert IntLiteral([a, b], Hexadecimal) == IntLiteral([a], Hexadecimal) by {
        TrimPair(a, b);
        TrimUnchanged([a], IntBlanks);
      }
      HexSingle(a);
    }
  }

  /** A text made only of whitespace is not a number: `int('')` and
      `int(' ')` raise, and so do the separators U+001C..U+001F, which `int()`
      does not skip. */
  lemma BlankLiteral(w: string, radix: Radix)
    requires AllSpace(w)
    ensures IntLiteral(w, radix) == None
  {
    var l := TrimLeft(w, IntBlanks);
    var t := Trim(w, IntBlanks);
    TrimLeftSpec(w, IntBlanks);
    TrimRightSpec(l, IntBlanks);
    if t != [] {
      var i := |w| - |l|;
      assert IsSpace(t[0]) && IsSpace(t[|t| - 1]) by {
        assert t[0] == l[0] == w[i];
        assert t[|t| - 1] == l[|t| - 1] == w[i + |t| - 1];
      }
      assert WithoutPrefix(t, radix) == t;
      assert !IsDigitGroup(t, radix);
    }
  }

  /** `int()` does not skip the separators U+001C..U+001F, although
      `strip()` does: a text that starts with one is refused. */
  lemma SeparatorNotSkipped(c: char, d: char, radix: Radix)
    requires '\U{1c}' <= c <= '\U{1f}'
    ensures IsSpace(c) && IntLiteral([c, d], radix) == None
  {
    var t := Trim([c, d], IntBlanks);
    assert TrimLeft([c, d], IntBlanks) == [c, d];
    assert t == [c, d] || t == [c] by {
      if IsBlank(d, IntBlanks) {
        assert [c, d][..1] == [c];
        assert TrimRight([c], IntBlanks) == [c];
      }
    }
    assert WithoutPrefix(t, radix) == t;
    assert [c, d][..1] == [c];
    assert !IsDigitGroup([c], radix);
  }
}
