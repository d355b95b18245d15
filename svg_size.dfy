/**
 * The dimension rule of the SVG branch of `handleImage`: the `viewBox`
 * attribute of the root element split on a single space, its third and
 * fourth pieces read with JavaScript's `parseInt`, and the `width` and
 * `height` attributes as the fallback when `viewBox` is absent or empty.
 *
 * `parseInt` yields `NaN` when no digit can be read; both `NaN` and a missing
 * value are `None` here.
 */
module SvgSize {
  import opened Wrappers
  import opened Text

  /**
   * The root element's `viewBox`, `width` and `height` attributes as text,
   * `None` when absent.
   */
  datatype SvgRoot = SvgRoot(viewBox: Option<string>, width: Option<string>, height: Option<string>)

  /** Width and height; `None` stands for `NaN`. */
  datatype Size = Size(width: Option<int>, height: Option<int>)

  /** The white space and line terminators that `parseInt` skips at the start (ECMAScript's StrWhiteSpaceChar). */
  predicate IsJsWhiteSpace(ch: char)
  {
    ch == '\t' || ch == '\n' || ch == '\U{000B}' || ch == '\U{000C}' || ch == '\r' || ch == ' '
    || ch == '\U{00A0}' || ch == '\U{1680}' || ('\U{2000}' <= ch <= '\U{200A}')
    || ch == '\U{2028}' || ch == '\U{2029}' || ch == '\U{202F}' || ch == '\U{205F}'
    || ch == '\U{3000}' || ch == '\U{FEFF}'
  }

  /** `s` without its leading white space. */
  function TrimStart(s: string): string
    decreases |s|
  {
    if |s| > 0 && IsJsWhiteSpace(s[0]) then TrimStart(s[1..]) else s
  }

  /** Trimming removes a run of white space from the front and stops at the first other character. */
  lemma {:induction false} TrimStartSkipsWhiteSpace(s: string)
    ensures |TrimStart(s)| <= |s| && TrimStart(s) == s[|s| - |TrimStart(s)|..]
    ensures |TrimStart(s)| > 0 ==> !IsJsWhiteSpace(TrimStart(s)[0])
    ensures forall i :: 0 <= i < |s| - |TrimStart(s)| ==> IsJsWhiteSpace(s[i])
    decreases |s|
  {
    if |s| > 0 && IsJsWhiteSpace(s[0]) {
      TrimStartSkipsWhiteSpace(s[1..]);
      var r := TrimStart(s);
      forall i | 0 <= i < |s| - |r|
        ensures IsJsWhiteSpace(s[i])
      {
        if i > 0 {
          assert s[i] == s[1..][i - 1];
        }
      }
    }
  }

  /** The value of a digit in radix 10 or 16, or -1 for a character that is not one. */
  function DigitValue(ch: char, radix: nat): int
  {
    if '0' <= ch <= '9' then (if (ch as int) - ('0' as int) < radix then (ch as int) - ('0' as int) else -1)
    else if radix == 16 && 'a' <= ch <= 'f' then (ch as int) - ('a' as int) + 10
    else if radix == 16 && 'A' <= ch <= 'F' then (ch as int) - ('A' as int) + 10
    else -1
  }

  /** The number of leading characters of `s` that are digits in `radix`. */
  function DigitPrefixLength(s: string, radix: nat): (n: nat)
    ensures n <= |s|
    decreases |s|
  {
    if |s| == 0 || DigitValue(s[0], radix) < 0 then 0 else 1 + DigitPrefixLength(s[1..], radix)
  }

  /** The value of a string of digits in `radix`. */
  function DigitsValue(s: string, radix: nat): nat
    decreases |s|
  {
    if |s| == 0 then 0
    else
      var d := DigitValue(s[|s| - 1], radix);
      DigitsValue(s[..|s| - 1], radix) * radix + (if d < 0 then 0 else d)
  }

  /**
   * The digits of `u` after the sign: hexadecimal after `0x`/`0X`, decimal
   * otherwise, up to the first character that is not a digit; `None` when
   * there is no digit.
   */
  function ReadUnsigned(u: string): (r: Option<int>)
    ensures r.Some? ==> r.value >= 0
  {
    var hex := |u| >= 2 && u[0] == '0' && (u[1] == 'x' || u[1] == 'X');
    var radix := if hex then 16 else 10;
    var digits := if hex then u[2..] else u;
    var len := DigitPrefixLength(digits, radix);
    if len == 0 then None else Some(DigitsValue(digits[..len], radix))
  }

  /** `parseInt` after the leading white space: one optional sign, then the digits. */
  function ParseTrimmed(t: string): Option<int>
  {
    if |t| > 0 && t[0] == '-' then
      match ReadUnsigned(t[1..])
      case None => None
      case Some(m) => Some(-m)
    else if |t| > 0 && t[0] == '+' then ReadUnsigned(t[1..])
    else ReadUnsigned(t)
  }

  /**
   * `parseInt(s)` with no radix: skip leading white space, take one sign,
   * read hexadecimal after `0x`/`0X` and decimal otherwise, and stop at the
   * first character that is not a digit; `None` (`NaN`) when no digit was read.
   */
  function ParseInt(s: string): Option<int>
  {
    ParseTrimmed(TrimStart(s))
  }

  /** The decimal digit character of `d`. */
  function DigitChar(d: nat): char
    requires d < 10
  {
    ('0' as int + d) as char
  }

  /** The decimal numeral of `n`, as `String(n)` writes it. */
  function Decimal(n: nat): (r: string)
    ensures |r| >= 1
    ensures forall i :: 0 <= i < |r| ==> '0' <= r[i] <= '9'
    decreases n
  {
    if n < 10 then [DigitChar(n)] else Decimal(n / 10) + [DigitChar(n % 10)]
  }

  /** A decimal numeral reads back as its number. */
  lemma {:induction false} DecimalValue(n: nat)
    ensures DigitsValue(Decimal(n), 10) == n
    decreases n
  {
    var r := Decimal(n);
    if n >= 10 {
      DecimalValue(n / 10);
      assert r[..|r| - 1] == Decimal(n / 10);
      assert r[|r| - 1] == DigitChar(n % 10);
    } else {
      assert r[..0] == [];
    }
  }

  /** The digit prefix of a run of digits followed by a non-digit is that run. */
  lemma {:induction false} DigitPrefixOfDigits(a: string, t: string, radix: nat)
    requires forall i :: 0 <= i < |a| ==> DigitValue(a[i], radix) >= 0
    ensures DigitPrefixLength(a + t, radix) == |a| + DigitPrefixLength(t, radix)
    decreases |a|
  {
    if |a| > 0 {
      assert (a + t)[0] == a[0];
      assert (a + t)[1..] == a[1..] + t;
      DigitPrefixOfDigits(a[1..], t, radix);
    } else {
      assert a + t == t;
    }
  }

  /** The digits of `String(n)`, followed by text that does not continue them, read as `n`. */
  lemma ReadDecimal(n: nat, t: string)
    requires t == [] || (DigitValue(t[0], 10) < 0 && t[0] != 'x' && t[0] != 'X')
    ensures ReadUnsigned(Decimal(n) + t) == Some(n)
  {
    var d := Decimal(n);
    DecimalValue(n);
    DigitPrefixOfDigits(d, t, 10);
    assert (d + t)[..|d|] == d;
    assert DigitPrefixLength(t, 10) == 0;
    if |d| >= 2 {
      assert (d + t)[1] == d[1];
    } else if t != [] {
      assert (d + t)[1] == t[0];
    }
  }

  /** Text that does not start with white space is not trimmed. */
  lemma TrimStartKeeps(s: string)
    requires |s| > 0 && !IsJsWhiteSpace(s[0])
    ensures TrimStart(s) == s
  {
  }

  /** `parseInt(String(n))` is `n`, also when text that does not continue the number follows. */
  lemma ParseDecimal(n: nat, t: string)
    requires t == [] || (DigitValue(t[0], 10) < 0 && t[0] != 'x' && t[0] != 'X')
    ensures ParseInt(Decimal(n) + t) == Some(n)
  {
    var d := Decimal(n);
    var s := d + t;
    ReadDecimal(n, t);
    assert s[0] == d[0];
    TrimStartKeeps(s);
  }

  /** `parseInt("-" + String(n))` is `-n`. */
  lemma ParseNegativeDecimal(n: nat, t: string)
    requires t == [] || (DigitValue(t[0], 10) < 0 && t[0] != 'x' && t[0] != 'X')
    ensures ParseInt("-" + Decimal(n) + t) == Some(-(n as int))
  {
    var u := Decimal(n) + t;
    var m := "-" + u;
    assert "-" + Decimal(n) + t == m;
    ReadDecimal(n, t);
    assert m[0] == '-' && m[1..] == u;
    TrimStartKeeps(m);
    assert ParseTrimmed(m) == Some(-(n as int));
  }

  /** Leading white space does not change what `parseInt` reads. */
  lemma SkipsLeadingWhiteSpace(ws: string, s: string)
    requires forall i :: 0 <= i < |ws| ==> IsJsWhiteSpace(ws[i])
    ensures ParseInt(ws + s) == ParseInt(s)
  {
    TrimStartAfterWhiteSpace(ws, s);
  }

  lemma {:induction false} TrimStartAfterWhiteSpace(ws: string, s: string)
    requires forall i :: 0 <= i < |ws| ==> IsJsWhiteSpace(ws[i])
    ensures TrimStart(ws + s) == TrimStart(s)
    decreases |ws|
  {
    if |ws| > 0 {
      assert (ws + s)[0] == ws[0];
      assert (ws + s)[1..] == ws[1..] + s;
      TrimStartAfterWhiteSpace(ws[1..], s);
    } else {
      assert ws + s == s;
    }
  }

  /** `parseInt` of an absent attribute, that is of `undefined`, is `NaN`. */
  function ParseAttribute(a: Option<string>): Option<int>
  {
    match a
    case None => None
    case Some(s) => ParseInt(s)
  }

  /** `parts[k]`, `undefined` past the end. */
  function Part(parts: seq<string>, k: nat): Option<string>
  {
    if k < |parts| then Some(parts[k]) else None
  }

  /**
   * The width and height of an SVG image: pieces 2 and 3 of `viewBox` split
   * on one space when `viewBox` is present and non-empty, the `width` and
   * `height` attributes otherwise.
   */
  function SvgDimensions(root: SvgRoot): Size
  {
    if root.viewBox.Some? && root.viewBox.value != "" then
      var parts := Split(root.viewBox.value, ' ');
      Size(ParseAttribute(Part(parts, 2)), ParseAttribute(Part(parts, 3)))
    else
      Size(ParseAttribute(root.width), ParseAttribute(root.height))
  }

  /** `imageSize = width * height`: `NaN` when either is. */
  function Area(size: Size): (r: Option<int>)
    ensures r.Some? <==> size.width.Some? && size.height.Some?
    ensures size.width == Some(0) && size.height.Some? ==> r == Some(0)
  {
    if size.width.Some? && size.height.Some? then Some(size.width.value * size.height.value) else None
  }

  /** Four space-free pieces joined by single spaces split back into those four. */
  lemma SplitFourPieces(a: string, b: string, c: string, d: string)
    requires ' ' !in a && ' ' !in b && ' ' !in c && ' ' !in d
    ensures Split(a + " " + b + " " + c + " " + d, ' ') == [a, b, c, d]
  {
    var s3 := c + [' '] + d;
    var s2 := b + [' '] + s3;
    var s1 := a + [' '] + s2;
    assert a + " " + b + " " + c + " " + d == s1;
    SplitWithout(d, ' ');
    SplitAtFirst(c, ' ', d);
    assert Split(s3, ' ') == [c, d];
    SplitAtFirst(b, ' ', s3);
    assert Split(s2, ' ') == [b, c, d];
    SplitAtFirst(a, ' ', s2);
  }

  /** A decimal numeral holds no space. */
  lemma DecimalHasNoSpace(n: nat)
    ensures ' ' !in Decimal(n)
  {
  }

  /** A viewBox `x y W H` written with single spaces gives width `W` and height `H`, whatever the attributes say. */
  lemma ViewBoxGivesSize(x: string, y: string, w: nat, h: nat, width: Option<string>, height: Option<string>)
    requires ' ' !in x && ' ' !in y
    ensures SvgDimensions(SvgRoot(Some(x + " " + y + " " + Decimal(w) + " " + Decimal(h)), width, height))
         == Size(Some(w), Some(h))
  {
    var dw, dh := Decimal(w), Decimal(h);
    var v := x + " " + y + " " + dw + " " + dh;
    DecimalHasNoSpace(w);
    DecimalHasNoSpace(h);
    SplitFourPieces(x, y, dw, dh);
    var parts := Split(v, ' ');
    assert Part(parts, 2) == Some(dw) && Part(parts, 3) == Some(dh);
    ParseDecimal(w, []);
    ParseDecimal(h, []);
    assert dw + [] == dw && dh + [] == dh;
    assert ParseAttribute(Some(dw)) == Some(w);
    assert ParseAttribute(Some(dh)) == Some(h);
    assert v != "" by {
      assert |v| >= |x| + 3;
    }
  }

  /** Without a viewBox the `width` and `height` attributes are read. */
  lemma AttributesWithoutViewBox(w: nat, h: nat)
    ensures SvgDimensions(SvgRoot(None, Some(Decimal(w)), Some(Decimal(h)))) == Size(Some(w), Some(h))
    ensures SvgDimensions(SvgRoot(Some(""), Some(Decimal(w)), Some(Decimal(h)))) == Size(Some(w), Some(h))
  {
    ParseDecimal(w, []);
    ParseDecimal(h, []);
    assert Decimal(w) + [] == Decimal(w) && Decimal(h) + [] == Decimal(h);
  }

  /** A comma-separated viewBox, which SVG allows, has no third piece: both dimensions are `NaN`. */
  lemma CommaViewBoxIsNaN(width: Option<string>, height: Option<string>)
    ensures SvgDimensions(SvgRoot(Some("0,0,24,24"), width, height)) == Size(None, None)
  {
    SplitWithout("0,0,24,24", ' ');
  }
}
