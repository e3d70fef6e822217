/**
  Python's `int(str)` for base-10 text, and the decimal rendering of integers
  (`str(n)` / f-string formatting) that it inverts.
 */
module Numbers {
  import opened Wrappers
  import Text

  predicate IsDigit(c: char) {
    '0' <= c <= '9'
  }

  predicate AllDigits(s: string) {
    forall k :: 0 <= k < |s| ==> IsDigit(s[k])
  }

  function DigitValue(c: char): nat
    requires IsDigit(c)
  {
    c as int - '0' as int
  }

  function DigitChar(d: nat): (c: char)
    requires d < 10
    ensures IsDigit(c) && DigitValue(c) == d
  {
    ('0' as int + d) as char
  }

  /** The number a string of decimal digits denotes (leading zeros allowed). */
  function Value(ds: string): nat
    requires AllDigits(ds)
  {
    if |ds| == 0 then 0
    else Value(ds[..|ds| - 1]) * 10 + DigitValue(ds[|ds| - 1])
  }

  /** Python's digit grammar for `int()`: digits, where single underscores may
      separate two digits. */
  predicate WellFormedDigits(s: string) {
    && |s| > 0
    && IsDigit(s[0])
    && IsDigit(s[|s| - 1])
    && (forall k :: 0 <= k < |s| ==> IsDigit(s[k]) || s[k] == '_')
    && (forall k :: 0 <= k < |s| - 1 ==> !(s[k] == '_' && s[k + 1] == '_'))
  }

  /** `s` without its underscores. */
  function DropUnderscores(s: string): (r: string)
    ensures |r| <= |s|
    ensures (forall k :: 0 <= k < |s| ==> IsDigit(s[k]) || s[k] == '_') ==> AllDigits(r)
    ensures AllDigits(s) ==> r == s
  {
    if |s| == 0 then []
    else if s[0] == '_' then DropUnderscores(s[1..])
    else [s[0]] + DropUnderscores(s[1..])
  }

  /** CPython's default `sys.int_max_str_digits`: `int()` raises
      `ValueError` on a literal with more digits (underscores not counted),
      and `str()` raises on an integer with more digits. */
  const MaxStrDigits: nat := 4300

  /** An unsigned decimal literal as Python's `int()` reads it, within the
      digit limit. */
  function ParseDecimal(s: string): (r: Option<nat>)
    ensures r.Some? <==> WellFormedDigits(s) && |DropUnderscores(s)| <= MaxStrDigits
  {
    if WellFormedDigits(s) && |DropUnderscores(s)| <= MaxStrDigits then Some(Value(DropUnderscores(s)))
    else None
  }

  /** An optional sign followed by a decimal literal, with no surrounding
      whitespace. */
  function ParseSigned(t: string): (r: Option<int>)
    ensures t == [] ==> r.None?
    ensures r.Some? && r.value < 0 ==> |t| > 0 && t[0] == '-'
  {
    if |t| > 0 && t[0] == '+' then
      match ParseDecimal(t[1..])
      case Some(n) => Some(n)
      case None => None
    else if |t| > 0 && t[0] == '-' then
      match ParseDecimal(t[1..])
      case Some(n) => Some(0 - n)
      case None => None
    else
      match ParseDecimal(t)
      case Some(n) => Some(n)
      case None => None
  }

  /** The whitespace Python's `int()` skips around a number: the ASCII
      whitespace and the non-ASCII `str.isspace` characters. The four
      separators U+001C to U+001F count as space for `str.isspace` but not
      here. */
  predicate IsIntSpace(c: char) {
    Text.IsPySpace(c) && !('\U{1C}' <= c <= '\U{1F}')
  }

  /** Python `int(s)`: surrounding whitespace, then an optional sign, then a
      decimal literal; `None` where Python raises `ValueError`. */
  function ParseInt(s: string): (r: Option<int>)
    ensures Text.Strip(s, IsIntSpace) == [] ==> r.None?
    ensures r.Some? && r.value < 0 ==> '-' in s
  {
    var t := Text.Strip(s, IsIntSpace);
    var r := ParseSigned(t);
    assert r.Some? && r.value < 0 ==> '-' in s by {
      if r.Some? && r.value < 0 {
        Text.StripKeepsFirst(s, IsIntSpace);
      }
    }
    r
  }

  /** Decimal rendering of a natural number, without leading zeros. */
  function ShowNat(n: nat): (s: string)
    ensures |s| >= 1
    ensures AllDigits(s)
    decreases n
  {
    if n < 10 then [DigitChar(n)]
    else ShowNat(n / 10) + [DigitChar(n % 10)]
  }

  /** Decimal rendering of an integer, with a leading `-` when negative. */
  function ShowInt(i: int): (s: string)
    ensures |s| >= 1
  {
    if i < 0 then "-" + ShowNat(-i) else ShowNat(i)
  }

  /** The number of decimal digits of `i`, the count the digit limit
      applies to. */
  function DigitCount(i: int): nat {
    if i < 0 then |ShowNat(-i)| else |ShowNat(i)|
  }

  /** Reading back a rendered natural number gives the number. */
  lemma {:induction false} ValueShowNat(n: nat)
    ensures Value(ShowNat(n)) == n
    decreases n
  {
    if n >= 10 {
      var s := ShowNat(n);
      assert s[..|s| - 1] == ShowNat(n / 10);
      ValueShowNat(n / 10);
    }
  }

  lemma ParseDecimalShowNat(n: nat)
    requires |ShowNat(n)| <= MaxStrDigits
    ensures ParseDecimal(ShowNat(n)) == Some(n)
  {
    var s := ShowNat(n);
    assert WellFormedDigits(s);
    ValueShowNat(n);
  }

  lemma DigitNotSpace(c: char)
    requires IsDigit(c)
    ensures !Text.IsPySpace(c) && !IsIntSpace(c)
  {
  }

  /** Text that neither starts nor ends with whitespace parses as it is. */
  lemma ParseIntUnpadded(s: string)
    requires |s| > 0 && !IsIntSpace(s[0]) && !IsIntSpace(s[|s| - 1])
    ensures ParseInt(s) == ParseSigned(s)
  {
    Text.StripFixed(s, IsIntSpace);
  }

  /** A number followed by the file separator U+001C does not parse, although
      `str.strip()` would remove the separator. */
  lemma SeparatorNotSkipped(n: nat)
    ensures Text.Strip(ShowNat(n) + "\U{1C}", Text.IsPySpace) == ShowNat(n)
    ensures ParseInt(ShowNat(n) + "\U{1C}").None?
  {
    var d := ShowNat(n);
    var s := d + "\U{1C}";
    DigitNotSpace(d[0]);
    DigitNotSpace(d[|d| - 1]);
    assert ParseInt(s) == ParseSigned(s) by {
      assert s[0] == d[0];
      ParseIntUnpadded(s);
    }
    assert !WellFormedDigits(s) && !WellFormedDigits(s[1..]) by {
      assert s[|s| - 1] == '\U{1C}';
      assert s[1..][|s| - 2] == '\U{1C}';
    }
    assert Text.Strip(s, Text.IsPySpace) == d by {
      assert s == [] + d + "\U{1C}";
      Text.StripBothPads([], d, "\U{1C}", Text.IsPySpace);
    }
  }

  lemma ParseIntShowNat(n: nat)
    requires |ShowNat(n)| <= MaxStrDigits
    ensures ParseInt(ShowNat(n)) == Some(n)
  {
    var s := ShowNat(n);
    DigitNotSpace(s[0]);
    DigitNotSpace(s[|s| - 1]);
    ParseIntUnpadded(s);
    assert ParseSigned(s) == Some(n) by {
      assert s[0] != '+' && s[0] != '-';
      ParseDecimalShowNat(n);
    }
  }

  lemma ParseIntShowNegative(n: nat)
    requires n > 0 && |ShowNat(n)| <= MaxStrDigits
    ensures ParseInt("-" + ShowNat(n)) == Some(0 - n)
  {
    var digits := ShowNat(n);
    var s := "-" + digits;
    DigitNotSpace(digits[|digits| - 1]);
    assert s[|s| - 1] == digits[|digits| - 1];
    ParseIntUnpadded(s);
    ParseDecimalShowNat(n);
    ParseSignedMinus(digits, n);
  }

  /** A minus sign in front of a decimal literal negates it. */
  lemma ParseSignedMinus(d: string, m: nat)
    requires ParseDecimal(d) == Some(m)
    ensures ParseSigned("-" + d) == Some(0 - m)
  {
    var t := "-" + d;
    assert t[0] == '-' && t[1..] == d;
  }

  /** `int(str(i)) == i` for every integer within the digit limit. */
  lemma ParseIntShowInt(i: int)
    requires DigitCount(i) <= MaxStrDigits
    ensures ParseInt(ShowInt(i)) == Some(i)
  {
    if i < 0 {
      var m: nat := -i;
      ParseIntShowNegative(m);
      assert ShowInt(i) == "-" + ShowNat(m);
    } else {
      var m: nat := i;
      ParseIntShowNat(m);
      assert ShowInt(i) == ShowNat(m);
    }
  }

  /** A number with more digits than the limit does not parse. */
  lemma ParseIntTooLong(n: nat)
    requires |ShowNat(n)| > MaxStrDigits
    ensures ParseInt(ShowNat(n)).None?
  {
    var s := ShowNat(n);
    DigitNotSpace(s[0]);
    DigitNotSpace(s[|s| - 1]);
    ParseIntUnpadded(s);
    assert s[0] != '+' && s[0] != '-';
  }

  /** `int()` skips padding of its own whitespace on both sides of the
      number. */
  lemma ParseIntPadded(pad1: string, body: string, pad2: string)
    requires Text.All(pad1, IsIntSpace) && Text.All(pad2, IsIntSpace)
    requires |body| > 0 && !IsIntSpace(body[0]) && !IsIntSpace(body[|body| - 1])
    ensures ParseInt(pad1 + body + pad2) == ParseSigned(body)
  {
    Text.StripBothPads(pad1, body, pad2, IsIntSpace);
  }

  /** A rendered integer with padding on both sides reads back as itself. */
  lemma ParseIntPaddedShowInt(pad1: string, i: int, pad2: string)
    requires Text.All(pad1, IsIntSpace) && Text.All(pad2, IsIntSpace)
    requires DigitCount(i) <= MaxStrDigits
    ensures ParseInt(pad1 + ShowInt(i) + pad2) == Some(i)
  {
    var s := ShowInt(i);
    var d := if i < 0 then ShowNat(-i) else ShowNat(i);
    assert s[|s| - 1] == d[|d| - 1];
    DigitNotSpace(d[|d| - 1]);
    DigitNotSpace(d[0]);
    assert !IsIntSpace(s[0]);
    ParseIntPadded(pad1, s, pad2);
    ParseIntUnpadded(s);
    ParseIntShowInt(i);
  }

  /** Distinct numbers render differently. */
  lemma ShowNatInjective(a: nat, b: nat)
    requires ShowNat(a) == ShowNat(b)
    ensures a == b
  {
    ValueShowNat(a);
    ValueShowNat(b);
  }
}
