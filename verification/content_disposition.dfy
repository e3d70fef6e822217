/**
  `_resolve_filename` of the crawler (mohw_board_pdf_crawler.py): the file
  name a download announces in its `Content-Disposition` header, or the
  caller's fallback. Percent-decoding (`urllib.parse.unquote`) is a
  parameter of the model.
 */
module ContentDisposition {
  import opened Wrappers
  import Text

  /** The parameter name of an RFC 5987 extended value. */
  const ExtendedKey: string := "filename*"
  /** The parameter name of a plain value. */
  const PlainKey: string := "filename"

  predicate IsQuote(c: char) {
    c == '"'
  }

  /** A parameter value as the crawler cleans it: `value.strip().strip('"')`. */
  function ParamValue(raw: string): string {
    Text.Strip(Text.Strip(raw, Text.IsPySpace), IsQuote)
  }

  /** The encoded text of an extended value: when the value holds an
      apostrophe, what follows its first `''` (nothing when there is no
      `''`, as `str.partition` leaves it); otherwise the whole value. */
  function ExtendedText(value: string): string {
    if '\'' in value then
      match Text.Find(value, "''")
      case Some(i) => value[i + 2..]
      case None => []
    else value
  }

  /** The lower-cased key and the cleaned value of a part holding `=`. */
  function KeyValue(part: string): Option<(string, string)> {
    if '=' !in part then None
    else
      Text.StripKeeps(part, Text.IsPySpace, '=');
      var kv := Text.SplitOnce(Text.Strip(part, Text.IsPySpace), '=');
      Some((Text.AsciiLower(kv.0), ParamValue(kv.1)))
  }

  /** What one `;`-separated part of the header contributes: `None` when the
      scan goes on past it, `Some(name)` when the scan stops at it with the
      decoded `name` (which may be empty). */
  function PartFilename(part: string, unquote: string -> string): Option<string> {
    match KeyValue(part)
    case None => None
    case Some((key, value)) =>
      if key == ExtendedKey then Some(unquote(ExtendedText(value)))
      else if key == PlainKey then Some(unquote(value))
      else None
  }

  /** The contribution of every part, in order. */
  function Outcomes(parts: seq<string>, unquote: string -> string): (r: seq<Option<string>>)
    ensures |r| == |parts|
    ensures forall k :: 0 <= k < |parts| ==> r[k] == PartFilename(parts[k], unquote)
  {
    seq(|parts|, k requires 0 <= k < |parts| => PartFilename(parts[k], unquote))
  }

  /** The first present value of `xs`: a scan that stops at the first hit. */
  function FirstSome<T>(xs: seq<Option<T>>): (r: Option<T>)
    ensures r.None? <==> forall k :: 0 <= k < |xs| ==> xs[k].None?
    ensures r.Some? ==> exists k :: 0 <= k < |xs| && xs[k] == r && forall j :: 0 <= j < k ==> xs[j].None?
    decreases |xs|
  {
    if |xs| == 0 then None
    else if xs[0].Some? then xs[0]
    else
      var rest := FirstSome(xs[1..]);
      assert forall k :: 1 <= k < |xs| ==> xs[k] == xs[1..][k - 1];
      rest
  }

  /** The parts are scanned in order and the first part that names a file
      decides the outcome. */
  function ScanParts(parts: seq<string>, unquote: string -> string): Option<string> {
    FirstSome(Outcomes(parts, unquote))
  }

  /** The name the header announces, if it has a part that names a file;
      a missing or empty header announces nothing. */
  function HeaderFilename(cd: Option<string>, unquote: string -> string): Option<string> {
    if cd.None? || cd.value == [] then None
    else ScanParts(Text.Split(cd.value, ';'), unquote)
  }

  /** `_resolve_filename`: the announced name unless it is missing or empty,
      in which case the fallback. */
  function ResolveFilename(cd: Option<string>, fallback: string, unquote: string -> string): (r: string)
    ensures cd.None? ==> r == fallback
    ensures |fallback| > 0 ==> |r| > 0
    ensures r != fallback ==> HeaderFilename(cd, unquote) == Some(r)
  {
    match HeaderFilename(cd, unquote)
    case Some(name) => if name == [] then fallback else name
    case None => fallback
  }

  /** The first part of the header that names a file decides the result,
      whatever the later parts say. */
  lemma ResolveFirstMatch(header: string, k: nat, fallback: string, unquote: string -> string)
    requires |header| > 0
    requires k < |Text.Split(header, ';')|
    requires PartFilename(Text.Split(header, ';')[k], unquote).Some?
    requires forall j :: 0 <= j < k ==> PartFilename(Text.Split(header, ';')[j], unquote).None?
    ensures var name := PartFilename(Text.Split(header, ';')[k], unquote).value;
            ResolveFilename(Some(header), fallback, unquote) == if name == [] then fallback else name
  {
    var parts := Text.Split(header, ';');
    var xs := Outcomes(parts, unquote);
    assert forall j :: 0 <= j < k ==> xs[j].None?;
    FirstSomeAt(xs, k);
    assert ScanParts(parts, unquote) == xs[k];
    assert HeaderFilename(Some(header), unquote) == xs[k];
  }

  lemma FirstSomeAt<T>(xs: seq<Option<T>>, k: nat)
    requires k < |xs| && xs[k].Some?
    requires forall j :: 0 <= j < k ==> xs[j].None?
    ensures FirstSome(xs) == xs[k]
  {
    var r := FirstSome(xs);
    var i :| 0 <= i < |xs| && xs[i] == r && forall j :: 0 <= j < i ==> xs[j].None?;
    assert !(i < k) by {
      assert xs[i].Some?;
    }
    assert !(k < i) by {
      assert xs[k].Some?;
    }
  }

  /** Without a part that names a file, the fallback is used. */
  lemma ResolveNoMatch(header: string, fallback: string, unquote: string -> string)
    requires forall k :: 0 <= k < |Text.Split(header, ';')| ==> PartFilename(Text.Split(header, ';')[k], unquote).None?
    ensures ResolveFilename(Some(header), fallback, unquote) == fallback
  {
  }

  /** The extended parameter name is lower case and holds no separator. */
  lemma ExtendedKeyChars()
    ensures Text.NoUpper(ExtendedKey)
    ensures ';' !in ExtendedKey && '=' !in ExtendedKey && ExtendedKey[0] == 'f'
  {
  }

  /** A part `key=value`, after optional whitespace, with a lower-case key
      and a value that needs no cleaning, splits into that key and value. */
  lemma KeyedPartSplits(pad: string, key: string, value: string)
    requires Text.All(pad, Text.IsPySpace)
    requires |key| > 0 && !Text.IsPySpace(key[0]) && '=' !in key
    requires Text.NoUpper(key)
    requires |value| > 0
    requires !Text.IsPySpace(value[0]) && !IsQuote(value[0])
    requires !Text.IsPySpace(value[|value| - 1]) && !IsQuote(value[|value| - 1])
    ensures KeyValue(pad + (key + ['='] + value)) == Some((key, value))
  {
    var body := key + ['='] + value;
    var part := pad + body;
    Text.AsciiLowerNoUpper(key);
    assert body[0] == key[0];
    assert body[|body| - 1] == value[|value| - 1];
    Text.StripPadded(pad, body, Text.IsPySpace);
    Text.SplitOnceAt(key, '=', value);
    assert '=' in part by {
      assert part[|pad| + |key|] == '=';
    }
    assert Text.SplitOnce(Text.Strip(part, Text.IsPySpace), '=') == (key, value);
    ParamValueClean(value);
  }

  lemma ParamValueClean(value: string)
    requires |value| > 0
    requires !Text.IsPySpace(value[0]) && !IsQuote(value[0])
    requires !Text.IsPySpace(value[|value| - 1]) && !IsQuote(value[|value| - 1])
    ensures ParamValue(value) == value
  {
    Text.StripFixed(value, Text.IsPySpace);
    Text.StripFixed(value, IsQuote);
  }

  /** Such a part stops the scan exactly when its key is one of the two
      parameter names, with the decoded value. */
  lemma KeyedPart(pad: string, key: string, value: string, unquote: string -> string)
    requires Text.All(pad, Text.IsPySpace)
    requires |key| > 0 && !Text.IsPySpace(key[0]) && '=' !in key
    requires Text.NoUpper(key)
    requires |value| > 0
    requires !Text.IsPySpace(value[0]) && !IsQuote(value[0])
    requires !Text.IsPySpace(value[|value| - 1]) && !IsQuote(value[|value| - 1])
    ensures PartFilename(pad + (key + ['='] + value), unquote)
            == if key == ExtendedKey then Some(unquote(ExtendedText(value)))
               else if key == PlainKey then Some(unquote(value))
               else None
  {
    KeyedPartSplits(pad, key, value);
  }

  /** RFC 5987 extended notation `charset''text` yields the decoded text. */
  lemma ExtendedValue(charset: string, enc: string)
    requires |charset| > 0
    requires '\'' !in charset
    ensures ExtendedText(charset + "''" + enc) == enc
  {
    var v := charset + "''" + enc;
    var a := |charset|;
    assert v[a] == '\'';
    assert v[a..a + 2] == "''";
    assert Text.OccursAt(v, "''", a);
    assert Text.Contains(v, "''");
    var i := Text.Find(v, "''").value;
    assert forall m :: 0 <= m < a ==> v[m] == charset[m];
    assert v[i] == '\'';
    assert i == a;
    assert v[a + 2..] == enc;
  }

  /** A language tag between the apostrophes (`charset'lang'text`, which
      RFC 5987 allows) leaves no `''` to split at, so the name decodes from
      the empty string. */
  lemma LanguageTagValue(charset: string, lang: string, enc: string)
    requires '\'' !in charset && '\'' !in lang && '\'' !in enc
    requires |lang| > 0
    ensures ExtendedText(charset + "'" + lang + "'" + enc) == []
  {
    var v := charset + "'" + lang + "'" + enc;
    var a := |charset|;
    var b := |charset| + 1 + |lang|;
    assert v[a] == '\'';
    forall m | 0 <= m < |v| && m != a && m != b
      ensures v[m] != '\''
    {
      if m < a {
        assert v[m] == charset[m];
      } else if m < b {
        assert v[m] == lang[m - a - 1];
      } else {
        assert v[m] == enc[m - b - 1];
      }
    }
    assert v[a + 1] == lang[0];
    forall i | 0 <= i <= |v| - 2
      ensures !Text.OccursAt(v, "''", i)
    {
      var w := v[i..i + 2];
      if i == a || i == b {
        assert w[1] == v[i + 1] && v[i + 1] != '\'';
      } else {
        assert w[0] == v[i] && v[i] != '\'';
      }
    }
    assert Text.Find(v, "''").None?;
  }

  /** A header `disposition; part` whose first part carries no parameter is
      decided by its second part. */
  lemma TwoParts(disposition: string, part: string, unquote: string -> string)
    requires ';' !in disposition && '=' !in disposition
    requires ';' !in part
    ensures HeaderFilename(Some(disposition + ";" + part), unquote) == PartFilename(part, unquote)
  {
    Text.SplitTwo(disposition, ';', part);
    var xs := Outcomes([disposition, part], unquote);
    assert xs[0].None?;
    assert xs[1..] == [PartFilename(part, unquote)];
    FirstSomeSkip(xs);
  }

  /** A scan past an item without a value continues with the rest. */
  lemma FirstSomeSkip<T>(xs: seq<Option<T>>)
    requires |xs| > 0 && xs[0].None?
    ensures FirstSome(xs) == FirstSome(xs[1..])
  {
  }

  /** The part `filename*=<charset>''<text>` names the decoded text. */
  lemma ExtendedPart(pad: string, charset: string, enc: string, unquote: string -> string)
    requires Text.All(pad, Text.IsPySpace)
    requires |charset| > 0 && '\'' !in charset
    requires !Text.IsPySpace(charset[0]) && !IsQuote(charset[0])
    requires |enc| > 0 ==> !Text.IsPySpace(enc[|enc| - 1]) && !IsQuote(enc[|enc| - 1])
    ensures PartFilename(pad + (ExtendedKey + ['='] + (charset + "''" + enc)), unquote) == Some(unquote(enc))
  {
    var value := charset + "''" + enc;
    assert value[0] == charset[0];
    assert value[|value| - 1] == if |enc| > 0 then enc[|enc| - 1] else '\'';
    ExtendedKeyChars();
    KeyedPart(pad, ExtendedKey, value, unquote);
    ExtendedValue(charset, enc);
  }

  /** A header of one part is decided by that part. */
  lemma OnePart(part: string, unquote: string -> string)
    requires |part| > 0 && ';' !in part
    ensures HeaderFilename(Some(part), unquote) == PartFilename(part, unquote)
  {
    Text.SplitAbsent(part, ';');
    assert Outcomes([part], unquote)[0] == PartFilename(part, unquote);
  }

  /** An extended part `filename*=<charset>''<text>` has no `;` when its
      pieces have none. */
  lemma ExtendedPartUnsplit(pad: string, charset: string, enc: string)
    requires ';' !in pad && ';' !in charset && ';' !in enc
    ensures ';' !in pad + (ExtendedKey + ['='] + (charset + "''" + enc))
  {
    ExtendedKeyChars();
    assert ';' !in charset + "''" + enc;
  }

  /** Likewise with a language tag, `filename*=<charset>'<lang>'<text>`. */
  lemma LanguageTagUnsplit(pad: string, charset: string, lang: string, enc: string)
    requires ';' !in pad && ';' !in charset && ';' !in lang && ';' !in enc
    ensures ';' !in pad + (ExtendedKey + ['='] + (charset + "'" + lang + "'" + enc))
  {
    ExtendedKeyChars();
    assert ';' !in charset + "'" + lang + "'" + enc;
  }

  /** `attachment; filename*=UTF-8''<text>`: the decoded text is the file
      name, unless it decodes to nothing. */
  lemma ResolveExtended(disposition: string, pad: string, charset: string, enc: string,
                        fallback: string, unquote: string -> string)
    requires ';' !in disposition && '=' !in disposition
    requires Text.All(pad, Text.IsPySpace) && ';' !in pad
    requires |charset| > 0 && '\'' !in charset && ';' !in charset
    requires !Text.IsPySpace(charset[0]) && !IsQuote(charset[0])
    requires ';' !in enc
    requires |enc| > 0 ==> !Text.IsPySpace(enc[|enc| - 1]) && !IsQuote(enc[|enc| - 1])
    ensures var name := unquote(enc);
            var part := pad + (ExtendedKey + ['='] + (charset + "''" + enc));
            ResolveFilename(Some(disposition + ";" + part), fallback, unquote)
            == if name == [] then fallback else name
  {
    var part := pad + (ExtendedKey + ['='] + (charset + "''" + enc));
    ExtendedPart(pad, charset, enc, unquote);
    ExtendedPartUnsplit(pad, charset, enc);
    TwoParts(disposition, part, unquote);
  }

  /** With a language tag (`filename*=<charset>'<lang>'<text>`) the name is
      lost and the fallback is used, whatever the text says. */
  lemma ResolveLanguageTag(pad: string, charset: string, lang: string, enc: string,
                           fallback: string, unquote: string -> string)
    requires Text.All(pad, Text.IsPySpace) && ';' !in pad
    requires |charset| > 0 && '\'' !in charset && ';' !in charset
    requires !Text.IsPySpace(charset[0]) && !IsQuote(charset[0])
    requires |lang| > 0 && '\'' !in lang && ';' !in lang
    requires '\'' !in enc && ';' !in enc
    requires |enc| > 0 && !Text.IsPySpace(enc[|enc| - 1]) && !IsQuote(enc[|enc| - 1])
    requires unquote([]) == []
    ensures ResolveFilename(Some(pad + (ExtendedKey + ['='] + (charset + "'" + lang + "'" + enc))), fallback, unquote)
            == fallback
  {
    var part := pad + (ExtendedKey + ['='] + (charset + "'" + lang + "'" + enc));
    LanguageTagPart(pad, charset, lang, enc, unquote);
    LanguageTagUnsplit(pad, charset, lang, enc);
    OnePart(part, unquote);
  }

  /** The part `filename*=<charset>'<lang>'<text>` names the decoding of
      the empty string. */
  lemma LanguageTagPart(pad: string, charset: string, lang: string, enc: string, unquote: string -> string)
    requires Text.All(pad, Text.IsPySpace)
    requires |charset| > 0 && '\'' !in charset
    requires !Text.IsPySpace(charset[0]) && !IsQuote(charset[0])
    requires |lang| > 0 && '\'' !in lang
    requires '\'' !in enc
    requires |enc| > 0 && !Text.IsPySpace(enc[|enc| - 1]) && !IsQuote(enc[|enc| - 1])
    ensures PartFilename(pad + (ExtendedKey + ['='] + (charset + "'" + lang + "'" + enc)), unquote)
            == Some(unquote([]))
  {
    var value := charset + "'" + lang + "'" + enc;
    assert value[0] == charset[0];
    assert value[|value| - 1] == enc[|enc| - 1];
    ExtendedKeyChars();
    KeyedPart(pad, ExtendedKey, value, unquote);
    LanguageTagValue(charset, lang, enc);
  }
}
