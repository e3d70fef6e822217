/**
  String primitives that the crawler and the Next.js configuration rely on:
  whitespace classes, stripping, lower-casing, searching and splitting.
  Strings are sequences of Unicode scalar values.
 */
module Text {
  import opened Wrappers

  /** The characters Python's `str.isspace` accepts; `str.strip()` and the
      regex class `\s` use this set. */
  predicate IsPySpace(c: char) {
    || ('\t' <= c <= '\r')
    || ('\U{1C}' <= c <= '\U{1F}')
    || c == ' ' || c == '\U{85}' || c == '\U{A0}' || c == '\U{1680}'
    || ('\U{2000}' <= c <= '\U{200A}')
    || c == '\U{2028}' || c == '\U{2029}' || c == '\U{202F}' || c == '\U{205F}'
    || c == '\U{3000}'
  }

  /** The characters JavaScript's `String.prototype.trim` removes:
      WhiteSpace and LineTerminator of ECMAScript. */
  predicate IsJsSpace(c: char) {
    || ('\t' <= c <= '\r')
    || c == ' ' || c == '\U{A0}' || c == '\U{1680}'
    || ('\U{2000}' <= c <= '\U{200A}')
    || c == '\U{2028}' || c == '\U{2029}' || c == '\U{202F}' || c == '\U{205F}'
    || c == '\U{3000}' || c == '\U{FEFF}'
  }

  predicate All(s: string, p: char -> bool) {
    forall k :: 0 <= k < |s| ==> p(s[k])
  }

  lemma AllCons(c: char, t: string, p: char -> bool)
    ensures All([c] + t, p) <==> p(c) && All(t, p)
  {
    var s := [c] + t;
    assert forall k :: 0 <= k < |t| ==> s[k + 1] == t[k];
    assert s[0] == c;
  }

  /** Number of leading characters of `s` satisfying `ws`. */
  function LeadingCount(s: string, ws: char -> bool): (n: nat)
    ensures n <= |s|
    ensures forall k :: 0 <= k < n ==> ws(s[k])
    ensures n < |s| ==> !ws(s[n])
  {
    if |s| == 0 || !ws(s[0]) then 0
    else
      var n := 1 + LeadingCount(s[1..], ws);
      assert forall k :: 1 <= k < n ==> s[k] == s[1..][k - 1];
      n
  }

  /** How appending one character changes the leading count. */
  lemma {:induction false} LeadingCountSnoc(s: string, c: char, ws: char -> bool)
    ensures LeadingCount(s + [c], ws) ==
              if LeadingCount(s, ws) < |s| then LeadingCount(s, ws)
              else if ws(c) then |s| + 1 else |s|
    decreases |s|
  {
    if |s| > 0 && ws(s[0]) {
      assert (s + [c])[1..] == s[1..] + [c];
      LeadingCountSnoc(s[1..], c, ws);
    }
  }

  /** Appending after a character outside `ws` leaves the leading run alone. */
  lemma LeadingCountSnocInner(s: string, c: char, ws: char -> bool)
    requires LeadingCount(s, ws) < |s|
    ensures LeadingCount(s + [c], ws) == LeadingCount(s, ws)
  {
    LeadingCountSnoc(s, c, ws);
  }

  /** Number of trailing characters of `s` satisfying `ws`. */
  function TrailingCount(s: string, ws: char -> bool): (n: nat)
    ensures n <= |s|
    ensures forall k :: |s| - n <= k < |s| ==> ws(s[k])
    ensures n < |s| ==> !ws(s[|s| - 1 - n])
  {
    if |s| == 0 || !ws(s[|s| - 1]) then 0
    else
      var t := s[..|s| - 1];
      var n := 1 + TrailingCount(t, ws);
      assert forall k :: |s| - n <= k < |s| - 1 ==> s[k] == t[k];
      n
  }

  /** `s` with every leading and trailing `ws` character removed
      (Python `strip`, JavaScript `trim`, Python `strip(chars)`). */
  function Strip(s: string, ws: char -> bool): (r: string)
    ensures |r| <= |s|
    ensures |r| > 0 ==> !ws(r[0]) && !ws(r[|r| - 1])
  {
    var i := LeadingCount(s, ws);
    var t := s[i..];
    var j := TrailingCount(t, ws);
    t[..|t| - j]
  }

  /** Stripping a string that neither starts nor ends with `ws` changes nothing. */
  lemma StripFixed(s: string, ws: char -> bool)
    requires |s| > 0 ==> !ws(s[0]) && !ws(s[|s| - 1])
    ensures Strip(s, ws) == s
  {
    var i := LeadingCount(s, ws);
    assert i == 0;
    var j := TrailingCount(s, ws);
    assert j == 0;
  }

  /** Stripping a string made only of `ws` characters leaves nothing. */
  lemma {:induction false} StripAll(s: string, ws: char -> bool)
    requires All(s, ws)
    ensures LeadingCount(s, ws) == |s|
    ensures Strip(s, ws) == []
    decreases |s|
  {
    if |s| > 0 {
      assert ws(s[0]);
      assert All(s[1..], ws) by {
        assert forall k :: 0 <= k < |s| - 1 ==> s[1..][k] == s[k + 1];
      }
      StripAll(s[1..], ws);
    }
  }

  /** A prefix of `ws` characters in front of a character outside `ws` is
      exactly the leading run. */
  lemma {:induction false} LeadingCountPadded(pad: string, body: string, ws: char -> bool)
    requires All(pad, ws)
    requires |body| > 0 && !ws(body[0])
    ensures LeadingCount(pad + body, ws) == |pad|
    decreases |pad|
  {
    var s := pad + body;
    if |pad| > 0 {
      assert ws(s[0]);
      assert s[1..] == pad[1..] + body;
      assert All(pad[1..], ws) by {
        assert forall k :: 0 <= k < |pad| - 1 ==> pad[1..][k] == pad[k + 1];
      }
      LeadingCountPadded(pad[1..], body, ws);
    } else {
      assert s[0] == body[0];
    }
  }

  /** Stripping removes a whitespace prefix in front of a string that
      neither starts nor ends with whitespace. */
  lemma StripPadded(pad: string, body: string, ws: char -> bool)
    requires All(pad, ws)
    requires |body| > 0 && !ws(body[0]) && !ws(body[|body| - 1])
    ensures LeadingCount(pad + body, ws) == |pad|
    ensures Strip(pad + body, ws) == body
  {
    var s := pad + body;
    LeadingCountPadded(pad, body, ws);
    assert s[|pad|..] == body;
    assert TrailingCount(body, ws) == 0;
  }

  /** A suffix of `ws` characters behind a character outside `ws` is exactly
      the trailing run. */
  lemma {:induction false} TrailingCountPadded(body: string, pad: string, ws: char -> bool)
    requires All(pad, ws)
    requires |body| > 0 && !ws(body[|body| - 1])
    ensures TrailingCount(body + pad, ws) == |pad|
    decreases |pad|
  {
    var s := body + pad;
    if |pad| > 0 {
      var pad' := pad[..|pad| - 1];
      assert ws(s[|s| - 1]);
      assert s[..|s| - 1] == body + pad';
      assert All(pad', ws) by {
        assert forall k :: 0 <= k < |pad'| ==> pad'[k] == pad[k];
      }
      TrailingCountPadded(body, pad', ws);
    } else {
      assert s == body;
    }
  }

  /** Stripping removes exactly the `ws` runs around a string that neither
      starts nor ends with `ws`; with `StripAll` this fixes `Strip` on every
      input. */
  lemma StripBothPads(pad1: string, body: string, pad2: string, ws: char -> bool)
    requires All(pad1, ws) && All(pad2, ws)
    requires |body| > 0 && !ws(body[0]) && !ws(body[|body| - 1])
    ensures Strip(pad1 + body + pad2, ws) == body
  {
    var s := pad1 + body + pad2;
    var rest := body + pad2;
    assert s == pad1 + rest;
    assert rest[0] == body[0];
    LeadingCountPadded(pad1, rest, ws);
    assert s[|pad1|..] == rest;
    TrailingCountPadded(body, pad2, ws);
    assert rest[..|rest| - |pad2|] == body;
  }

  /** Stripping keeps only characters of the original string. */
  lemma StripSubset(s: string, ws: char -> bool, p: char -> bool)
    requires All(s, p)
    ensures All(Strip(s, ws), p)
  {
    var i := LeadingCount(s, ws);
    var t := s[i..];
    var j := TrailingCount(t, ws);
    var r := t[..|t| - j];
    assert forall k :: 0 <= k < |r| ==> r[k] == s[i + k];
  }

  /** A character outside `ws` is not part of the leading run. */
  lemma LeadingBefore(s: string, ws: char -> bool, k: nat)
    requires k < |s| && !ws(s[k])
    ensures LeadingCount(s, ws) <= k
  {
  }

  /** A character outside `ws` is not part of the trailing run. */
  lemma TrailingAfter(t: string, ws: char -> bool, k: nat)
    requires k < |t| && !ws(t[k])
    ensures k < |t| - TrailingCount(t, ws)
  {
  }

  /** A character that is not stripped survives stripping. */
  lemma StripKeeps(s: string, ws: char -> bool, c: char)
    requires c in s && !ws(c)
    ensures c in Strip(s, ws)
  {
    var i := LeadingCount(s, ws);
    var k := IndexOf(s, c);
    LeadingBefore(s, ws, k);
    var t := s[i..];
    assert t[k - i] == c;
    TrailingAfter(t, ws, k - i);
    assert Strip(s, ws)[k - i] == c;
  }

  /** The first character left by stripping comes from the original. */
  lemma StripKeepsFirst(s: string, ws: char -> bool)
    requires |Strip(s, ws)| > 0
    ensures Strip(s, ws)[0] in s
  {
    var i := LeadingCount(s, ws);
    assert Strip(s, ws)[0] == s[i];
  }

  /** Python `str.lower` restricted to ASCII letters. */
  function AsciiLower(s: string): (r: string)
    ensures |r| == |s|
    ensures forall k :: 0 <= k < |s| ==>
              r[k] == (if 'A' <= s[k] <= 'Z' then (s[k] as int + 32) as char else s[k])
  {
    if |s| == 0 then []
    else
      var c := if 'A' <= s[0] <= 'Z' then (s[0] as int + 32) as char else s[0];
      [c] + AsciiLower(s[1..])
  }

  /** `s` has no upper-case ASCII letter. */
  predicate NoUpper(s: string) {
    forall k :: 0 <= k < |s| ==> !('A' <= s[k] <= 'Z')
  }

  /** Lower-casing leaves a string without upper-case ASCII letters alone. */
  lemma AsciiLowerNoUpper(s: string)
    requires NoUpper(s)
    ensures AsciiLower(s) == s
  {
  }

  /** `needle` occurs in `s` at position `i`. */
  predicate OccursAt(s: string, needle: string, i: int) {
    0 <= i && i + |needle| <= |s| && s[i..i + |needle|] == needle
  }

  /** Python's `needle in s` on strings. */
  predicate Contains(s: string, needle: string) {
    exists i :: 0 <= i <= |s| - |needle| && OccursAt(s, needle, i)
  }

  lemma OccursShift(s: string, needle: string, k: int)
    requires 1 <= k && |s| > 0
    ensures OccursAt(s, needle, k) <==> OccursAt(s[1..], needle, k - 1)
  {
    if k + |needle| <= |s| {
      assert s[k..k + |needle|] == s[1..][k - 1..k - 1 + |needle|];
    }
  }

  /** The first position at which `needle` occurs in `s`, if any. */
  function Find(s: string, needle: string): (r: Option<nat>)
    ensures r.Some? ==> OccursAt(s, needle, r.value)
    ensures r.Some? ==> forall k :: 0 <= k < r.value ==> !OccursAt(s, needle, k)
    ensures r.None? <==> !Contains(s, needle)
    decreases |s|
  {
    if |needle| > |s| then None
    else if s[..|needle|] == needle then Some(0)
    else
      match Find(s[1..], needle)
      case None =>
        assert forall k :: 1 <= k ==> !OccursAt(s, needle, k) by {
          forall k | 1 <= k {
            OccursShift(s, needle, k);
          }
        }
        None
      case Some(i) =>
        OccursShift(s, needle, i + 1);
        assert forall k :: 1 <= k <= i ==> !OccursAt(s, needle, k) by {
          forall k | 1 <= k <= i {
            OccursShift(s, needle, k);
          }
        }
        Some(i + 1)
  }

  /** Index of the first `c` in `s`, or `|s|` when there is none. */
  function IndexOf(s: string, c: char): (i: nat)
    ensures i <= |s|
    ensures i < |s| ==> s[i] == c
    ensures forall k :: 0 <= k < i ==> s[k] != c
    ensures i == |s| <==> c !in s
  {
    if |s| == 0 then 0
    else if s[0] == c then 0
    else 1 + IndexOf(s[1..], c)
  }

  /** Python `s.split(sep, 1)` when `sep` occurs in `s`: the text before and
      after its first occurrence. */
  function SplitOnce(s: string, sep: char): (r: (string, string))
    requires sep in s
    ensures sep !in r.0
    ensures r.0 + [sep] + r.1 == s
  {
    var i := IndexOf(s, sep);
    assert s == s[..i] + [sep] + s[i + 1..];
    (s[..i], s[i + 1..])
  }

  /** The first separator of `a + [sep] + b` is the one after `a`. */
  lemma IndexOfAt(a: string, sep: char, b: string)
    requires sep !in a
    ensures IndexOf(a + [sep] + b, sep) == |a|
  {
    var s := a + [sep] + b;
    var i := IndexOf(s, sep);
    assert s[|a|] == sep;
    forall m | 0 <= m < |a|
      ensures s[m] != sep
    {
      assert s[m] == a[m];
    }
  }

  /** Splitting at a separator the text before it does not contain. */
  lemma SplitOnceAt(a: string, sep: char, b: string)
    requires sep !in a
    ensures sep in a + [sep] + b
    ensures SplitOnce(a + [sep] + b, sep) == (a, b)
  {
    var s := a + [sep] + b;
    assert s[|a|] == sep;
    IndexOfAt(a, sep, b);
    assert s[..|a|] == a;
    assert s[|a| + 1..] == b;
  }

  /** Joins `parts` with `sep` between consecutive parts. */
  function Join(parts: seq<string>, sep: char): string {
    if |parts| == 0 then []
    else if |parts| == 1 then parts[0]
    else parts[0] + [sep] + Join(parts[1..], sep)
  }

  /** Python `s.split(sep)` for a one-character separator. */
  function Split(s: string, sep: char): (parts: seq<string>)
    ensures |parts| >= 1
    ensures forall k :: 0 <= k < |parts| ==> sep !in parts[k]
    ensures Join(parts, sep) == s
    decreases |s|
  {
    var i := IndexOf(s, sep);
    if i == |s| then [s]
    else
      var rest := Split(s[i + 1..], sep);
      assert s == s[..i] + [sep] + s[i + 1..];
      [s[..i]] + rest
  }

  /** The last element of a non-empty sequence. */
  function Last(parts: seq<string>): string
    requires |parts| > 0
  {
    parts[|parts| - 1]
  }

  /** Joining puts one separator in front of the last part. */
  lemma {:induction false} JoinLast(parts: seq<string>, sep: char)
    requires |parts| >= 2
    ensures Join(parts, sep) == Join(parts[..|parts| - 1], sep) + [sep] + Last(parts)
    decreases |parts|
  {
    var init := parts[..|parts| - 1];
    if |parts| > 2 {
      assert parts[1..][..|parts| - 2] == init[1..];
      JoinLast(parts[1..], sep);
    }
  }

  /** The last piece of a split is the text after the last separator, or
      the whole string when there is none. */
  lemma SplitLast(s: string, sep: char)
    ensures sep !in s ==> Last(Split(s, sep)) == s
    ensures sep in s ==> exists i :: 0 <= i < |s| && s[i] == sep && Last(Split(s, sep)) == s[i + 1..]
  {
    var parts := Split(s, sep);
    if |parts| >= 2 {
      JoinLast(parts, sep);
      var i := |Join(parts[..|parts| - 1], sep)|;
      assert s[i] == sep && s[i + 1..] == Last(parts);
    }
  }

  /** A string without the separator splits into itself alone. */
  lemma SplitAbsent(s: string, sep: char)
    requires sep !in s
    ensures Split(s, sep) == [s]
  {
  }

  /** Two separator-free pieces around one separator split into the pieces. */
  lemma SplitTwo(a: string, sep: char, b: string)
    requires sep !in a && sep !in b
    ensures Split(a + [sep] + b, sep) == [a, b]
  {
    var s := a + [sep] + b;
    IndexOfAt(a, sep, b);
    assert s[..|a|] == a;
    assert s[|a| + 1..] == b;
    SplitAbsent(b, sep);
  }

  /** Splitting a join of separator-free parts gives the parts back. */
  lemma {:induction false} SplitJoin(parts: seq<string>, sep: char)
    requires |parts| >= 1
    requires forall k :: 0 <= k < |parts| ==> sep !in parts[k]
    ensures Split(Join(parts, sep), sep) == parts
    decreases |parts|
  {
    if |parts| == 1 {
      assert sep !in parts[0];
      SplitAbsent(parts[0], sep);
    } else {
      var head := parts[0];
      var rest := Join(parts[1..], sep);
      var s := head + [sep] + rest;
      assert Join(parts, sep) == s;
      assert sep !in head;
      IndexOfAt(head, sep, rest);
      assert s[..|head|] == head;
      assert s[|head| + 1..] == rest;
      SplitJoin(parts[1..], sep);
      assert Split(s, sep) == [head] + parts[1..];
      assert parts == [head] + parts[1..];
    }
  }
}
