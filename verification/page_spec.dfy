/**
  The `--pages` argument of the crawler: a comma-separated list of page
  numbers and inclusive ranges such as `1,3,5-7`, turned into the ascending
  list of distinct pages it names (mohw_board_pdf_crawler.py,
  `parse_pages_argument`).
 */
module PageSpec {
  import opened Wrappers
  import Text
  import Numbers

  /** The two `ValueError`s the parser raises, carrying the offending token. */
  datatype PageError = InvalidRangeToken(token: string) | InvalidPageToken(token: string)

  predicate StrictlyIncreasing(s: seq<int>) {
    forall i, j :: 0 <= i < j < |s| ==> s[i] < s[j]
  }

  /** Prepending an element below every element keeps a list ascending. */
  lemma ConsIncreasing(x: int, s: seq<int>)
    requires StrictlyIncreasing(s)
    requires forall i :: 0 <= i < |s| ==> x < s[i]
    ensures StrictlyIncreasing([x] + s)
  {
    var r := [x] + s;
    forall i, j | 0 <= i < j < |r|
      ensures r[i] < r[j]
    {
      assert r[j] == s[j - 1];
      if i > 0 {
        assert r[i] == s[i - 1];
      }
    }
  }

  /** Python `range(lo, hi + 1)`. */
  function Range(lo: int, hi: int): (r: seq<int>)
    ensures forall i :: 0 <= i < |r| ==> lo <= r[i] <= hi
    ensures forall p :: lo <= p <= hi ==> p in r
    ensures StrictlyIncreasing(r)
    decreases hi - lo
  {
    if lo > hi then []
    else
      var rest := Range(lo + 1, hi);
      ConsIncreasing(lo, rest);
      [lo] + rest
  }

  function Min(a: int, b: int): int { if a <= b then a else b }
  function Max(a: int, b: int): int { if a <= b then b else a }

  /** Adds `x` to an ascending list of distinct numbers. */
  function Insert(sorted: seq<int>, x: int): (r: seq<int>)
    requires StrictlyIncreasing(sorted)
    ensures StrictlyIncreasing(r)
    ensures forall p :: p in r <==> p in sorted || p == x
    decreases |sorted|
  {
    if |sorted| == 0 then [x]
    else if x < sorted[0] then
      ConsIncreasing(x, sorted);
      [x] + sorted
    else if x == sorted[0] then sorted
    else
      var tail := sorted[1..];
      var rest := Insert(tail, x);
      forall i | 0 <= i < |rest|
        ensures sorted[0] < rest[i]
      {
        var p := rest[i];
        assert p in rest;
        if p != x {
          var k :| 0 <= k < |tail| && tail[k] == p;
          assert sorted[k + 1] == p;
        }
      }
      ConsIncreasing(sorted[0], rest);
      assert sorted == [sorted[0]] + tail;
      [sorted[0]] + rest
  }

  /** Python `sorted(set(xs))`: the distinct elements of `xs` in ascending order. */
  function SortedDistinct(xs: seq<int>): (r: seq<int>)
    ensures StrictlyIncreasing(r)
    ensures forall p :: p in r <==> p in xs
    ensures |r| == 0 <==> |xs| == 0
    decreases |xs|
  {
    if |xs| == 0 then []
    else
      var init := xs[..|xs| - 1];
      var last := xs[|xs| - 1];
      var r := Insert(SortedDistinct(init), last);
      assert xs == init + [last];
      assert last in r;
      r
  }

  lemma HeadIsLeast(a: seq<int>, z: int)
    requires StrictlyIncreasing(a) && z in a
    ensures a[0] <= z
  {
    var k :| 0 <= k < |a| && a[k] == z;
    assert k == 0 || a[0] < a[k];
  }

  lemma TailMembers(a: seq<int>, z: int)
    requires StrictlyIncreasing(a) && |a| > 0
    ensures z in a[1..] <==> z in a && z != a[0]
  {
    if z in a[1..] {
      var k :| 0 <= k < |a| - 1 && a[1..][k] == z;
      assert a[k + 1] == z;
      assert a[0] < a[k + 1];
    }
    if z in a && z != a[0] {
      var k :| 0 <= k < |a| && a[k] == z;
      assert a[1..][k - 1] == z;
    }
  }

  lemma HeadIn(b: seq<int>)
    ensures |b| > 0 ==> b[0] in b
  {
  }

  /** A strictly increasing sequence is determined by its elements. */
  lemma {:induction false} StrictlyIncreasingUnique(a: seq<int>, b: seq<int>)
    requires StrictlyIncreasing(a) && StrictlyIncreasing(b)
    requires forall x :: x in a <==> x in b
    ensures a == b
    decreases |a|
  {
    if |a| == 0 {
      HeadIn(b);
    } else {
      var x := a[0];
      assert x in a;
      assert x in b;
      assert |b| > 0;
      var y := b[0];
      assert y in b;
      assert y in a;
      HeadIsLeast(a, b[0]);
      HeadIsLeast(b, a[0]);
      forall z
        ensures z in a[1..] <==> z in b[1..]
      {
        TailMembers(a, z);
        TailMembers(b, z);
      }
      StrictlyIncreasingUnique(a[1..], b[1..]);
      assert a == [a[0]] + a[1..];
      assert b == [b[0]] + b[1..];
    }
  }

  /** The pages of a range token with integer sides `a` and `b`: reversed
      bounds are swapped and the lower bound is raised to 1. */
  function RangePages(a: int, b: int): (r: seq<int>)
    ensures forall p :: p in r <==> Max(1, Min(a, b)) <= p <= Max(a, b)
    ensures StrictlyIncreasing(r)
  {
    var (lo, hi) := if a > b then (b, a) else (a, b);
    var lo' := if lo < 1 then 1 else lo;
    Range(lo', hi)
  }

  /** The pages one stripped, non-empty token names. */
  function PagesOfToken(token: string): (r: Result<seq<int>, PageError>)
    ensures r.Success? ==> StrictlyIncreasing(r.value) && forall p :: p in r.value ==> p >= 1
    ensures r.Failure? ==> r.error.token == token
  {
    if '-' in token then
      var (startStr, endStr) := Text.SplitOnce(token, '-');
      match (Numbers.ParseInt(startStr), Numbers.ParseInt(endStr))
      case (Some(a), Some(b)) => Success(RangePages(a, b))
      case _ => Failure(InvalidRangeToken(token))
    else
      match Numbers.ParseInt(token)
      case Some(n) => Success(if n >= 1 then [n] else [])
      case None => Failure(InvalidPageToken(token))
  }

  /** The pages one comma-separated token adds: nothing for a blank token,
      otherwise those of the stripped token. The pages are listed in
      ascending order; the set they stand for is what matters. */
  function TokenPages(part: string): (r: Result<seq<int>, PageError>)
    ensures r.Success? ==> forall p :: p in r.value ==> p >= 1
    ensures Text.Strip(part, Text.IsPySpace) == [] ==> r == Success([])
    ensures r.Failure? ==> r.error.token == Text.Strip(part, Text.IsPySpace)
  {
    var token := Text.Strip(part, Text.IsPySpace);
    if token == [] then Success([]) else PagesOfToken(token)
  }

  /** How one token is read: `TokenPages`, kept as a parameter of the fold
      so that the lemmas about the fold need not look inside it. */
  type TokenReader = string -> Result<seq<int>, PageError>

  /** Folds the tokens left to right into `acc`, stopping at the first error. */
  function CollectPages(parts: seq<string>, acc: seq<int>, read: TokenReader): Result<seq<int>, PageError>
    decreases |parts|
  {
    if |parts| == 0 then Success(acc)
    else
      match read(parts[0])
      case Failure(e) => Failure(e)
      case Success(ps) => CollectPages(parts[1..], acc + ps, read)
  }

  predicate AllTokensValid(parts: seq<string>, read: TokenReader) {
    forall k :: 0 <= k < |parts| ==> read(parts[k]).Success?
  }

  /** Page `p` is named by one of the tokens. */
  predicate Named(parts: seq<string>, read: TokenReader, p: int)
    requires AllTokensValid(parts, read)
  {
    exists k :: 0 <= k < |parts| && p in read(parts[k]).value
  }

  /** `parse_pages_argument`: `None` for a missing or empty argument and for
      an argument naming no page, otherwise the pages in ascending order. */
  function ParsePages(arg: Option<string>): (r: Result<Option<seq<int>>, PageError>)
    ensures arg.None? || arg == Some("") ==> r == Success(None)
    ensures r.Success? && r.value.Some? ==>
              && |r.value.value| > 0
              && StrictlyIncreasing(r.value.value)
              && forall p :: p in r.value.value ==> p >= 1
  {
    if arg.None? || arg.value == [] then Success(None)
    else
      var parts := Text.Split(arg.value, ',');
      match CollectPages(parts, [], TokenPages)
      case Failure(e) => Failure(e)
      case Success(pages) =>
        assert forall p :: p in pages ==> p >= 1 by {
          CollectPagesValid(parts, [], TokenPages);
          forall p | p in pages
            ensures p >= 1
          {
            var k :| 0 <= k < |parts| && p in TokenPages(parts[k]).value;
          }
        }
        if |pages| == 0 then Success(None) else Success(Some(SortedDistinct(pages)))
  }

  lemma TailTokensValid(parts: seq<string>, read: TokenReader)
    requires |parts| > 0
    ensures AllTokensValid(parts, read) <==> read(parts[0]).Success? && AllTokensValid(parts[1..], read)
  {
    var tail := parts[1..];
    assert forall k :: 0 < k < |parts| ==> parts[k] == tail[k - 1];
  }

  lemma TailNamed(parts: seq<string>, read: TokenReader, p: int)
    requires |parts| > 0 && AllTokensValid(parts, read)
    ensures AllTokensValid(parts[1..], read)
    ensures Named(parts, read, p) <==> p in read(parts[0]).value || Named(parts[1..], read, p)
  {
    TailTokensValid(parts, read);
    var tail := parts[1..];
    if Named(tail, read, p) {
      var k :| 0 <= k < |tail| && p in read(tail[k]).value;
      assert tail[k] == parts[k + 1];
    }
    if Named(parts, read, p) {
      var k :| 0 <= k < |parts| && p in read(parts[k]).value;
      if k > 0 {
        assert parts[k] == tail[k - 1];
      }
    }
  }

  /** The fold succeeds exactly when every token is valid, and then holds
      the pages of `acc` and of every token. */
  lemma {:induction false} CollectPagesValid(parts: seq<string>, acc: seq<int>, read: TokenReader)
    ensures CollectPages(parts, acc, read).Success? <==> AllTokensValid(parts, read)
    ensures CollectPages(parts, acc, read).Success? ==>
              forall p :: p in CollectPages(parts, acc, read).value <==> p in acc || Named(parts, read, p)
    decreases |parts|
  {
    if |parts| > 0 {
      TailTokensValid(parts, read);
      match read(parts[0])
      case Failure(e) =>
      case Success(ps) =>
        CollectPagesValid(parts[1..], acc + ps, read);
        if AllTokensValid(parts, read) {
          forall p
            ensures p in CollectPages(parts, acc, read).value <==> p in acc || Named(parts, read, p)
          {
            TailNamed(parts, read, p);
          }
        }
    }
  }

  /** A failing fold reports the first invalid token. */
  lemma {:induction false} CollectPagesFirstError(parts: seq<string>, acc: seq<int>, read: TokenReader)
    requires CollectPages(parts, acc, read).Failure?
    ensures exists k :: 0 <= k < |parts|
              && read(parts[k]) == Failure(CollectPages(parts, acc, read).error)
              && forall j :: 0 <= j < k ==> read(parts[j]).Success?
    decreases |parts|
  {
    var tail := parts[1..];
    match read(parts[0])
    case Failure(e) =>
    case Success(ps) =>
      CollectPagesFirstError(tail, acc + ps, read);
      var e := CollectPages(parts, acc, read).error;
      var k :| 0 <= k < |tail| && read(tail[k]) == Failure(e)
               && forall j :: 0 <= j < k ==> read(tail[j]).Success?;
      assert forall j :: 0 < j <= k ==> parts[j] == tail[j - 1];
      assert parts[k + 1] == tail[k];
  }

  /** What `parse_pages_argument` returns, in terms of its tokens: the first
      invalid token raises; otherwise the result lists exactly the pages the
      tokens name, and is `None` exactly when they name none. */
  lemma ParsePagesSpec(arg: string)
    requires arg != []
    ensures var parts := Text.Split(arg, ',');
            && (ParsePages(Some(arg)).Success? <==> AllTokensValid(parts, TokenPages))
            && (AllTokensValid(parts, TokenPages) ==>
                  && (ParsePages(Some(arg)) == Success(None) <==> forall p :: !Named(parts, TokenPages, p))
                  && (ParsePages(Some(arg)).value.Some? ==>
                        forall p :: p in ParsePages(Some(arg)).value.value <==> Named(parts, TokenPages, p)))
            && (ParsePages(Some(arg)).Failure? ==>
                  exists k :: 0 <= k < |parts|
                    && TokenPages(parts[k]) == Failure(ParsePages(Some(arg)).error)
                    && forall j :: 0 <= j < k ==> TokenPages(parts[j]).Success?)
  {
    var parts := Text.Split(arg, ',');
    var c := CollectPages(parts, [], TokenPages);
    var r := ParsePages(Some(arg));
    assert (r.Failure? <==> c.Failure?) && (r.Failure? ==> r.error == c.error);
    assert c.Success? ==> (r.value.None? <==> |c.value| == 0);
    assert r.Success? && r.value.Some? ==> r.value.value == SortedDistinct(c.value);
    CollectPagesValid(parts, [], TokenPages);
    if c.Failure? {
      CollectPagesFirstError(parts, [], TokenPages);
    }
    if AllTokensValid(parts, TokenPages) && |c.value| > 0 {
      var p := c.value[0];
      assert p in c.value;
      assert Named(parts, TokenPages, p);
    }
  }

  /** The text of a range token with decimal bounds has nothing to strip. */
  lemma RangeTextStrips(a: nat, b: int)
    ensures var t := Numbers.ShowNat(a) + "-" + Numbers.ShowInt(b);
            Text.Strip(t, Text.IsPySpace) == t
  {
    var left := Numbers.ShowNat(a);
    var right := Numbers.ShowInt(b);
    var t := left + "-" + right;
    Numbers.DigitNotSpace(left[0]);
    assert t[0] == left[0];
    if b < 0 {
      var digits := Numbers.ShowNat(-b);
      assert t[|t| - 1] == digits[|digits| - 1];
      Numbers.DigitNotSpace(t[|t| - 1]);
    } else {
      assert t[|t| - 1] == right[|right| - 1];
      Numbers.DigitNotSpace(t[|t| - 1]);
    }
    Text.StripFixed(t, Text.IsPySpace);
  }

  /** A rendered natural number holds no `-`, so a range token's first `-`
      is the one after its lower bound. */
  lemma NoMinusInDigits(a: nat)
    ensures '-' !in Numbers.ShowNat(a)
  {
    var left := Numbers.ShowNat(a);
    assert forall k :: 0 <= k < |left| ==> Numbers.IsDigit(left[k]);
  }

  /** A range token `a-b` written with decimal bounds names every page from
      `max(1, min(a, b))` to `max(a, b)`. */
  lemma RangeToken(a: nat, b: int)
    requires |Numbers.ShowNat(a)| <= Numbers.MaxStrDigits && Numbers.DigitCount(b) <= Numbers.MaxStrDigits
    ensures var r := TokenPages(Numbers.ShowNat(a) + "-" + Numbers.ShowInt(b));
            r.Success? && forall p :: p in r.value <==> Max(1, Min(a, b)) <= p <= Max(a, b)
  {
    var left, right := Numbers.ShowNat(a), Numbers.ShowInt(b);
    var t := left + "-" + right;
    assert Numbers.ParseInt(left) == Some(a) by {
      Numbers.ParseIntShowNat(a);
    }
    assert Numbers.ParseInt(right) == Some(b) by {
      Numbers.ParseIntShowInt(b);
    }
    assert PagesOfToken(t) == Success(RangePages(a, b)) by {
      NoMinusInDigits(a);
      RangeTokenSides(left, right);
    }
    assert TokenPages(t) == PagesOfToken(t) by {
      RangeTextStrips(a, b);
    }
  }

  /** A token `left-right` whose `left` holds no `-` names the range between
      the two sides when both parse, and raises the range error otherwise. */
  lemma RangeTokenSides(left: string, right: string)
    requires '-' !in left
    ensures var a, b := Numbers.ParseInt(left), Numbers.ParseInt(right);
            PagesOfToken(left + "-" + right) ==
              if a.Some? && b.Some? then Success(RangePages(a.value, b.value))
              else Failure(InvalidRangeToken(left + "-" + right))
  {
    Text.SplitOnceAt(left, '-', right);
  }

  /** A range token that starts and ends with a digit has nothing to strip. */
  lemma DigitsAtEndsStrip(left: string, right: string)
    requires |left| > 0 && Numbers.IsDigit(left[0])
    requires |right| > 0 && Numbers.IsDigit(right[|right| - 1])
    ensures TokenPages(left + "-" + right) == PagesOfToken(left + "-" + right)
  {
    var t := left + "-" + right;
    assert t[0] == left[0] && t[|t| - 1] == right[|right| - 1];
    Numbers.DigitNotSpace(t[0]);
    Numbers.DigitNotSpace(t[|t| - 1]);
    Text.StripFixed(t, Text.IsPySpace);
  }

  /** A range whose lower bound ends in the separator U+001C raises:
      stripping the token leaves the inner separator, and `int()` does not
      skip it. */
  lemma SeparatorInRangeRejected(a: nat, b: nat)
    ensures var t := Numbers.ShowNat(a) + "\U{1C}" + "-" + Numbers.ShowNat(b);
            TokenPages(t) == Failure(InvalidRangeToken(t))
  {
    var digits, right := Numbers.ShowNat(a), Numbers.ShowNat(b);
    var left := digits + "\U{1C}";
    var t := left + "-" + right;
    assert TokenPages(t) == PagesOfToken(t) by {
      assert left[0] == digits[0];
      DigitsAtEndsStrip(left, right);
    }
    assert '-' !in left by {
      NoMinusInDigits(a);
    }
    assert Numbers.ParseInt(left).None? by {
      Numbers.SeparatorNotSkipped(a);
    }
    RangeTokenSides(left, right);
  }

  /** A plain decimal token names that page, or nothing when it is 0. */
  lemma SinglePageToken(n: nat)
    requires |Numbers.ShowNat(n)| <= Numbers.MaxStrDigits
    ensures TokenPages(Numbers.ShowNat(n)) == Success(if n >= 1 then [n] else [])
  {
    var t := Numbers.ShowNat(n);
    Numbers.DigitNotSpace(t[0]);
    Numbers.DigitNotSpace(t[|t| - 1]);
    Text.StripFixed(t, Text.IsPySpace);
    assert '-' !in t by {
      assert forall k :: 0 <= k < |t| ==> Numbers.IsDigit(t[k]);
    }
    Numbers.ParseIntShowNat(n);
  }

  /** A page with more digits than `int()` accepts raises the page error. */
  lemma LongPageRejected(n: nat)
    requires |Numbers.ShowNat(n)| > Numbers.MaxStrDigits
    ensures var t := Numbers.ShowNat(n);
            TokenPages(t) == Failure(InvalidPageToken(t))
  {
    var t := Numbers.ShowNat(n);
    Numbers.DigitNotSpace(t[0]);
    Numbers.DigitNotSpace(t[|t| - 1]);
    Text.StripFixed(t, Text.IsPySpace);
    assert '-' !in t by {
      assert forall k :: 0 <= k < |t| ==> Numbers.IsDigit(t[k]);
    }
    Numbers.ParseIntTooLong(n);
  }

  /** A range whose lower bound has more digits than `int()` accepts raises
      the range error. */
  lemma LongRangeRejected(a: nat, b: nat)
    requires |Numbers.ShowNat(a)| > Numbers.MaxStrDigits
    ensures var t := Numbers.ShowNat(a) + "-" + Numbers.ShowNat(b);
            TokenPages(t) == Failure(InvalidRangeToken(t))
  {
    var left, right := Numbers.ShowNat(a), Numbers.ShowNat(b);
    var t := left + "-" + right;
    assert TokenPages(t) == PagesOfToken(t) by {
      DigitsAtEndsStrip(left, right);
    }
    assert '-' !in left by {
      NoMinusInDigits(a);
    }
    assert Numbers.ParseInt(left).None? by {
      Numbers.ParseIntTooLong(a);
    }
    RangeTokenSides(left, right);
  }

  /** Spaces around the `-` of a range are skipped by `int()`: `a - b` names
      the same pages as `a-b`. */
  lemma SpacedRangeToken(a: nat, b: nat)
    requires |Numbers.ShowNat(a)| <= Numbers.MaxStrDigits && |Numbers.ShowNat(b)| <= Numbers.MaxStrDigits
    ensures var r := TokenPages(Numbers.ShowNat(a) + " " + "-" + " " + Numbers.ShowNat(b));
            r.Success? && forall p :: p in r.value <==> Max(1, Min(a, b)) <= p <= Max(a, b)
  {
    var da, db := Numbers.ShowNat(a), Numbers.ShowNat(b);
    var left, right := da + " ", " " + db;
    SpacedLeft(a);
    SpacedRight(b);
    DigitsAtEndsStrip(left, right);
    RangeTokenSides(left, right);
    SpacedText(da, db);
  }

  /** The left side `a ` of a spaced range. */
  lemma SpacedLeft(a: nat)
    requires |Numbers.ShowNat(a)| <= Numbers.MaxStrDigits
    ensures var left := Numbers.ShowNat(a) + " ";
            '-' !in left && Numbers.IsDigit(left[0]) && Numbers.ParseInt(left) == Some(a)
  {
    var da := Numbers.ShowNat(a);
    var left := da + " ";
    NoMinusInDigits(a);
    assert left[0] == da[0];
    assert Numbers.ShowInt(a) == da;
    assert left == [] + da + " ";
    Numbers.ParseIntPaddedShowInt([], a, " ");
  }

  /** The right side ` b` of a spaced range. */
  lemma SpacedRight(b: nat)
    requires |Numbers.ShowNat(b)| <= Numbers.MaxStrDigits
    ensures var right := " " + Numbers.ShowNat(b);
            Numbers.IsDigit(right[|right| - 1]) && Numbers.ParseInt(right) == Some(b)
  {
    var db := Numbers.ShowNat(b);
    var right := " " + db;
    assert right[|right| - 1] == db[|db| - 1];
    assert Numbers.ShowInt(b) == db;
    assert right == " " + db + [];
    Numbers.ParseIntPaddedShowInt(" ", b, []);
  }

  lemma SpacedText(x: string, y: string)
    ensures (x + " ") + "-" + (" " + y) == x + " " + "-" + " " + y
  {
  }

  /** A negative page such as `-3` is read as a range with an empty left
      side, and raises. */
  lemma NegativePageRejected(n: nat)
    ensures var t := "-" + Numbers.ShowNat(n);
            TokenPages(t) == Failure(InvalidRangeToken(t))
  {
    var digits := Numbers.ShowNat(n);
    var t := "-" + digits;
    assert t[|t| - 1] == digits[|digits| - 1];
    Numbers.DigitNotSpace(t[|t| - 1]);
    Text.StripFixed(t, Text.IsPySpace);
    assert t[0] == '-';
    assert Text.IndexOf(t, '-') == 0;
    assert Text.SplitOnce(t, '-').0 == [];
    assert Text.Strip([], Text.IsPySpace) == [];
  }

  /** An open range such as `3-` raises. */
  lemma OpenRangeRejected(n: nat)
    ensures var t := Numbers.ShowNat(n) + "-";
            TokenPages(t) == Failure(InvalidRangeToken(t))
  {
    var digits := Numbers.ShowNat(n);
    var t := digits + "-";
    assert t[0] == digits[0];
    Numbers.DigitNotSpace(t[0]);
    Text.StripFixed(t, Text.IsPySpace);
    assert t[|digits|] == '-';
    assert Text.IndexOf(t, '-') == |digits| by {
      assert forall k :: 0 <= k < |digits| ==> t[k] == digits[k];
    }
    assert Text.SplitOnce(t, '-').1 == [];
    assert Text.Strip([], Text.IsPySpace) == [];
  }

  /** A token list that names no page gives `None`, as for `"0"`. */
  lemma ExampleZero()
    ensures ParsePages(Some("0")) == Success(None)
  {
    Text.SplitJoin(["0"], ',');
    assert Numbers.ShowNat(0) == "0";
    SinglePageToken(0);
  }
}
