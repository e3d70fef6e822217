/**
  `sanitize_filename` of the crawler (mohw_board_pdf_crawler.py): every
  maximal run of characters outside an allowed class becomes one `_`, the
  result is stripped of whitespace and cut to 200 characters.
 */
module FileNames {
  import Text

  /** The length `sanitize_filename` cuts names to. */
  const MaxLength: nat := 200

  /** Hangul syllables, the range `가-힣` of the character class. */
  predicate IsHangulSyllable(c: char) {
    '\U{AC00}' <= c <= '\U{D7A3}'
  }

  /** The word characters `\w` stands for: ASCII letters and digits, `_`, and
      Hangul syllables (Python's Unicode `\w` admits further letters and
      digits of other scripts). */
  predicate IsWordChar(c: char) {
    || ('a' <= c <= 'z') || ('A' <= c <= 'Z') || ('0' <= c <= '9')
    || c == '_' || IsHangulSyllable(c)
  }

  /** Membership in the class `[\w\-\.\s가-힣()_\[\]]`. */
  predicate Allowed(c: char) {
    || IsWordChar(c) || c == '-' || c == '.' || Text.IsPySpace(c)
    || IsHangulSyllable(c) || c == '(' || c == ')' || c == '_' || c == '[' || c == ']'
  }

  predicate Disallowed(c: char) {
    !Allowed(c)
  }

  /** `re.sub(r"[^\w\-\.\s가-힣()_\[\]]+", "_", s)`: allowed characters are
      kept, and each maximal run of other characters becomes a single `_`. */
  function CollapseRuns(s: string): (r: string)
    ensures |r| <= |s|
    decreases |s|
  {
    if |s| == 0 then []
    else if Allowed(s[0]) then [s[0]] + CollapseRuns(s[1..])
    else
      var n := Text.LeadingCount(s, Disallowed);
      ['_'] + CollapseRuns(s[n..])
  }

  /** The substitution leaves only allowed characters. */
  lemma {:induction false} CollapseRunsOnlyAllowed(s: string)
    ensures forall k :: 0 <= k < |CollapseRuns(s)| ==> Allowed(CollapseRuns(s)[k])
    decreases |s|
  {
    if |s| > 0 {
      var tail := if Allowed(s[0]) then s[1..] else s[Text.LeadingCount(s, Disallowed)..];
      CollapseRunsOnlyAllowed(tail);
      var r := CollapseRuns(s);
      assert r == [r[0]] + CollapseRuns(tail);
      assert Allowed(r[0]);
    }
  }

  /** The substitution read from the other end: appending an allowed
      character appends it, appending a disallowed one appends `_` unless it
      extends a run that has already been replaced. */
  predicate SnocLaw(s: string, c: char) {
    CollapseRuns(s + [c]) ==
      if Allowed(c) then CollapseRuns(s) + [c]
      else if |s| > 0 && Disallowed(s[|s| - 1]) then CollapseRuns(s)
      else CollapseRuns(s) + ['_']
  }

  lemma {:induction false} CollapseRunsSnoc(s: string, c: char)
    ensures SnocLaw(s, c)
    decreases |s|
  {
    if |s| == 0 {
      SnocEmpty(c);
    } else if Allowed(s[0]) {
      CollapseRunsSnoc(s[1..], c);
      SnocAllowedHead(s, c);
    } else {
      var n := Text.LeadingCount(s, Disallowed);
      if n < |s| {
        CollapseRunsSnoc(s[n..], c);
        SnocRunHead(s, c);
      } else {
        SnocWholeRun(s, c);
      }
    }
  }

  lemma SnocEmpty(c: char)
    ensures SnocLaw([], c)
  {
    assert [] + [c] == [c];
    if !Allowed(c) {
      assert Text.LeadingCount([c], Disallowed) == 1;
    }
  }

  lemma SnocAllowedHead(s: string, c: char)
    requires |s| > 0 && Allowed(s[0])
    requires SnocLaw(s[1..], c)
    ensures SnocLaw(s, c)
  {
    var t := s[1..];
    var sc := s + [c];
    assert sc[1..] == t + [c];
    assert CollapseRuns(sc) == [s[0]] + CollapseRuns(t + [c]);
    if |s| > 1 {
      assert t[|t| - 1] == s[|s| - 1];
      Prepend(s[0], CollapseRuns(t), CollapseRuns(t + [c]), c, Disallowed(s[|s| - 1]));
    } else {
      assert t == [];
      Prepend(s[0], CollapseRuns(t), CollapseRuns(t + [c]), c, false);
    }
  }

  lemma SnocRunHead(s: string, c: char)
    requires |s| > 0 && !Allowed(s[0])
    requires Text.LeadingCount(s, Disallowed) < |s|
    requires SnocLaw(s[Text.LeadingCount(s, Disallowed)..], c)
    ensures SnocLaw(s, c)
  {
    var n := Text.LeadingCount(s, Disallowed);
    var t := s[n..];
    RunHeadUnfold(s, c);
    assert t[|t| - 1] == s[|s| - 1];
    Prepend('_', CollapseRuns(t), CollapseRuns(t + [c]), c, Disallowed(s[|s| - 1]));
  }

  /** A name starting with a replaced run, before and after appending. */
  lemma RunHeadUnfold(s: string, c: char)
    requires |s| > 0 && !Allowed(s[0])
    requires Text.LeadingCount(s, Disallowed) < |s|
    ensures var n := Text.LeadingCount(s, Disallowed);
            && CollapseRuns(s) == ['_'] + CollapseRuns(s[n..])
            && CollapseRuns(s + [c]) == ['_'] + CollapseRuns(s[n..] + [c])
  {
    var n := Text.LeadingCount(s, Disallowed);
    var sc := s + [c];
    UnfoldRun(s);
    assert sc[0] == s[0];
    UnfoldRun(sc);
    Text.LeadingCountSnocInner(s, c, Disallowed);
    assert sc[n..] == s[n..] + [c];
  }

  /** One step of the substitution at a disallowed first character. */
  lemma UnfoldRun(s: string)
    requires |s| > 0 && !Allowed(s[0])
    ensures CollapseRuns(s) == ['_'] + CollapseRuns(s[Text.LeadingCount(s, Disallowed)..])
  {
  }

  /** Prepending a character to both sides of the appending law keeps it. */
  lemma Prepend(x: char, r: string, rc: string, c: char, lastReplaced: bool)
    requires rc == if Allowed(c) then r + [c] else if lastReplaced then r else r + ['_']
    ensures [x] + rc == if Allowed(c) then ([x] + r) + [c]
                        else if lastReplaced then [x] + r else ([x] + r) + ['_']
  {
  }

  lemma SnocWholeRun(s: string, c: char)
    requires |s| > 0 && !Allowed(s[0])
    requires Text.LeadingCount(s, Disallowed) == |s|
    ensures SnocLaw(s, c)
  {
    var n := |s|;
    var sc := s + [c];
    Text.LeadingCountSnoc(s, c, Disallowed);
    assert Disallowed(s[|s| - 1]);
    if Allowed(c) {
      assert sc[n..] == [c];
      assert CollapseRuns([c]) == [c];
    }
  }

  /** A name made only of allowed characters is left alone by the substitution. */
  lemma {:induction false} CollapseRunsAllowed(s: string)
    requires forall k :: 0 <= k < |s| ==> Allowed(s[k])
    ensures CollapseRuns(s) == s
    decreases |s|
  {
    if |s| > 0 {
      CollapseRunsAllowed(s[1..]);
      assert s == [s[0]] + s[1..];
    }
  }

  /** The substitution leaves a non-whitespace character exactly when the
      name has one. */
  lemma {:induction false} CollapseRunsNonSpace(s: string)
    ensures Text.All(CollapseRuns(s), Text.IsPySpace) <==> Text.All(s, Text.IsPySpace)
    decreases |s|
  {
    if |s| > 0 {
      var r := CollapseRuns(s);
      if Allowed(s[0]) {
        CollapseRunsNonSpace(s[1..]);
        var r1 := CollapseRuns(s[1..]);
        assert r == [s[0]] + r1;
        Text.AllCons(s[0], r1, Text.IsPySpace);
        assert s == [s[0]] + s[1..];
        Text.AllCons(s[0], s[1..], Text.IsPySpace);
      } else {
        assert r[0] == '_';
        assert !Text.IsPySpace(s[0]);
      }
    }
  }

  /** The name after substitution and whitespace stripping, before the cut. */
  function Cleaned(name: string): (r: string)
    ensures forall k :: 0 <= k < |r| ==> Allowed(r[k])
    ensures |r| > 0 ==> !Text.IsPySpace(r[0])
    ensures r == [] <==> Text.All(name, Text.IsPySpace)
  {
    var collapsed := CollapseRuns(name);
    CollapseRunsOnlyAllowed(name);
    Text.StripSubset(collapsed, Text.IsPySpace, Allowed);
    CollapseRunsNonSpace(name);
    StripEmptyIffSpace(collapsed);
    Text.Strip(collapsed, Text.IsPySpace)
  }

  /** `sanitize_filename`: the cleaned name cut to its first 200 characters. */
  function Sanitize(name: string): (r: string)
    ensures |r| <= MaxLength
    ensures forall k :: 0 <= k < |r| ==> Allowed(r[k])
    ensures '/' !in r
    ensures |r| > 0 ==> !Text.IsPySpace(r[0])
    ensures r == [] <==> Text.All(name, Text.IsPySpace)
  {
    var c := Cleaned(name);
    var r := if |c| <= MaxLength then c else c[..MaxLength];
    assert forall k :: 0 <= k < |r| ==> r[k] == c[k];
    SlashDisallowed();
    r
  }

  lemma SlashDisallowed()
    ensures !Allowed('/')
  {
  }

  lemma StripEmptyIffSpace(s: string)
    ensures Text.Strip(s, Text.IsPySpace) == [] <==> Text.All(s, Text.IsPySpace)
  {
    if !Text.All(s, Text.IsPySpace) {
      var k :| 0 <= k < |s| && !Text.IsPySpace(s[k]);
      Text.StripKeeps(s, Text.IsPySpace, s[k]);
    } else {
      Text.StripAll(s, Text.IsPySpace);
    }
  }

  /** A name `sanitize_filename` has nothing to do on: allowed characters
      only, no surrounding whitespace, at most 200 characters. */
  predicate IsClean(name: string) {
    && (forall k :: 0 <= k < |name| ==> Allowed(name[k]))
    && (|name| > 0 ==> !Text.IsPySpace(name[0]) && !Text.IsPySpace(name[|name| - 1]))
    && |name| <= MaxLength
  }

  /** A clean name is its own sanitized form. */
  lemma SanitizeClean(name: string)
    requires IsClean(name)
    ensures Sanitize(name) == name
  {
    CollapseRunsAllowed(name);
    Text.StripFixed(name, Text.IsPySpace);
  }
}
