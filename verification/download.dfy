/**
  The naming part of `download_pdf` (mohw_board_pdf_crawler.py): which
  downloads are kept, under which name, and how a name already taken in the
  output directory is replaced by the first free `<stem>_<n>.pdf`. The
  `pathlib` operations it uses are modelled after their pre-3.14 rules.
 */
module Download {
  import opened Wrappers
  import Text
  import Numbers
  import FileNames

  /** The extension every saved file gets. */
  const PdfExt: string := ".pdf"
  /** The media type that marks a response as a PDF. */
  const PdfMime: string := "application/pdf"
  /** The stem used when nothing of the announced name survives. */
  const DefaultStem: string := "document"

  /** The last component of `path` once `pathlib` drops empty and `.` parts
      (`PurePath.name`). */
  function LastComponent(parts: seq<string>): (r: string)
    ensures r != "."
    decreases |parts|
  {
    if |parts| == 0 then []
    else
      var last := parts[|parts| - 1];
      if last == [] || last == "." then LastComponent(parts[..|parts| - 1]) else last
  }

  function PathName(path: string): string {
    LastComponent(Text.Split(path, '/'))
  }

  /** Position of the last `c` in `s` (`str.rfind`), if any. */
  function LastIndexOf(s: string, c: char): (r: Option<nat>)
    ensures r.Some? ==> r.value < |s| && s[r.value] == c
    ensures r.Some? ==> forall k :: r.value < k < |s| ==> s[k] != c
    ensures r.None? <==> c !in s
  {
    if |s| == 0 then None
    else if s[|s| - 1] == c then Some(|s| - 1)
    else
      var r := LastIndexOf(s[..|s| - 1], c);
      assert s == s[..|s| - 1] + [s[|s| - 1]];
      r
  }

  /** The dot that separates stem and suffix: the last dot of the name, if
      it is neither the first nor the last character. */
  function SuffixDot(name: string): (r: Option<nat>)
    ensures r.Some? ==> 0 < r.value < |name| - 1 && name[r.value] == '.'
    ensures r.Some? ==> forall k :: r.value < k < |name| ==> name[k] != '.'
    ensures r.None? <==> forall i :: 0 < i < |name| - 1 && name[i] == '.' ==> name[|name| - 1] == '.'
  {
    match LastIndexOf(name, '.')
    case Some(i) => if 0 < i < |name| - 1 then Some(i) else None
    case None => None
  }

  /** `PurePath.suffix`. */
  function PathSuffix(path: string): string {
    var name := PathName(path);
    match SuffixDot(name)
    case Some(i) => name[i..]
    case None => []
  }

  /** `PurePath.stem`. */
  function PathStem(path: string): string {
    var name := PathName(path);
    match SuffixDot(name)
    case Some(i) => name[..i]
    case None => name
  }

  /** `sanitize_filename(Path(name).stem) or "document"`. */
  function StemName(name: string): (r: string)
    ensures |r| > 0
    ensures '/' !in r
    ensures |r| <= FileNames.MaxLength
    ensures FileNames.IsClean(PathStem(name)) && PathStem(name) != [] ==> r == PathStem(name)
    ensures Text.All(PathStem(name), Text.IsPySpace) ==> r == DefaultStem
  {
    var stem := PathStem(name);
    var s := FileNames.Sanitize(stem);
    assert FileNames.IsClean(stem) ==> s == stem by {
      if FileNames.IsClean(stem) {
        FileNames.SanitizeClean(stem);
      }
    }
    if s == [] then DefaultStem else s
  }

  /** The name `download_pdf` saves a download under before collisions are
      resolved, or `None` when it skips the download: the announced name is
      sanitized, and kept only if its suffix is `.pdf` in any letter case or
      the `Content-Type` says PDF; the saved name is the sanitized stem (or
      `document`) with `.pdf`. */
  function TargetName(announced: string, contentType: string): (r: Option<string>)
    ensures r.None? <==>
              && Text.AsciiLower(PathSuffix(FileNames.Sanitize(announced))) != PdfExt
              && !Text.Contains(Text.AsciiLower(contentType), PdfMime)
    ensures r.Some? ==> exists stem :: r.value == stem + PdfExt && 0 < |stem| <= FileNames.MaxLength && '/' !in stem
    ensures r.Some? ==> r.value == StemName(FileNames.Sanitize(announced)) + PdfExt
  {
    var name := FileNames.Sanitize(announced);
    var suffix := Text.AsciiLower(PathSuffix(name));
    var isPdf := Text.Contains(Text.AsciiLower(contentType), PdfMime);
    if suffix != PdfExt && !isPdf then None
    else Some(StemName(name) + PdfExt)
  }

  /** The `n`-th name tried for a file whose stem is `stem`: the plain name
      first, then `<stem>_<n>.pdf`. */
  function Candidate(stem: string, n: nat): string {
    if n == 0 then stem + PdfExt else stem + "_" + Numbers.ShowNat(n) + PdfExt
  }

  /** A name without `/` is its own last component, unless it is empty or `.`. */
  lemma PathNamePlain(p: string)
    requires '/' !in p && p != [] && p != "."
    ensures PathName(p) == p
  {
    Text.SplitAbsent(p, '/');
    assert [p][..0] == [];
  }

  /** In `<stem>.pdf` the last dot is the one before `pdf`. */
  lemma PdfDot(stem: string)
    ensures LastIndexOf(stem + PdfExt, '.') == Some(|stem|)
  {
    var n := stem + PdfExt;
    assert n[|stem|] == '.';
    assert n[|stem| + 1] == 'p' && n[|stem| + 2] == 'd' && n[|stem| + 3] == 'f';
  }

  /** The last dot of `<stem>.<ext>` is the one before `ext` when `ext` has
      no dot. */
  lemma ExtDot(stem: string, ext: string)
    requires |ext| > 1 && ext[0] == '.' && '.' !in ext[1..]
    ensures LastIndexOf(stem + ext, '.') == Some(|stem|)
  {
    var n := stem + ext;
    assert n[|stem|] == '.';
    forall k | |stem| < k < |n|
      ensures n[k] != '.'
    {
      assert n[k] == ext[1..][k - |stem| - 1];
    }
  }

  /** `Path(<stem><ext>)` splits into `<stem>` and `<ext>` when the stem is
      non-empty and `ext` is a dot followed by text without dots. */
  lemma ExtParts(stem: string, ext: string)
    requires |stem| > 0 && '/' !in stem
    requires |ext| > 1 && ext[0] == '.' && '.' !in ext[1..] && '/' !in ext
    ensures PathSuffix(stem + ext) == ext
    ensures PathStem(stem + ext) == stem
  {
    var n := stem + ext;
    assert n[|n| - 1] == ext[|ext| - 1];
    assert ext[|ext| - 1] == ext[1..][|ext| - 2];
    PathNamePlain(n);
    ExtDot(stem, ext);
    assert n[|stem|..] == ext;
    assert n[..|stem|] == stem;
  }

  /** `Path(<stem>.pdf)` has suffix `.pdf` and stem `<stem>` for a non-empty
      stem without `/`; so the loop's `Path(filename).stem` is the stem the
      name was built from. */
  lemma PdfNameParts(stem: string)
    requires |stem| > 0 && '/' !in stem
    ensures PathSuffix(stem + PdfExt) == PdfExt
    ensures PathStem(stem + PdfExt) == stem
  {
    var n := stem + PdfExt;
    assert '/' !in PdfExt;
    assert |n| > 1;
    PathNamePlain(n);
    PdfDot(stem);
    assert n[|stem|..] == PdfExt;
    assert n[..|stem|] == stem;
  }

  /** Every name tried is different from every other one. */
  lemma CandidateDistinct(stem: string, j: nat, k: nat)
    requires j != k
    ensures Candidate(stem, j) != Candidate(stem, k)
  {
    var a := Candidate(stem, j);
    var b := Candidate(stem, k);
    if j == 0 || k == 0 {
      assert |a| != |b|;
    } else {
      var dj := Numbers.ShowNat(j);
      var dk := Numbers.ShowNat(k);
      Numbers.ValueShowNat(j);
      Numbers.ValueShowNat(k);
      assert dj != dk;
      if |dj| == |dk| {
        var lo := |stem| + 1;
        assert a[lo..lo + |dj|] == dj;
        assert b[lo..lo + |dk|] == dk;
      } else {
        assert |a| != |b|;
      }
    }
  }

  /** The names tried before the `n`-th one. */
  function Tried(stem: string, n: nat): set<string> {
    if n == 0 then {} else Tried(stem, n - 1) + {Candidate(stem, n - 1)}
  }

  lemma {:induction false} TriedMembers(stem: string, n: nat, x: string)
    ensures x in Tried(stem, n) <==> exists j :: 0 <= j < n && x == Candidate(stem, j)
    decreases n
  {
    if n > 0 {
      TriedMembers(stem, n - 1, x);
    }
  }

  /** The `n`-th name has not been tried before. */
  lemma NotTried(stem: string, n: nat)
    ensures Candidate(stem, n) !in Tried(stem, n)
  {
    TriedMembers(stem, n, Candidate(stem, n));
    forall j | 0 <= j < n
      ensures Candidate(stem, n) != Candidate(stem, j)
    {
      CandidateDistinct(stem, n, j);
    }
  }

  /** The collision loop of `download_pdf`: tries `<stem>.pdf`, then
      `<stem>_1.pdf`, `<stem>_2.pdf`, ... and returns the first name that is
      not in `existing`, with its position in that order. */
  method ChooseFreeName(stem: string, existing: set<string>) returns (chosen: string, counter: nat)
    ensures chosen == Candidate(stem, counter)
    ensures chosen !in existing
    ensures forall j :: 0 <= j < counter ==> Candidate(stem, j) in existing
  {
    counter := 0;
    chosen := Candidate(stem, 0);
    ghost var remaining := existing;
    while chosen in existing
      invariant chosen == Candidate(stem, counter)
      invariant forall j :: 0 <= j < counter ==> Candidate(stem, j) in existing
      invariant forall x :: x in existing && x !in Tried(stem, counter) ==> x in remaining
      decreases |remaining|
    {
      NotTried(stem, counter);
      assert chosen in remaining;
      remaining := remaining - {chosen};
      counter := counter + 1;
      chosen := Candidate(stem, counter);
    }
  }

  /** At most one name is the first free one: the result of the loop is
      determined by the names already taken. */
  lemma FirstFreeUnique(stem: string, existing: set<string>, m: nat, n: nat)
    requires Candidate(stem, m) !in existing && forall j :: 0 <= j < m ==> Candidate(stem, j) in existing
    requires Candidate(stem, n) !in existing && forall j :: 0 <= j < n ==> Candidate(stem, j) in existing
    ensures m == n
  {
    assert !(m < n) by {
      assert m < n ==> Candidate(stem, m) in existing;
    }
    assert !(n < m) by {
      assert n < m ==> Candidate(stem, n) in existing;
    }
  }

  lemma PdfExtLower()
    ensures Text.AsciiLower(PdfExt) == PdfExt
  {
    Text.AsciiLowerNoUpper(PdfExt);
  }

  /** An extension `pathlib` splits off and `sanitize_filename` keeps: a
      dot, then allowed characters without dots or slashes, ending in a
      non-space. */
  predicate IsPlainExt(ext: string) {
    && |ext| > 1 && ext[0] == '.' && '.' !in ext[1..] && '/' !in ext
    && (forall k :: 0 <= k < |ext| ==> FileNames.Allowed(ext[k]))
    && !Text.IsPySpace(ext[|ext| - 1])
  }

  lemma PdfExtPlain()
    ensures IsPlainExt(PdfExt)
  {
  }

  lemma UpperPdfExtPlain()
    ensures IsPlainExt(".PDF")
    ensures Text.AsciiLower(".PDF") == PdfExt
  {
  }

  /** Appending such an extension to a clean stem keeps the name clean while
      it fits in 200 characters. */
  lemma CleanWithExt(stem: string, ext: string)
    requires FileNames.IsClean(stem) && |stem| > 0
    requires IsPlainExt(ext) && |stem| + |ext| <= FileNames.MaxLength
    ensures FileNames.IsClean(stem + ext)
  {
    var n := stem + ext;
    assert n[0] == stem[0];
    assert n[|n| - 1] == ext[|ext| - 1];
    forall k | 0 <= k < |n|
      ensures FileNames.Allowed(n[k])
    {
      if k < |stem| {
        assert n[k] == stem[k];
      } else {
        assert n[k] == ext[k - |stem|];
      }
    }
  }

  /** A clean, non-empty stem has no `/`. */
  lemma CleanNoSlash(stem: string)
    requires FileNames.IsClean(stem)
    ensures '/' !in stem
  {
    forall k | 0 <= k < |stem|
      ensures stem[k] != '/'
    {
      assert FileNames.Allowed(stem[k]);
    }
  }

  /** A download announced as `<stem>.pdf` with a clean stem is saved under
      that name, whatever its `Content-Type`. */
  lemma PdfNameKept(stem: string, contentType: string)
    requires FileNames.IsClean(stem) && 0 < |stem| <= FileNames.MaxLength - |PdfExt|
    ensures TargetName(stem + PdfExt, contentType) == Some(stem + PdfExt)
  {
    PdfExtPlain();
    CleanWithExt(stem, PdfExt);
    FileNames.SanitizeClean(stem + PdfExt);
    CleanNoSlash(stem);
    ExtParts(stem, PdfExt);
    PdfExtLower();
    FileNames.SanitizeClean(stem);
  }

  /** The suffix test ignores letter case, and the saved name gets a
      lower-case `.pdf`. */
  lemma UpperPdfRenamed(stem: string, contentType: string)
    requires FileNames.IsClean(stem) && 0 < |stem| <= FileNames.MaxLength - |PdfExt|
    ensures TargetName(stem + ".PDF", contentType) == Some(stem + PdfExt)
  {
    UpperPdfExtPlain();
    CleanWithExt(stem, ".PDF");
    FileNames.SanitizeClean(stem + ".PDF");
    CleanNoSlash(stem);
    ExtParts(stem, ".PDF");
    FileNames.SanitizeClean(stem);
  }

  /** A name without a suffix is kept, with `.pdf` added, when the
      `Content-Type` says PDF. */
  lemma MimeAddsExtension(stem: string, contentType: string)
    requires FileNames.IsClean(stem) && |stem| > 0 && '.' !in stem
    requires Text.Contains(Text.AsciiLower(contentType), PdfMime)
    ensures TargetName(stem, contentType) == Some(stem + PdfExt)
  {
    FileNames.SanitizeClean(stem);
    CleanNoSlash(stem);
    PathNamePlain(stem);
    assert PathSuffix(stem) == [];
    assert PathStem(stem) == stem;
  }

  /** A blank announced name with a PDF `Content-Type` is saved as
      `document.pdf`. */
  lemma BlankNameIsDocument(announced: string, contentType: string)
    requires Text.All(announced, Text.IsPySpace)
    requires Text.Contains(Text.AsciiLower(contentType), PdfMime)
    ensures TargetName(announced, contentType) == Some(DefaultStem + PdfExt)
  {
    assert FileNames.Sanitize(announced) == [];
    Text.SplitAbsent([], '/');
    assert PathName([]) == [];
    assert FileNames.Sanitize([]) == [] by {
      assert Text.All([], Text.IsPySpace);
    }
  }

  /** A name that is a lone dot has no `pathlib` name at all, so with a PDF
      `Content-Type` it is saved as `document.pdf`. */
  lemma DotNameIsDocument(contentType: string)
    requires Text.Contains(Text.AsciiLower(contentType), PdfMime)
    ensures TargetName(".", contentType) == Some(DefaultStem + PdfExt)
  {
    assert FileNames.Sanitize(".") == "." by {
      assert FileNames.Allowed('.');
      FileNames.SanitizeClean(".");
    }
    assert PathName(".") == [] by {
      Text.SplitAbsent(".", '/');
      assert LastComponent(["."]) == LastComponent([]);
    }
    assert PathStem(".") == [] by {
      assert SuffixDot([]) == None;
    }
  }

  /** Every name tried ends in the suffix `.pdf`. */
  lemma CandidateSuffix(stem: string, n: nat)
    requires |stem| > 0 && '/' !in stem
    ensures PathSuffix(Candidate(stem, n)) == PdfExt
  {
    PdfExtPlain();
    if n == 0 {
      ExtParts(stem, PdfExt);
    } else {
      var digits := Numbers.ShowNat(n);
      var base := stem + "_" + digits;
      assert '/' !in digits by {
        forall k | 0 <= k < |digits|
          ensures digits[k] != '/'
        {
          assert Numbers.IsDigit(digits[k]);
        }
      }
      assert '/' !in base;
      ExtParts(base, PdfExt);
    }
  }

  /** `name` is the first of the names tried for `stem` that is not yet in
      `existing`. */
  ghost predicate FirstFree(stem: string, existing: set<string>, name: string) {
    exists k: nat :: name == Candidate(stem, k) && name !in existing
                && forall j :: 0 <= j < k ==> Candidate(stem, j) in existing
  }

  /** There is only one first free name, so `FirstFree` pins the saved name
      down. */
  lemma FirstFreeDetermined(stem: string, existing: set<string>, a: string, b: string)
    requires FirstFree(stem, existing, a) && FirstFree(stem, existing, b)
    ensures a == b
  {
    var m: nat :| a == Candidate(stem, m) && a !in existing
                  && forall j :: 0 <= j < m ==> Candidate(stem, j) in existing;
    var n: nat :| b == Candidate(stem, n) && b !in existing
                  && forall j :: 0 <= j < n ==> Candidate(stem, j) in existing;
    FirstFreeUnique(stem, existing, m, n);
  }

  /** The naming steps of `download_pdf`: `None` when the download is
      skipped, otherwise the name the file is written under in a directory
      that already holds `existing`. */
  method SaveName(announced: string, contentType: string, existing: set<string>) returns (saved: Option<string>)
    ensures saved.None? <==> TargetName(announced, contentType).None?
    ensures saved.Some? ==> saved.value !in existing && PathSuffix(saved.value) == PdfExt
    ensures saved.Some? && TargetName(announced, contentType).value !in existing ==>
              saved == TargetName(announced, contentType)
    ensures saved.Some? ==> FirstFree(TargetStem(announced, contentType), existing, saved.value)
  {
    var target := TargetName(announced, contentType);
    if target.None? {
      saved := None;
    } else {
      var stem := TargetStem(announced, contentType);
      var chosen, counter := ChooseFreeName(stem, existing);
      CandidateSuffix(stem, counter);
      saved := Some(chosen);
      assert FirstFree(stem, existing, chosen);
    }
  }

  /** The stem of the target name, the one the collision loop builds its
      alternatives from. */
  function TargetStem(announced: string, contentType: string): (stem: string)
    ensures |stem| > 0 && '/' !in stem
    ensures TargetName(announced, contentType).Some? ==>
              && TargetName(announced, contentType).value == Candidate(stem, 0)
              && PathStem(TargetName(announced, contentType).value) == stem
  {
    var stem := StemName(FileNames.Sanitize(announced));
    PdfNameParts(stem);
    stem
  }
}
