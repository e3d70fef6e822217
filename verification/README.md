# Board PDF crawler and site configuration, modelled in Dafny

This project models the deterministic core of two programs:

- **The crawler** `mohw_board_pdf_crawler.py` collects notices from the
  Ministry of Health and Welfare board together with their PDF attachments.
- **The Next.js configuration** `next.config.ts` decides whether the site is
  built as a static export served under a base path.

The crawler's core covers five things:

- **`--pages` argument.** `parse_pages_argument` reads it as a
  comma-separated list of pages and ranges (module `PageSpec`).
- **File-name cleaning.** `sanitize_filename` (module `FileNames`).
- **Name from the response header.** `_resolve_filename` reads the name a
  download announces in `Content-Disposition` (module `ContentDisposition`).
- **Saved name.** This is the naming and collision part of `download_pdf`:
  which downloads are kept, under which `.pdf` name, and which `_<n>`
  alternative is used when the name is taken (module `Download`).
- **Page loop.** The filtering and de-duplication of `parse_list` and
  `extract_pdf_links` (module `Links`, on top of the generic `Dedup`), and
  the page loop of `crawl_all` (module `Crawl`).

The configuration's core is `NextConfig`. It covers:

- the trimming and slash stripping of `NEXT_PUBLIC_BASE_PATH`;
- `shouldExport`;
- the spread of the export overrides over the base configuration.

Shared primitives live in `Text` and `Numbers`:

- Python `str.strip`, `split`, `lower` and `in`;
- JavaScript `trim`;
- Python `int()` together with the decimal rendering it inverts.

Everything the programs take from outside is a parameter of the model:

- **HTML.** A page is the sequence of its `<a>` elements, each with an
  optional `href`, an optional `title` and its stripped text.
- **URL and hashing library calls.** `urljoin`, `urlparse(...).query`, the
  first `parse_qs` value and the md5 digest are function values in
  `Links.UrlOps`. Percent-decoding (`unquote`) is a function parameter.
- **Directory contents.** The files already in the output directory are a
  set of names.
- **Page outcomes.** Whether a list page yields posts is a predicate
  `processed` on page numbers.
- **Environment.** The environment of the build is an `Env` value.

`crawl_all` without an end page stops at the first two failed pages in a
row. `Crawl.CrawlPages` therefore takes a ghost page `boardEnd` with
`boardEnd` and `boardEnd + 1` both failing, at or after the first page, and
requires it only in that case. Every run of the loop that ends has such a
pair (`Crawl.OpenCrawlEndsOnPair`).

## Model

| member | source | states |
|---|---|---|
| Text.Strip | mohw_board_pdf_crawler.py:100 | Python `str.strip()`: the result is no longer than the input and neither starts nor ends with a stripped character |
| Text.StripFixed | mohw_board_pdf_crawler.py:371 | a token that neither starts nor ends with whitespace is unchanged by `strip()` |
| Text.StripAll | mohw_board_pdf_crawler.py:371-373 | a token made only of whitespace strips to the empty token that the parser skips |
| Text.StripPadded | mohw_board_pdf_crawler.py:184 | `part.strip()` removes exactly the whitespace in front of a part that neither starts nor ends with whitespace |
| Text.TrailingCountPadded | mohw_board_pdf_crawler.py:100 | the trailing run of stripped characters behind a character outside the set is exactly the padding |
| Text.StripBothPads | mohw_board_pdf_crawler.py:100 | `strip()` returns exactly the text between the leading and the trailing whitespace runs, for every string that is not all whitespace |
| Text.StripKeeps | mohw_board_pdf_crawler.py:182-184 | a `=` in a part survives `part.strip()`, so the split at `=` after stripping always has two sides |
| Text.AsciiLower | mohw_board_pdf_crawler.py:153 | `lower()` keeps the length and maps exactly the ASCII capitals to their small letters |
| Text.Find | mohw_board_pdf_crawler.py:190 | the first occurrence of a needle: it occurs there, nowhere before, and there is none exactly when the string does not contain it |
| Text.SplitOnce | mohw_board_pdf_crawler.py:375 | `split(sep, 1)` of a string holding `sep`: the text before the first separator and the rest, which put back together give the string |
| Text.Split | mohw_board_pdf_crawler.py:370 | `split(sep)`: at least one piece, no piece holds the separator, and joining the pieces with it gives the string back |
| Text.SplitJoin | mohw_board_pdf_crawler.py:370 | splitting is the inverse of joining separator-free pieces |
| Text.JoinLast | mohw_board_pdf_crawler.py:156 | joining puts exactly one separator in front of the last piece |
| Text.SplitLast | mohw_board_pdf_crawler.py:156 | the last piece of `split(sep)` is the whole string when it holds no separator, and otherwise the text after some separator |
| Text.SplitTwo | mohw_board_pdf_crawler.py:180 | `a;b` splits into exactly `a` and `b` |
| Numbers.ParseDecimal | mohw_board_pdf_crawler.py:388 | `int()` of unsigned text succeeds exactly on digits with single underscores between digits, at most 4300 digits not counting the underscores |
| Numbers.ParseInt | mohw_board_pdf_crawler.py:377-378 | `int()` fails on text that is blank in its own whitespace set and returns a negative number only for text with a minus sign |
| Numbers.ParseIntPadded | mohw_board_pdf_crawler.py:377-378 | `int()` skips padding of its own whitespace on both sides and reads what is between as a signed literal |
| Numbers.ParseIntPaddedShowInt | mohw_board_pdf_crawler.py:377-378 | a rendered integer within the digit limit, padded on both sides with `int()` whitespace, reads back as itself |
| Numbers.ParseIntTooLong | mohw_board_pdf_crawler.py:388-390 | a number with more than 4300 digits does not parse |
| Numbers.SeparatorNotSkipped | mohw_board_pdf_crawler.py:377-378 | a number followed by U+001C does not parse, although `str.strip()` would remove that character |
| Numbers.ParseIntShowInt | mohw_board_pdf_crawler.py:377-378 | `int(str(i)) == i` for every integer of at most 4300 digits |
| Numbers.ShowNatInjective | mohw_board_pdf_crawler.py:235 | different counters render as different digit strings |
| PageSpec.Range | mohw_board_pdf_crawler.py:385 | `range(lo, hi + 1)` is ascending and holds exactly the integers from `lo` to `hi` |
| PageSpec.SortedDistinct | mohw_board_pdf_crawler.py:395 | `sorted(set)` is ascending and holds exactly the elements of its input |
| PageSpec.StrictlyIncreasingUnique | mohw_board_pdf_crawler.py:301 | two ascending lists with the same elements are equal, so the sorted page set is unique |
| PageSpec.RangePages | mohw_board_pdf_crawler.py:381-385 | a range adds exactly the pages from `max(1, min(a, b))` to `max(a, b)`, in ascending order |
| PageSpec.PagesOfToken | mohw_board_pdf_crawler.py:374-392 | a non-blank token adds only pages of at least 1, and an error carries the stripped token |
| PageSpec.TokenPages | mohw_board_pdf_crawler.py:371-373 | a blank token adds nothing and raises nothing |
| PageSpec.ParsePages | mohw_board_pdf_crawler.py:365-395 | a missing or empty argument gives `None`; a list result is non-empty, strictly increasing and at least 1 |
| PageSpec.CollectPagesValid | mohw_board_pdf_crawler.py:369-392 | the scan over tokens succeeds exactly when every token is valid, and then its pages are exactly those the tokens name |
| PageSpec.CollectPagesFirstError | mohw_board_pdf_crawler.py:370-390 | a failing scan reports the error of the first invalid token, with every earlier token valid |
| PageSpec.ParsePagesSpec | mohw_board_pdf_crawler.py:365-395 | it raises exactly when some token is invalid, and then with the first one's error; otherwise the list holds exactly the pages the tokens name, and the result is `None` exactly when they name none |
| PageSpec.RangeToken | mohw_board_pdf_crawler.py:374-385 | the token `a-b` with bounds of at most 4300 digits names every page from `max(1, min(a, b))` to `max(a, b)`, reversed bounds included |
| PageSpec.SpacedRangeToken | mohw_board_pdf_crawler.py:374-385 | `a - b` names the same pages as `a-b`, because `int()` skips the spaces around each side |
| PageSpec.LongRangeRejected | mohw_board_pdf_crawler.py:374-380 | a range whose lower bound has more than 4300 digits raises the range error |
| PageSpec.RangeTokenSides | mohw_board_pdf_crawler.py:374-385 | a token `left-right` whose left side holds no `-` names the range between the two sides when both parse as integers, and raises the range error otherwise |
| PageSpec.SinglePageToken | mohw_board_pdf_crawler.py:386-392 | the token `n` of at most 4300 digits names page `n`, and names nothing for 0 |
| PageSpec.LongPageRejected | mohw_board_pdf_crawler.py:386-390 | a page token of more than 4300 digits raises the page error |
| PageSpec.SeparatorInRangeRejected | mohw_board_pdf_crawler.py:371-379 | a range token whose lower bound ends in U+001C raises the range error: stripping the token leaves the inner separator, and `int()` does not skip it |
| PageSpec.NegativePageRejected | mohw_board_pdf_crawler.py:374-380 | `-3` is read as a range with an empty left side and raises the range error |
| PageSpec.OpenRangeRejected | mohw_board_pdf_crawler.py:374-380 | `3-` raises the range error |
| PageSpec.ExampleZero | mohw_board_pdf_crawler.py:391-394 | the argument `0` names no page and gives `None` |
| FileNames.CollapseRunsOnlyAllowed | mohw_board_pdf_crawler.py:99 | after the substitution every character is in the allowed class |
| FileNames.CollapseRunsSnoc | mohw_board_pdf_crawler.py:99 | an allowed character is kept, and a disallowed one becomes one `_` unless it continues a run already replaced: every maximal disallowed run becomes a single `_` |
| FileNames.RunHeadUnfold | mohw_board_pdf_crawler.py:99 | a leading disallowed run becomes one `_`, whatever follows it |
| FileNames.CollapseRunsAllowed | mohw_board_pdf_crawler.py:99 | a name made only of allowed characters is not changed by the substitution |
| FileNames.CollapseRunsNonSpace | mohw_board_pdf_crawler.py:99-100 | the substitution leaves a non-whitespace character exactly when the name has one |
| FileNames.Cleaned | mohw_board_pdf_crawler.py:99-100 | the substituted and stripped name has only allowed characters, does not start with whitespace, and is empty exactly for a blank name |
| FileNames.Sanitize | mohw_board_pdf_crawler.py:97-100 | the result has at most 200 characters, all allowed, no `/`, and no leading whitespace, and is empty exactly for a blank name |
| FileNames.StripEmptyIffSpace | mohw_board_pdf_crawler.py:100 | `strip()` gives the empty string exactly for a blank string |
| FileNames.SanitizeClean | mohw_board_pdf_crawler.py:97-100 | a name with only allowed characters, no surrounding whitespace and at most 200 characters is left as it is |
| ContentDisposition.FirstSome | mohw_board_pdf_crawler.py:181-197 | the scan finds nothing exactly when no part names a file, and otherwise stops at the first part that does |
| ContentDisposition.ResolveFilename | mohw_board_pdf_crawler.py:174-200 | no header gives the fallback; the result is non-empty whenever the fallback is; any other result is the name the header announces |
| ContentDisposition.ResolveFirstMatch | mohw_board_pdf_crawler.py:179-200 | the first part that names a file decides the result, whatever later parts say, and an empty name gives the fallback |
| ContentDisposition.ResolveNoMatch | mohw_board_pdf_crawler.py:179-200 | a header whose parts name no file gives the fallback |
| ContentDisposition.KeyedPart | mohw_board_pdf_crawler.py:182-197 | a part `key=value` is judged by its lower-case key: `filename*` and `filename` name a file, any other key does not |
| ContentDisposition.ExtendedValue | mohw_board_pdf_crawler.py:189-191 | `charset''text` yields `text` |
| ContentDisposition.LanguageTagValue | mohw_board_pdf_crawler.py:189-191 | `charset'lang'text` has no `''` and yields the empty string |
| ContentDisposition.ExtendedPart | mohw_board_pdf_crawler.py:187-194 | the part `filename*=charset''text` names the decoding of `text` |
| ContentDisposition.LanguageTagPart | mohw_board_pdf_crawler.py:187-194 | the part `filename*=charset'lang'text` names the decoding of the empty string |
| ContentDisposition.TwoParts | mohw_board_pdf_crawler.py:180-183 | in `disposition; part`, a disposition without `=` is skipped and the part decides |
| ContentDisposition.OnePart | mohw_board_pdf_crawler.py:180 | a header of one part is decided by that part |
| ContentDisposition.ResolveExtended | mohw_board_pdf_crawler.py:179-200 | `attachment; filename*=UTF-8''text` resolves to the decoded text, or to the fallback when that is empty |
| ContentDisposition.ResolveLanguageTag | mohw_board_pdf_crawler.py:187-200 | `filename*=charset'lang'text` resolves to the fallback, whatever the text is |
| Download.LastIndexOf | mohw_board_pdf_crawler.py:207 | the last occurrence of a character, or none exactly when it does not occur |
| Download.SuffixDot | mohw_board_pdf_crawler.py:207 | the dot that splits stem and suffix is the last dot of the name and is neither its first nor its last character; there is none exactly when every dot inside the name is followed by a dot at its end |
| Download.ExtParts | mohw_board_pdf_crawler.py:207-213 | `Path(stem + ext)` has suffix `ext` and stem `stem` for a non-empty stem and a dotted extension |
| Download.PdfNameParts | mohw_board_pdf_crawler.py:225-235 | `Path(stem.pdf)` has suffix `.pdf` and stem `stem`, so the loop rebuilds its alternatives from the saved stem |
| Download.StemName | mohw_board_pdf_crawler.py:213 | the sanitized stem, or `document`, is non-empty, has no `/` and at most 200 characters; a clean non-empty stem is kept as it is, and a blank stem becomes `document` |
| Download.TargetName | mohw_board_pdf_crawler.py:205-226 | a download is skipped exactly when its sanitized suffix is not `.pdf` in any case and its `Content-Type` does not mention `application/pdf`; a kept one is named `stem.pdf` with a non-empty stem of at most 200 characters without `/`, and that stem is the `StemName` of the sanitized name |
| Download.PdfNameKept | mohw_board_pdf_crawler.py:205-226 | a clean `stem.pdf` is saved under that name, whatever the `Content-Type` |
| Download.UpperPdfRenamed | mohw_board_pdf_crawler.py:207-226 | `stem.PDF` is kept and saved as `stem.pdf` |
| Download.MimeAddsExtension | mohw_board_pdf_crawler.py:208-214 | a name without a suffix is saved with `.pdf` added when the `Content-Type` says PDF |
| Download.DotNameIsDocument | mohw_board_pdf_crawler.py:205-214 | the name `.` has no `pathlib` name, so with a PDF `Content-Type` it is saved as `document.pdf` |
| Download.BlankNameIsDocument | mohw_board_pdf_crawler.py:205-214 | a blank name with a PDF `Content-Type` is saved as `document.pdf` |
| Download.CleanWithExt | mohw_board_pdf_crawler.py:100 | a clean stem with a plain extension stays clean while it fits in 200 characters |
| Download.CleanNoSlash | mohw_board_pdf_crawler.py:99 | a clean name has no `/` |
| Download.CandidateDistinct | mohw_board_pdf_crawler.py:232-236 | the names the loop tries are pairwise different |
| Download.CandidateSuffix | mohw_board_pdf_crawler.py:235 | every name the loop tries has suffix `.pdf` |
| Download.TriedMembers | mohw_board_pdf_crawler.py:232-236 | the names tried before step `n` are exactly the first `n` candidates |
| Download.NotTried | mohw_board_pdf_crawler.py:232-236 | the loop never tries a name twice |
| Download.ChooseFreeName | mohw_board_pdf_crawler.py:232-237 | the chosen name is free and is the first free name in the order `stem.pdf`, `stem_1.pdf`, `stem_2.pdf`, ... |
| Download.FirstFreeUnique | mohw_board_pdf_crawler.py:232-237 | the first free name is unique, so the result depends only on the names already taken |
| Download.FirstFreeDetermined | mohw_board_pdf_crawler.py:232-237 | at most one name is the first free one for a stem |
| Download.TargetStem | mohw_board_pdf_crawler.py:225-235 | the stem of a kept download is non-empty, has no `/`, and is what `Path(filename).stem` reads back from the saved name |
| Download.SaveName | mohw_board_pdf_crawler.py:203-237 | skipped exactly when `TargetName` skips; otherwise the saved name is free and has suffix `.pdf`, and it is the target name itself when that is free; in every case it is the first free name in the order `stem.pdf`, `stem_1.pdf`, ... |
| Links.PostId | mohw_board_pdf_crawler.py:121-125 | the post id is a non-blank `list_no`, else a non-blank `bno`, else the digest of the query |
| Links.ListFilterIsViewLink | mohw_board_pdf_crawler.py:110-118 | the bare `mid=`/`bid=` test adds nothing: a link passes exactly when it holds `/board.es`, `mid=a10409020000`, `bid=0026` and one of `list_no=`, `bno=`, `act=view` |
| Links.ListItem | mohw_board_pdf_crawler.py:110-127 | an anchor is a post exactly when it has an `href` that passes the filter; the post has the joined URL, the anchor's text, and the id read from the query of the joined URL |
| Links.ParseList | mohw_board_pdf_crawler.py:102-132 | post ids are unique; every post anchor's id appears; each post carries the data of the last anchor with its id; posts are ordered by the first anchor of each id |
| Links.LastPiece | mohw_board_pdf_crawler.py:156 | the last piece of a URL has no `/`: it is the whole URL when the URL has no `/`, and otherwise the text after one of its slashes |
| Links.LinkName | mohw_board_pdf_crawler.py:154-156 | the name is empty only when the URL's last piece is |
| Links.PdfCandidate | mohw_board_pdf_crawler.py:150-162 | an anchor is an attachment exactly when its `href` is not a preview link and its name or `href` mentions `.pdf` in any case; the link has that name and the joined URL |
| Links.ExtractPdfLinks | mohw_board_pdf_crawler.py:147-172 | URLs are unique; every attachment anchor's URL appears; each link is the first anchor with its URL; links keep document order |
| Dedup.KeepFirstUnique | mohw_board_pdf_crawler.py:164-171 | keeping the first item per key leaves no key twice |
| Dedup.KeepFirstCovers | mohw_board_pdf_crawler.py:164-171 | every key of the input survives |
| Dedup.KeepFirstIsFirst | mohw_board_pdf_crawler.py:164-171 | each kept item is the first input item with its key |
| Dedup.KeepFirstOrder | mohw_board_pdf_crawler.py:164-171 | kept items are in the order of their first occurrence |
| Dedup.UpsertSpec | mohw_board_pdf_crawler.py:131 | assigning into the dict keeps every key in its place, appends the key of the new item exactly when it is new, leaves the entries of other keys alone and stores the item |
| Dedup.KeepLastKeys | mohw_board_pdf_crawler.py:129-132 | the dict holds the same ids in the same order as a scan that keeps the first item of each id |
| Dedup.KeepLastUnique | mohw_board_pdf_crawler.py:129-132 | the dict holds no id twice |
| Dedup.KeepLastCovers | mohw_board_pdf_crawler.py:129-132 | every id of the input is in the dict |
| Dedup.KeepLastIsLast | mohw_board_pdf_crawler.py:129-132 | each kept item is the last input item with its key |
| Dedup.KeepLastOrder | mohw_board_pdf_crawler.py:129-132 | items are in the order in which their key first appeared, as dict insertion order is |
| Dedup.UniqueKeepFirst | mohw_board_pdf_crawler.py:164-171 | links whose URLs are already distinct all pass, in their order |
| Dedup.UniqueKeepLast | mohw_board_pdf_crawler.py:129-132 | posts whose ids are already distinct all stay, in their order |
| Dedup.UniqueUnchanged | mohw_board_pdf_crawler.py:129-132 | input whose keys are already unique passes through unchanged |
| Dedup.Collect | mohw_board_pdf_crawler.py:110-127 | the loop collects only items the filter produced, and every item it produced |
| Dedup.CollectOne | mohw_board_pdf_crawler.py:110-127 | one anchor adds its item when the filter produces one, and nothing otherwise |
| Dedup.CollectAppend | mohw_board_pdf_crawler.py:110-127 | collecting a concatenation collects each part in order, so the loop only appends |
| Crawl.Positive | mohw_board_pdf_crawler.py:301 | exactly the explicit pages that are at least 1 |
| Crawl.ExplicitPages | mohw_board_pdf_crawler.py:300-309 | the explicit pages are ascending and are exactly the given pages of at least 1 |
| Crawl.ParsedPagesCrawledAsGiven | mohw_board_pdf_crawler.py:300-306 | a list from `parse_pages_argument` is crawled exactly as given |
| Crawl.OpenCrawlShorter | mohw_board_pdf_crawler.py:342-358 | a crawl that has stopped for its reason cannot be extended |
| Crawl.OpenCrawlDetermined | mohw_board_pdf_crawler.py:311-358 | the stopping rule determines the pages visited |
| Crawl.OpenCrawlEndsOnPair | mohw_board_pdf_crawler.py:342-358 | every open crawl that stops without an end page stops on two failed pages in a row at or after the first page |
| Crawl.CrawlPages | mohw_board_pdf_crawler.py:286-362 | a non-empty explicit list visits its usable pages once each, in ascending order; otherwise pages run consecutively from `max(1, start_page)`, never past the end page, with no two failures in a row before the last, and stop at the end page or after the second failure in a row |
| NextConfig.StripSlashes | next.config.ts:5 | removes at most two characters, and what is left is a prefix of the text after one leading slash |
| NextConfig.StripSlashesEmpty | next.config.ts:5 | stripping leaves nothing exactly for ``, `/` and `//` |
| NextConfig.StripSlashesWrapped | next.config.ts:5 | `/docs/` becomes `docs` |
| NextConfig.StripSlashesPlain | next.config.ts:5 | a path without a leading or trailing slash is unchanged |
| NextConfig.StripSlashesSpellings | next.config.ts:5 | `p`, `/p`, `p/` and `/p/` all become `p` |
| NextConfig.NormalizedBasePath | next.config.ts:4-8 | a base path starts with `/`, has at least two characters, and continues with the trimmed and slash-stripped variable |
| NextConfig.NoBasePath | next.config.ts:4-8 | there is no base path exactly when the trimmed variable is ``, `/` or `//`; a missing variable counts as `` |
| NextConfig.BasePathSpellings | next.config.ts:4-8 | the variable written as `p`, `/p`, `p/` or `/p/`, with any surrounding whitespace, gives the base path `/p` |
| NextConfig.DoubleLeadingSlashKept | next.config.ts:5-8 | only one leading slash goes: `//docs` gives the base path `//docs` |
| NextConfig.MergeOverlay | next.config.ts:34-37 | spreading no overrides leaves the base unchanged; set override fields win; the base webpack hook survives |
| NextConfig.FinalConfig | next.config.ts:10-37 | the webpack hook is always there; an export sets `output: "export"`, `trailingSlash`, unoptimized images and equal `basePath` and `assetPrefix`; any other build gets the base configuration unchanged |
| NextConfig.ExportIffProductionWithBasePath | next.config.ts:10-37 | the build is a static export exactly for a production build with a base path, and then assets are served from that base path |

## Left out

- HTTP (`get` with retries, the session, timeouts), `time.sleep` pacing, logging (`setup_logging`, `Tee`), `tqdm` progress and writing the downloaded bytes: these are effects with no decision in them.
- HTML parsing with BeautifulSoup: a page is given as its sequence of anchors, with `href` and `title` as optional attributes and the text already stripped.
- `urljoin`, `urlparse(...).query`, `parse_qs`, the md5 digest and `unquote`: these are uninterpreted function parameters. The first `parse_qs` value is assumed to be what that function returns.
- `_process_page`: its result is the predicate `processed`. Recording done ids and fetching posts are outside the model.
- `extract_notice_meta`, the argument parser and `main`: these are outside the core.
- mohw_board_pdf_crawler.py:314-328 repeats the explicit-pages branch. It is dead code, because a non-empty page list has already returned at line 309.
- The `final_page`/`total_steps` computation of `crawl_all` only sizes the progress bar. It is not modelled.
- Python's Unicode `\w` admits letters and digits of every script. The model admits ASCII letters and digits, `_` and Hangul syllables.
- `str.lower` and `int()` are modelled on ASCII. Python also lower-cases non-ASCII capitals and reads non-ASCII decimal digits.
- The digit limit of `int()` is CPython's default of 4300 digits. Changing it with `sys.set_int_max_str_digits` or `PYTHONINTMAXSTRDIGITS`, and Python versions without the limit, are not modelled.
- Download.Candidate: `str()` of a counter with more than 4300 digits raises in Python. The model renders it, because reaching such a counter needs more files than can exist.
- `crawl_all` accepts any iterable of pages. The model takes a list, which is what `main` passes. A generator would be consumed by the log call before the pages are read, and an empty generator would still count as given.
- `Path.suffix`/`stem` follow the rule before Python 3.14: a dot that is the last character does not start a suffix.
- `merge_pdfs.py`, `scripts/export-gh-pages.mjs` and `app/App.tsx` are not part of this model. They are a filesystem scan around a PDF library, a build wrapper, and presentational markup.
- The webpack callback is modelled only as being present (`AliasCopy`); what it does to `resolve.alias` is not modelled, since it only copies the existing aliases. The `images` object is reduced to its `unoptimized` flag.
- Crawl.CrawlPages: without an end page, the source loop runs forever when no two consecutive pages from the first one fail. The method requires a ghost pair of failing pages `boardEnd`, `boardEnd + 1`, and only in that case; runs that never end are not modelled.
- Text.Strip: the contract states the length bound and that no stripped character remains at either end. The exact result is given by StripAll for a string made only of stripped characters and by StripBothPads for every other string.
- FileNames.CollapseRuns: the contract bounds only the length. CollapseRunsSnoc, CollapseRunsOnlyAllowed and CollapseRunsAllowed state the content.
- PageSpec.PagesOfToken: the contract states the shape of the result. The pages of each token form are stated by RangeToken, SpacedRangeToken, SinglePageToken, LongPageRejected, LongRangeRejected, NegativePageRejected and OpenRangeRejected.
- NextConfig.StripSlashes: the contract states bounds. The exact results are stated by StripSlashesEmpty, StripSlashesWrapped, StripSlashesPlain and StripSlashesSpellings.
- ContentDisposition.ResolveFilename: the contract states the fallback rule and where any other result comes from. The header forms are stated by ResolveFirstMatch, ResolveExtended and ResolveLanguageTag.
- Links.LinkName: the contract states only when the name can be empty. The choice between title, text and URL piece is not stated.
- `sanitize_filename` is not idempotent in general. The cut at 200 can end the name in whitespace, which a second pass strips. Only SanitizeClean, which says that clean names are fixed points, is stated.
