/**
  `parse_list` and `extract_pdf_links` of the crawler
  (mohw_board_pdf_crawler.py): which anchors of a board list page are posts
  and under which id, and which anchors of a post page are PDF attachments.
  HTML parsing is outside the model: a page is the sequence of its anchors
  in document order. URL resolution, query parsing and hashing are
  parameters.
 */
module Links {
  import opened Wrappers
  import Text
  import Dedup

  /** The board's menu id and board id. */
  const Mid: string := "a10409020000"
  const Bid: string := "0026"

  /** An `<a>` element: its `href` and `title` attributes, if present, and
      its text with whitespace stripped (`get_text(strip=True)`). */
  datatype Anchor = Anchor(href: Option<string>, title: Option<string>, text: string)

  /** A post of the list page. */
  datatype Post = Post(title: string, viewUrl: string, postId: string)

  /** An attachment link of a post page. */
  datatype PdfLink = PdfLink(name: string, url: string)

  /** The library calls the crawler makes on URLs:
      `join` is `urljoin(BASE, href)`, `query` the query of a URL
      (`urlparse(url).query`), `param(q, name)` the first value `parse_qs`
      gives for `name` (it drops blank values), and `digest` the md5 hex
      digest of a query. */
  datatype UrlOps = UrlOps(
    join: string -> string,
    query: string -> string,
    param: (string, string) -> Option<string>,
    digest: string -> string)

  function PostKey(p: Post): string {
    p.postId
  }

  function LinkKey(l: PdfLink): string {
    l.url
  }

  /** A value that Python treats as true: present and non-empty. */
  function Truthy(v: Option<string>): Option<string> {
    if v.Some? && v.value != [] then v else None
  }

  /** The post id: `list_no`, else `bno`, else the digest of the whole query. */
  function PostId(q: string, ops: UrlOps): (id: string)
    ensures Truthy(ops.param(q, "list_no")).Some? ==> id == ops.param(q, "list_no").value
    ensures Truthy(ops.param(q, "list_no")).None? && Truthy(ops.param(q, "bno")).Some? ==> id == ops.param(q, "bno").value
    ensures Truthy(ops.param(q, "list_no")).None? && Truthy(ops.param(q, "bno")).None? ==> id == ops.digest(q)
    ensures |ops.digest(q)| > 0 ==> |id| > 0
  {
    match Truthy(ops.param(q, "list_no"))
    case Some(v) => v
    case None =>
      match Truthy(ops.param(q, "bno"))
      case Some(v) => v
      case None => ops.digest(q)
  }

  /** The conditions `parse_list` checks on an `href`, in its order: the
      selector's `/board.es`, both parameter names, both parameter values,
      and one of the markers of a post view. */
  predicate ListFilter(href: string) {
    && Text.Contains(href, "/board.es")
    && Text.Contains(href, "mid=") && Text.Contains(href, "bid=")
    && Text.Contains(href, "mid=" + Mid) && Text.Contains(href, "bid=" + Bid)
    && (Text.Contains(href, "list_no=") || Text.Contains(href, "bno=") || Text.Contains(href, "act=view"))
  }

  /** A link to a post of this board. */
  predicate IsViewLink(href: string) {
    && Text.Contains(href, "/board.es")
    && Text.Contains(href, "mid=" + Mid) && Text.Contains(href, "bid=" + Bid)
    && (Text.Contains(href, "list_no=") || Text.Contains(href, "bno=") || Text.Contains(href, "act=view"))
  }

  /** A string containing `a + b` contains `a`. */
  lemma ContainsPrefix(s: string, a: string, b: string)
    requires Text.Contains(s, a + b)
    ensures Text.Contains(s, a)
  {
    var i :| 0 <= i <= |s| - |a + b| && Text.OccursAt(s, a + b, i);
    assert s[i..i + |a|] == (a + b)[..|a|];
    assert Text.OccursAt(s, a, i);
  }

  /** The bare `mid=` / `bid=` test is implied by the test with the values,
      so the list filter is the view-link test. */
  lemma ListFilterIsViewLink(href: string)
    ensures ListFilter(href) <==> IsViewLink(href)
  {
    if Text.Contains(href, "mid=" + Mid) {
      ContainsPrefix(href, "mid=", Mid);
    }
    if Text.Contains(href, "bid=" + Bid) {
      ContainsPrefix(href, "bid=", Bid);
    }
  }

  /** The post an anchor of a list page stands for, if any. */
  function ListItem(a: Anchor, ops: UrlOps): (r: Option<Post>)
    ensures r.Some? <==> a.href.Some? && ListFilter(a.href.value)
    ensures r.Some? ==> r.value.viewUrl == ops.join(a.href.value) && r.value.title == a.text
    ensures r.Some? ==> r.value.postId == PostId(ops.query(r.value.viewUrl), ops)
  {
    if a.href.None? || !ListFilter(a.href.value) then None
    else
      var url := ops.join(a.href.value);
      Some(Post(a.text, url, PostId(ops.query(url), ops)))
  }

  /** The posts of the anchors, in document order, before de-duplication. */
  function ListItems(anchors: seq<Anchor>, ops: UrlOps): seq<Post> {
    Dedup.Collect(anchors, a => ListItem(a, ops))
  }

  /** `parse_list`: the posts of a list page, one per post id; a post listed
      twice keeps the place of its first anchor and the data of its last. */
  function ParseList(anchors: seq<Anchor>, ops: UrlOps): (posts: seq<Post>)
    ensures Dedup.KeysUnique(posts, PostKey)
    ensures forall k :: 0 <= k < |anchors| && ListItem(anchors[k], ops).Some? ==>
              Dedup.FirstIndex(posts, PostKey, ListItem(anchors[k], ops).value.postId) < |posts|
    ensures forall i :: 0 <= i < |posts| ==>
              Dedup.LastWith(ListItems(anchors, ops), PostKey, posts[i].postId) == Some(posts[i])
    ensures forall i, j :: 0 <= i < j < |posts| ==>
              var items := ListItems(anchors, ops);
              Dedup.FirstIndex(items, PostKey, posts[i].postId) < Dedup.FirstIndex(items, PostKey, posts[j].postId)
  {
    var items := ListItems(anchors, ops);
    var posts := Dedup.KeepLast(items, PostKey);
    Dedup.KeepLastUnique(items, PostKey);
    Dedup.KeepLastIsLast(items, PostKey);
    Dedup.KeepLastOrder(items, PostKey);
    Dedup.KeepLastCovers(items, PostKey);
    forall k | 0 <= k < |anchors| && ListItem(anchors[k], ops).Some?
      ensures Dedup.FirstIndex(posts, PostKey, ListItem(anchors[k], ops).value.postId) < |posts|
    {
      var p := ListItem(anchors[k], ops).value;
      var m := Dedup.PositionOf(items, p);
      assert PostKey(items[m]) == p.postId;
    }
    posts
  }

  /** The extension `extract_pdf_links` looks for. */
  const PdfHint: string := ".pdf"
  /** The marker of the board's preview links, which are never attachments. */
  const PreviewMarker: string := "attachpreview.es"

  /** The last `/`-separated piece of a URL (`url.split("/")[-1]`). */
  function LastPiece(url: string): (r: string)
    ensures '/' !in r
    ensures '/' !in url ==> r == url
    ensures '/' in url ==> exists i :: 0 <= i < |url| && url[i] == '/' && r == url[i + 1..]
  {
    Text.SplitLast(url, '/');
    Text.Last(Text.Split(url, '/'))
  }

  /** The name `extract_pdf_links` gives a link: the stripped `title`
      attribute, else the text, else the last piece of the URL. */
  function LinkName(a: Anchor, url: string): (name: string)
    ensures name == [] ==> LastPiece(url) == []
  {
    var title := Text.Strip(if a.title.Some? then a.title.value else [], Text.IsPySpace);
    if title != [] then title
    else if a.text != [] then a.text
    else LastPiece(url)
  }

  /** The attachment an anchor of a post page stands for, if any: an anchor
      with an `href` that is not a preview link and whose name or `href`
      mentions `.pdf` in any letter case. */
  function PdfCandidate(a: Anchor, ops: UrlOps): (r: Option<PdfLink>)
    ensures r.Some? <==>
              && a.href.Some?
              && !Text.Contains(Text.AsciiLower(a.href.value), PreviewMarker)
              && (|| Text.Contains(Text.AsciiLower(LinkName(a, ops.join(a.href.value))), PdfHint)
                  || Text.Contains(Text.AsciiLower(a.href.value), PdfHint))
    ensures r.Some? ==> r.value == PdfLink(LinkName(a, ops.join(a.href.value)), ops.join(a.href.value))
  {
    if a.href.None? then None
    else
      var href := a.href.value;
      var url := ops.join(href);
      var low := Text.AsciiLower(href);
      var name := LinkName(a, url);
      if Text.Contains(low, PreviewMarker) then None
      else if !(Text.Contains(Text.AsciiLower(name), PdfHint) || Text.Contains(low, PdfHint)) then None
      else Some(PdfLink(name, url))
  }

  /** The attachments of the anchors, in document order, before
      de-duplication. */
  function PdfCandidates(anchors: seq<Anchor>, ops: UrlOps): seq<PdfLink> {
    Dedup.Collect(anchors, a => PdfCandidate(a, ops))
  }

  /** `extract_pdf_links`: the attachments of a post page, one per URL, each
      the first anchor with that URL, in document order. */
  function ExtractPdfLinks(anchors: seq<Anchor>, ops: UrlOps): (links: seq<PdfLink>)
    ensures Dedup.KeysUnique(links, LinkKey)
    ensures forall k :: 0 <= k < |anchors| && PdfCandidate(anchors[k], ops).Some? ==>
              Dedup.FirstIndex(links, LinkKey, PdfCandidate(anchors[k], ops).value.url) < |links|
    ensures forall i :: 0 <= i < |links| ==>
              var all := PdfCandidates(anchors, ops);
              var m := Dedup.FirstIndex(all, LinkKey, links[i].url);
              m < |all| && links[i] == all[m]
    ensures forall i, j :: 0 <= i < j < |links| ==>
              var all := PdfCandidates(anchors, ops);
              Dedup.FirstIndex(all, LinkKey, links[i].url) < Dedup.FirstIndex(all, LinkKey, links[j].url)
  {
    var all := PdfCandidates(anchors, ops);
    var links := Dedup.KeepFirst(all, LinkKey);
    Dedup.KeepFirstUnique(all, LinkKey);
    Dedup.KeepFirstIsFirst(all, LinkKey);
    Dedup.KeepFirstOrder(all, LinkKey);
    Dedup.KeepFirstCovers(all, LinkKey);
    forall k | 0 <= k < |anchors| && PdfCandidate(anchors[k], ops).Some?
      ensures Dedup.FirstIndex(links, LinkKey, PdfCandidate(anchors[k], ops).value.url) < |links|
    {
      var l := PdfCandidate(anchors[k], ops).value;
      var m := Dedup.PositionOf(all, l);
      assert LinkKey(all[m]) == l.url;
    }
    links
  }
}
