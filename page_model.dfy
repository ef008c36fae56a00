/** The value-level logic of the browser page: the OCR result's pages and
    images, the translation request content, re-pairing translated texts
    with pages, the export order (a stable sort by page index), the page
    chunks of `document.md`, the data-URL prefix strip, and the archive as a
    map from entry name to payload. */
module PageModel {
  import opened JsText
  import opened Protocol

  /** An image the OCR found on a page; `id` doubles as its archive name. */
  datatype Image = Image(
    id: string,
    topLeftX: int, topLeftY: int, bottomRightX: int, bottomRightY: int,
    imageBase64: string)

  /** A page: its index, its markdown, and its images (absent on translated
      pages). */
  datatype Page = Page(index: int, markdown: string, images: Option<seq<Image>>)

  /** The archive: entry name to payload. */
  type Archive = map<string, string>

  const TranslationPlaceholder: string := "Translation failed for this page"
  const DataUrlMarker: string := "base64,"
  const MarkdownEntry: string := "document.md"

  // ---------------------------------------------------------------------
  // Translation request and re-pairing

  function Markdowns(pages: seq<Page>): (r: seq<string>)
    ensures |r| == |pages| && forall i :: 0 <= i < |pages| ==> r[i] == pages[i].markdown
  {
    seq(|pages|, i requires 0 <= i < |pages| => pages[i].markdown)
  }

  /** `result.pages.map(page => page.markdown).join(separator)`: the route's
      split gives back exactly the pages' markdowns as long as no page but
      the last can be confused with the separator. */
  function TranslationContent(pages: seq<Page>): (r: string)
    ensures (&& |pages| >= 1
             && !Contains(pages[|pages| - 1].markdown, PageSeparator)
             && forall i :: 0 <= i < |pages| - 1 ==> Delimited(pages[i].markdown, PageSeparator))
      ==> Split(r, PageSeparator) == Markdowns(pages)
  {
    var ms := Markdowns(pages);
    if |pages| >= 1 && !Contains(pages[|pages| - 1].markdown, PageSeparator) &&
      (forall i :: 0 <= i < |pages| - 1 ==> Delimited(pages[i].markdown, PageSeparator))
    then
      SplitJoin(ms, PageSeparator);
      Join(ms, PageSeparator)
    else Join(ms, PageSeparator)
  }

  /** The markdown page i gets: reply element i when it exists and is
      non-empty, the placeholder otherwise. */
  function TranslatedText(translated: seq<string>, i: nat): string {
    if i < |translated| && translated[i] != "" then translated[i] else TranslationPlaceholder
  }

  /** `result.pages.map((page, index) => ...)`: one page per original page,
      at its position, with its index and no images, and never an empty
      markdown; a short or partly empty reply leaves placeholders. */
  function RepairTranslated(pages: seq<Page>, translated: seq<string>): (r: seq<Page>)
    ensures |r| == |pages|
    ensures forall i :: 0 <= i < |pages| ==>
      r[i].index == pages[i].index && r[i].images.None? && r[i].markdown != ""
    ensures forall i :: 0 <= i < |pages| && i < |translated| && translated[i] != "" ==>
      r[i].markdown == translated[i]
    ensures forall i :: 0 <= i < |pages| && (i >= |translated| || translated[i] == "") ==>
      r[i].markdown == TranslationPlaceholder
  {
    seq(|pages|, i requires 0 <= i < |pages| => Page(pages[i].index, TranslatedText(translated, i), None))
  }

  /** A complete reply of non-empty texts lands verbatim, text i on page i;
      extra texts are dropped. */
  lemma RepairCompleteReply(pages: seq<Page>, translated: seq<string>)
    requires |translated| >= |pages|
    requires forall i :: 0 <= i < |translated| ==> translated[i] != ""
    ensures Markdowns(RepairTranslated(pages, translated)) == translated[..|pages|]
  {
  }

  /** The joined request is empty exactly for no pages or a single empty
      page, because the separator is not empty. */
  lemma EmptyContent(pages: seq<Page>)
    ensures TranslationContent(pages) == "" <==> |pages| == 0 || (|pages| == 1 && pages[0].markdown == "")
  {
    var ms := Markdowns(pages);
    if |pages| >= 2 {
      assert |Join(ms, PageSeparator)| >= |PageSeparator|;
    }
  }

  // ---------------------------------------------------------------------
  // Export order: `pages.sort((a, b) => a.index - b.index)`, which is stable

  predicate SortedByIndex(ps: seq<Page>) {
    forall i, j :: 0 <= i < j < |ps| ==> ps[i].index <= ps[j].index
  }

  /** Inserts `p` before the first page whose index is not smaller. */
  function Insert(p: Page, ps: seq<Page>): (r: seq<Page>)
    ensures |r| == |ps| + 1
    ensures multiset(r) == multiset(ps) + multiset{p}
    decreases |ps|
  {
    if ps == [] || p.index <= ps[0].index then [p] + ps
    else
      assert ps == [ps[0]] + ps[1..];
      [ps[0]] + Insert(p, ps[1..])
  }

  lemma {:induction false} InsertSorted(p: Page, ps: seq<Page>)
    requires SortedByIndex(ps)
    ensures SortedByIndex(Insert(p, ps))
    decreases |ps|
  {
    if !(ps == [] || p.index <= ps[0].index) {
      InsertSorted(p, ps[1..]);
      InsertBound(p, ps[1..], ps[0].index);
      SortedCons(ps[0], Insert(p, ps[1..]));
    }
  }

  /** A lower bound of `p` and of every page of `ps` bounds the insertion. */
  lemma {:induction false} InsertBound(p: Page, ps: seq<Page>, b: int)
    requires b <= p.index
    requires forall k :: 0 <= k < |ps| ==> b <= ps[k].index
    ensures forall k :: 0 <= k < |Insert(p, ps)| ==> b <= Insert(p, ps)[k].index
    decreases |ps|
  {
    if !(ps == [] || p.index <= ps[0].index) {
      InsertBound(p, ps[1..], b);
    }
  }

  lemma SortedCons(x: Page, rest: seq<Page>)
    requires SortedByIndex(rest)
    requires forall k :: 0 <= k < |rest| ==> x.index <= rest[k].index
    ensures SortedByIndex([x] + rest)
  {
    var r := [x] + rest;
    forall i, j | 0 <= i < j < |r|
      ensures r[i].index <= r[j].index
    {
      assert r[j] == rest[j - 1];
      if i > 0 { assert r[i] == rest[i - 1]; }
    }
  }

  /** Insertion sort by index. */
  function SortByIndex(ps: seq<Page>): (r: seq<Page>)
    ensures |r| == |ps| && multiset(r) == multiset(ps)
    ensures SortedByIndex(r)
    decreases |ps|
  {
    if ps == [] then []
    else
      assert ps == [ps[0]] + ps[1..];
      InsertSorted(ps[0], SortByIndex(ps[1..]));
      Insert(ps[0], SortByIndex(ps[1..]))
  }

  /** The pages with index `k`, in order. */
  function WithIndex(ps: seq<Page>, k: int): seq<Page>
    decreases |ps|
  {
    if ps == [] then []
    else (if ps[0].index == k then [ps[0]] else []) + WithIndex(ps[1..], k)
  }

  lemma {:induction false} InsertWithIndex(p: Page, ps: seq<Page>, k: int)
    ensures WithIndex(Insert(p, ps), k) == (if p.index == k then [p] else []) + WithIndex(ps, k)
    decreases |ps|
  {
    if ps == [] || p.index <= ps[0].index {
      WithIndexCons(p, ps, k);
    } else {
      var x, rest := ps[0], ps[1..];
      InsertWithIndex(p, rest, k);
      WithIndexCons(x, Insert(p, rest), k);
      assert ps == [x] + rest;
      WithIndexCons(x, rest, k);
      // p and x do not share an index, so at most one of them is kept
      assert p.index != k || x.index != k;
    }
  }

  lemma WithIndexCons(x: Page, rest: seq<Page>, k: int)
    ensures WithIndex([x] + rest, k) == (if x.index == k then [x] else []) + WithIndex(rest, k)
  {
    assert ([x] + rest)[1..] == rest;
  }

  /** The sort is stable: pages that share an index keep their relative
      order. Together with `SortByIndex`'s contract this fixes the result. */
  lemma {:induction false} SortIsStable(ps: seq<Page>, k: int)
    ensures WithIndex(SortByIndex(ps), k) == WithIndex(ps, k)
    decreases |ps|
  {
    if ps != [] {
      SortIsStable(ps[1..], k);
      InsertWithIndex(ps[0], SortByIndex(ps[1..]), k);
    }
  }

  /** Sorting pages already in order changes nothing, so exporting twice
      exports the same thing. */
  lemma {:induction false} SortSortedIsIdentity(ps: seq<Page>)
    requires SortedByIndex(ps)
    ensures SortByIndex(ps) == ps
    decreases |ps|
  {
    if ps != [] {
      SortSortedIsIdentity(ps[1..]);
      assert [ps[0]] + ps[1..] == ps;
    }
  }

  /** Sorting twice sorts once: after a render has sorted the pages, a
      further render or an export finds them in order. */
  lemma SortIdempotent(ps: seq<Page>)
    ensures SortByIndex(SortByIndex(ps)) == SortByIndex(ps)
  {
    SortSortedIsIdentity(SortByIndex(ps));
  }

  // ---------------------------------------------------------------------
  // document.md

  /** `## Page {index}` and a blank line, then the page's markdown. */
  function PageChunk(p: Page): string {
    "## Page " + IntToDecimal(p.index) + "\n\n" + p.markdown
  }

  /** A chunk reads back: it opens with the heading's words, then come the
      index in decimal and a blank line, and it ends with the markdown. */
  lemma PageChunkShape(p: Page)
    ensures var d, r := IntToDecimal(p.index), PageChunk(p);
      && |r| == 10 + |d| + |p.markdown|
      && StartsWith(r, "## Page ")
      && r[8..8 + |d|] == d
      && r[8 + |d|..10 + |d|] == "\n\n"
      && EndsWith(r, p.markdown)
  {
    var d := IntToDecimal(p.index);
    var r := "## Page " + d + "\n\n" + p.markdown;
    assert PageChunk(p) == r;
    assert r[..8] == "## Page ";
    assert r[8..8 + |d|] == d;
    assert r[8 + |d|..10 + |d|] == "\n\n";
    assert r[|r| - |p.markdown|..] == p.markdown;
  }

  function Chunks(ps: seq<Page>): (r: seq<string>)
    ensures |r| == |ps| && forall i :: 0 <= i < |ps| ==> r[i] == PageChunk(ps[i])
  {
    if |ps| == 0 then [] else [PageChunk(ps[0])] + Chunks(ps[1..])
  }

  /** The pages' chunks joined with the page separator: empty only without
      pages, and otherwise opening with the first page's chunk and closing
      with the last page's markdown. */
  function CombinedMarkdown(ps: seq<Page>): (r: string)
    ensures r == "" <==> |ps| == 0
    ensures |ps| >= 1 ==> StartsWith(r, PageChunk(ps[0])) && EndsWith(r, ps[|ps| - 1].markdown)
  {
    if |ps| == 0 then Join(Chunks(ps), PageSeparator)
    else
      ChunksJoinStarts(ps);
      ChunksJoinEnds(ps);
      Join(Chunks(ps), PageSeparator)
  }

  lemma ChunksJoinStarts(ps: seq<Page>)
    requires |ps| >= 1
    ensures StartsWith(Join(Chunks(ps), PageSeparator), PageChunk(ps[0]))
    ensures Join(Chunks(ps), PageSeparator) != ""
  {
    var cs := Chunks(ps);
    assert cs[0] == PageChunk(ps[0]);
    JoinStarts(cs, PageSeparator);
    assert |PageChunk(ps[0])| >= 10;
  }

  lemma PageChunkEnds(p: Page)
    ensures EndsWith(PageChunk(p), p.markdown)
  {
    var r := PageChunk(p);
    assert r == ("## Page " + IntToDecimal(p.index) + "\n\n") + p.markdown;
    assert r[|r| - |p.markdown|..] == p.markdown;
  }

  lemma ChunksJoinEnds(ps: seq<Page>)
    requires |ps| >= 1
    ensures EndsWith(Join(Chunks(ps), PageSeparator), ps[|ps| - 1].markdown)
  {
    JoinedChunksEnd(Chunks(ps), ps[|ps| - 1]);
  }

  lemma JoinedChunksEnd(cs: seq<string>, last: Page)
    requires |cs| >= 1 && cs[|cs| - 1] == PageChunk(last)
    ensures EndsWith(Join(cs, PageSeparator), last.markdown)
  {
    PageChunkEnds(last);
    JoinEndsLike(cs, PageSeparator, last.markdown);
  }

  /** The export has one chunk per page, in ascending index order, each
      headed by its page's index; distinct indices give distinct headings. */
  lemma ExportChunks(ps: seq<Page>)
    ensures var sorted := SortByIndex(ps);
      var cs := Chunks(sorted);
      && |cs| == |ps|
      && (forall i :: 0 <= i < |cs| ==>
            StartsWith(cs[i], "## Page " + IntToDecimal(sorted[i].index) + "\n\n"))
      && (forall i, j :: 0 <= i < j < |cs| ==> sorted[i].index <= sorted[j].index)
  {
    var sorted := SortByIndex(ps);
    forall i | 0 <= i < |sorted|
      ensures StartsWith(Chunks(sorted)[i], "## Page " + IntToDecimal(sorted[i].index) + "\n\n")
    {
      var h := "## Page " + IntToDecimal(sorted[i].index) + "\n\n";
      assert PageChunk(sorted[i]) == h + sorted[i].markdown;
      assert (h + sorted[i].markdown)[..|h|] == h;
    }
  }

  // ---------------------------------------------------------------------
  // Image payloads

  /** `s.includes('base64,') ? s.split('base64,')[1] : s`: a text without
      the marker is kept; otherwise what is kept is the text that follows the
      marker's first occurrence, up to its next occurrence or the end. */
  function StripDataUrl(s: string): (r: string)
    ensures !Contains(s, DataUrlMarker) ==> r == s
    ensures Contains(s, DataUrlMarker) ==> !Contains(r, DataUrlMarker)
    ensures Contains(s, DataUrlMarker) ==>
      var i := IndexOf(s, DataUrlMarker, 0).value;
      && i + 7 + |r| <= |s|
      && r == s[i + 7..i + 7 + |r|]
      && (i + 7 + |r| == |s| || OccursAt(s, DataUrlMarker, i + 7 + |r|))
  {
    if Contains(s, DataUrlMarker) then
      var i := IndexOf(s, DataUrlMarker, 0).value;
      var rest := s[i + 7..];
      SplitSecond(s, DataUrlMarker);
      SplitHead(rest, DataUrlMarker);
      PieceOfSuffix(s, i + 7, Split(s, DataUrlMarker)[1], DataUrlMarker);
      Split(s, DataUrlMarker)[1]
    else s
  }

  /** A leading piece of the suffix from `k`, ending at the suffix's end or
      at an occurrence, is the slice of `s` from `k` ending at the end or at
      that occurrence. */
  lemma PieceOfSuffix(s: string, k: nat, r: string, sep: string)
    requires k <= |s| && |r| <= |s| - k && r == s[k..][..|r|]
    requires |r| == |s| - k || OccursAt(s[k..], sep, |r|)
    ensures r == s[k..k + |r|]
    ensures k + |r| == |s| || OccursAt(s, sep, k + |r|)
  {
    SliceOfSuffix(s, k, 0, |r|);
    if |r| < |s| - k {
      SliceOfSuffix(s, k, |r|, |r| + |sep|);
    }
  }

  /** A payload without a comma (the base64 alphabet has none) is kept as it
      is; behind a `data:<type>;base64,` prefix whose type has no comma it is
      recovered exactly. */
  lemma DataUrlRoundTrip(mimeType: string, payload: string)
    requires ',' !in mimeType && ',' !in payload
    ensures StripDataUrl(payload) == payload
    ensures StripDataUrl("data:" + mimeType + ";base64," + payload) == payload
  {
    var m := DataUrlMarker;
    CommaFreeHasNoMarker(payload);
    var h := "data:" + mimeType + ";";
    assert ',' !in h;
    var u := "data:" + mimeType + ";base64," + payload;
    assert Split(u, m) == [h, payload] by {
      MarkerEndsCommaFreeText(h);
      SplitJoin([h, payload], m);
      assert Join([h, payload], m) == u;
    }
    assert Contains(u, m) by {
      assert h + m + payload == u;
      assert u[|h|..|h| + 7] == m;
      assert OccursAt(u, m, |h|);
    }
  }

  /** A comma-free text followed by the marker is delimited by it: the first
      occurrence is the appended one. */
  lemma MarkerEndsCommaFreeText(h: string)
    requires ',' !in h
    ensures Delimited(h, DataUrlMarker)
  {
    var m := DataUrlMarker;
    var t := h + m;
    forall j: nat | j < |h|
      ensures !OccursAt(t, m, j)
    {
      if j + 7 <= |t| {
        assert t[j..j + 7][6] == t[j + 6];
        if j + 6 < |h| { assert t[j + 6] == h[j + 6]; }
        else { assert t[j + 6] == m[j + 6 - |h|]; }
      }
    }
    assert t[|h|..|h| + 7] == m;
    IndexOfLeast(t, m, |h|);
  }

  lemma CommaFreeHasNoMarker(s: string)
    requires ',' !in s
    ensures !Contains(s, DataUrlMarker)
  {
    forall j: nat | j + 7 <= |s|
      ensures !OccursAt(s, DataUrlMarker, j)
    {
      assert s[j + 6] in s;
      assert s[j..j + 7][6] == s[j + 6];
    }
  }

  // ---------------------------------------------------------------------
  // The archive

  function PageImages(p: Page): seq<Image> {
    if p.images.Some? then p.images.value else []
  }

  /** `images.forEach(img => if (img.imageBase64) zip.file(img.id, ...))`:
      an id is present when it was already or when some image with that id
      has a payload, and then holds the stripped payload of the last such
      image; images with empty payloads are skipped. */
  function FileImages(zip: Archive, images: seq<Image>): (r: Archive)
    ensures forall id :: id in r <==> id in zip || LastWithId(images, id).Some?
    ensures forall id :: id in r ==>
      r[id] == (if LastWithId(images, id).Some? then StripDataUrl(LastWithId(images, id).value.imageBase64) else zip[id])
    decreases |images|
  {
    if images == [] then zip
    else
      var z := FileImages(zip, images[..|images| - 1]);
      var img := images[|images| - 1];
      if img.imageBase64 != "" then z[img.id := StripDataUrl(img.imageBase64)] else z
  }

  /** The images of all pages, page by page, filed in order: the same as
      filing the images of all pages as one list. */
  function FilePages(zip: Archive, pages: seq<Page>): (r: Archive)
    ensures r == FileImages(zip, AllImages(pages))
    decreases |pages|
  {
    if pages == [] then zip
    else
      var init := pages[..|pages| - 1];
      FileImagesAppend(zip, AllImages(init), PageImages(pages[|pages| - 1]));
      FileImages(FilePages(zip, init), PageImages(pages[|pages| - 1]))
  }

  /** The archive for exported pages `content` (already in export order):
      the images of `original`, the result the OCR produced, then
      `document.md`. */
  function ArchiveOf(content: seq<Page>, original: Option<seq<Page>>): (r: Archive)
    ensures MarkdownEntry in r && r[MarkdownEntry] == CombinedMarkdown(content)
    ensures original.None? ==> r.Keys == {MarkdownEntry}
    ensures forall id :: id in r && id != MarkdownEntry ==>
      original.Some? && LastWithId(AllImages(original.value), id).Some?
  {
    var images := if original.Some? then FilePages(map[], original.value) else map[];
    images[MarkdownEntry := CombinedMarkdown(content)]
  }

  /** The body of the export once the pages are in order: push one chunk per
      page, file every image of the original result, write `document.md`. */
  method AssembleArchive(content: seq<Page>, original: Option<seq<Page>>) returns (zip: Archive)
    ensures zip == ArchiveOf(content, original)
  {
    var markdownContents := PushChunks(content);
    zip := map[];
    if original.Some? {
      var pages := original.value;
      for i := 0 to |pages|
        invariant zip == FilePages(map[], pages[..i])
      {
        zip := FileImageList(zip, PageImages(pages[i]));
        assert pages[..i + 1][..i] == pages[..i];
      }
      assert pages[..|pages|] == pages;
    }
    zip := zip[MarkdownEntry := Join(markdownContents, PageSeparator)];
  }

  /** The export's first loop: one chunk pushed per page, in list order. */
  method PushChunks(content: seq<Page>) returns (markdownContents: seq<string>)
    ensures markdownContents == Chunks(content)
  {
    markdownContents := [];
    for i := 0 to |content|
      invariant markdownContents == Chunks(content[..i])
    {
      assert content[..i + 1] == content[..i] + [content[i]];
      ChunksSnoc(content[..i], content[i]);
      markdownContents := markdownContents + [PageChunk(content[i])];
    }
    assert content[..|content|] == content;
  }

  lemma ChunksSnoc(ps: seq<Page>, p: Page)
    ensures Chunks(ps + [p]) == Chunks(ps) + [PageChunk(p)]
  {
    var a, b := Chunks(ps + [p]), Chunks(ps) + [PageChunk(p)];
    assert |a| == |b|;
    forall i | 0 <= i < |a| ensures a[i] == b[i] {
      if i < |ps| { assert (ps + [p])[i] == ps[i]; }
    }
  }

  /** The export's inner loop: files one page's images in turn. */
  method FileImageList(zip0: Archive, images: seq<Image>) returns (zip: Archive)
    ensures zip == FileImages(zip0, images)
  {
    zip := zip0;
    for j := 0 to |images|
      invariant zip == FileImages(zip0, images[..j])
    {
      var img := images[j];
      assert images[..j + 1][..j] == images[..j];
      if img.imageBase64 != "" {
        zip := zip[img.id := StripDataUrl(img.imageBase64)];
      }
    }
    assert images[..|images|] == images;
  }

  /** The images of all pages in one list. */
  function AllImages(pages: seq<Page>): seq<Image>
    decreases |pages|
  {
    if pages == [] then [] else AllImages(pages[..|pages| - 1]) + PageImages(pages[|pages| - 1])
  }

  /** The last image with payload and this id: the one whose payload the
      archive keeps. */
  function LastWithId(images: seq<Image>, id: string): Option<Image>
    decreases |images|
  {
    if images == [] then None
    else
      var img := images[|images| - 1];
      if img.id == id && img.imageBase64 != "" then Some(img) else LastWithId(images[..|images| - 1], id)
  }

  lemma {:induction false} FileImagesAppend(zip: Archive, a: seq<Image>, b: seq<Image>)
    ensures FileImages(zip, a + b) == FileImages(FileImages(zip, a), b)
    decreases |b|
  {
    if b == [] {
      assert a + b == a;
    } else {
      assert (a + b)[..|a + b| - 1] == a + b[..|b| - 1];
      assert (a + b)[|a + b| - 1] == b[|b| - 1];
      FileImagesAppend(zip, a, b[..|b| - 1]);
    }
  }

  /** What the archive holds: `document.md` is the combined markdown of the
      exported pages even if an image bears that name (it is written last);
      every other entry is an image of the original result, the last one with
      that id and a payload, stripped of its data-URL prefix. */
  lemma ArchiveContents(content: seq<Page>, original: Option<seq<Page>>, name: string)
    ensures var a := ArchiveOf(content, original);
      && MarkdownEntry in a && a[MarkdownEntry] == CombinedMarkdown(content)
      && (name != MarkdownEntry ==>
            (name in a <==> original.Some? && LastWithId(AllImages(original.value), name).Some?) &&
            (name in a ==> a[name] == StripDataUrl(LastWithId(AllImages(original.value), name).value.imageBase64)))
  {
  }

  /** The image entries do not depend on which pages are exported, so the
      translated export carries exactly the original export's images. */
  lemma ArchiveImagesIgnoreContent(c1: seq<Page>, c2: seq<Page>, original: Option<seq<Page>>)
    ensures ArchiveOf(c1, original) - {MarkdownEntry} == ArchiveOf(c2, original) - {MarkdownEntry}
  {
  }

  /** One page with index 0 and no images exports as just `document.md`
      holding `## Page 0`, a blank line and the page's markdown. */
  lemma SinglePageArchive(markdown: string)
    ensures var ps := [Page(0, markdown, Some([]))];
      ArchiveOf(SortByIndex(ps), Some(ps)) == map[MarkdownEntry := "## Page 0\n\n" + markdown]
  {
    var ps := [Page(0, markdown, Some([]))];
    SingleSorted(ps[0]);
    SingleCombined(markdown);
    SingleHasNoImages(markdown);
  }

  lemma SingleSorted(p: Page)
    ensures SortByIndex([p]) == [p]
  {
    assert [p][1..] == [];
  }

  lemma SingleCombined(markdown: string)
    ensures CombinedMarkdown([Page(0, markdown, Some([]))]) == "## Page 0\n\n" + markdown
  {
    var ps := [Page(0, markdown, Some([]))];
    assert IntToDecimal(0) == "0";
    assert Chunks(ps) == [PageChunk(ps[0])];
  }

  lemma SingleHasNoImages(markdown: string)
    ensures FilePages(map[], [Page(0, markdown, Some([]))]) == map[]
  {
    var ps := [Page(0, markdown, Some([]))];
    assert ps[..0] == [];
    assert AllImages(ps) == [];
  }
}
