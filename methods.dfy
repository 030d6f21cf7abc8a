/**
 * The three rewriters of models/method.rs (`Cleaner::clean` on `Method`).
 * Each takes the document, rewrites its pages in place and returns the page
 * numbers to delete (in pre-deletion numbering) with the scheme tag:
 * 0 for the sandwich scheme (Wuolah), 1 for the prepended scheme (StuDocu),
 * 2 for the generic per-page rewriter (Naive).
 */
module Methods {
  import opened Pdf
  import opened Clean

  /** The scheme chosen for a document; the document itself is passed to `CleanWithMethod` beside it. */
  datatype Method =
    | Wuolah(contentList: seq<seq<Ref>>, toDelete: seq<int>)
    | StuDocu(contentList: seq<seq<Ref>>)
    | Naive

  /** What the page-type heuristic says about one page. */
  datatype PageType = FullPageAds | BannerAds | Watermark | Idk

  /** The document a rewriter leaves, with its result `(to_delete, tag)`. */
  datatype Cleaned = Cleaned(pages: seq<Page>, objects: map<Ref, XObject>, toDelete: seq<int>, tag: int)

  predicate HasMediaBox(p: Page) {
    MediaBox in p.boxes
  }

  // ---------------------------------------------------------------------
  // Sandwich scheme (Wuolah).

  /**
   * The boundary pair for entry i of the content list: paired with the next
   * list, or with the previous one when that gives the sentinel; an entry
   * equal to the last list pairs only with the previous one.  None when the
   * previous list is needed at i == 0, where `content_list[i - 1]`
   * underflows and panics.
   */
  function WuolahPair(cl: seq<seq<Ref>>, i: nat): (r: Option<(nat, nat)>)
    requires i < |cl|
    ensures r == None <==> i == 0 && (cl[0] == cl[|cl| - 1] || FindIObjPairs(cl[0], cl[1]) == (0, 0))
    ensures r.Some? ==> r.value.0 <= r.value.1
    ensures r.Some? && r.value != (0, 0) ==> r.value.0 < r.value.1 < |cl[i]|
  {
    var x := cl[i];
    if x == cl[|cl| - 1] then
      if i == 0 then None else Some(FindIObjPairs(x, cl[i - 1]))
    else
      var next := FindIObjPairs(x, cl[i + 1]);
      if next != (0, 0) then Some(next)
      else if i == 0 then None
      else Some(FindIObjPairs(x, cl[i - 1]))
  }

  /** a and b are the only references list i shares with one of its neighbours in the content list. */
  predicate AdjacentShared(cl: seq<seq<Ref>>, i: nat, a: Ref, b: Ref)
    requires i < |cl|
  {
    || (i + 1 < |cl| && {a, b} == Elems(cl[i]) * Elems(cl[i + 1]))
    || (0 < i && {a, b} == Elems(cl[i]) * Elems(cl[i - 1]))
  }

  /** Away from the sentinel, the pair marks the two references entry i shares with a neighbour. */
  lemma WuolahPairShared(cl: seq<seq<Ref>>, i: nat)
    requires i < |cl| && WuolahPair(cl, i).Some? && WuolahPair(cl, i).value != (0, 0)
    ensures AdjacentShared(cl, i, cl[i][WuolahPair(cl, i).value.0], cl[i][WuolahPair(cl, i).value.1])
  {
  }

  /** s occurs in t as one contiguous run starting at index a. */
  predicate SliceAt(s: seq<Ref>, t: seq<Ref>, a: int) {
    0 <= a && a + |s| <= |t| && t[a..a + |s|] == s
  }

  /**
   * The new content list of entry i: the inclusive range from two before the
   * lower boundary to three after the upper one.  The source does not check
   * the range; a boundary too close to either end panics.
   */
  function WuolahSlice(cl: seq<seq<Ref>>, i: nat): (r: Outcome<seq<Ref>>)
    requires i < |cl|
    ensures r.Ok? <==> WuolahPair(cl, i).Some? && 2 <= WuolahPair(cl, i).value.0 && WuolahPair(cl, i).value.1 + 3 < |cl[i]|
  {
    var pair := WuolahPair(cl, i);
    if pair.Some? && 2 <= pair.value.0 && pair.value.1 + 3 < |cl[i]| then
      Ok(cl[i][pair.value.0 - 2..pair.value.1 + 4])
    else Panic
  }

  /**
   * A slice that does not panic is a contiguous run of entry i with the two
   * references shared with a neighbour at its third and fourth-from-last
   * positions: two references before the lower one, three after the upper.
   */
  lemma WuolahSliceSpec(cl: seq<seq<Ref>>, i: nat)
    requires i < |cl| && WuolahSlice(cl, i).Ok?
    ensures var s, (lo, hi) := WuolahSlice(cl, i).value, WuolahPair(cl, i).value;
      && |s| == hi - lo + 6 >= 7
      && s == cl[i][lo - 2..hi + 4]
      && s[2] == cl[i][lo] && s[|s| - 4] == cl[i][hi]
      && s[2..|s| - 3] == cl[i][lo..hi + 1]
      && SliceAt(s, cl[i], lo - 2)
      && AdjacentShared(cl, i, s[2], s[|s| - 4])
  {
    var (lo, hi) := WuolahPair(cl, i).value;
    RangeFacts(cl[i], lo, hi);
    WuolahPairShared(cl, i);
  }

  /** The inclusive range from two before lo to three after hi, as positions of x. */
  lemma RangeFacts(x: seq<Ref>, lo: int, hi: int)
    requires 2 <= lo <= hi && hi + 3 < |x|
    ensures var s := x[lo - 2..hi + 4];
      && |s| == hi - lo + 6
      && s[2] == x[lo] && s[|s| - 4] == x[hi]
      && s[2..|s| - 3] == x[lo..hi + 1]
      && SliceAt(s, x, lo - 2)
  {
    var s := x[lo - 2..hi + 4];
    assert |s| == hi - lo + 6;
    var mid, run := s[2..|s| - 3], x[lo..hi + 1];
    assert |mid| == |run|;
    forall j | 0 <= j < |mid| ensures mid[j] == run[j] {
      assert mid[j] == s[j + 2] == x[lo + j];
    }
    assert mid == run;
  }

  /** `new_contents` of the sandwich scheme; a panic in any entry panics the whole map. */
  function WuolahContents(cl: seq<seq<Ref>>): (r: Outcome<seq<seq<Ref>>>)
    ensures r.Ok? <==> forall i :: 0 <= i < |cl| ==> WuolahSlice(cl, i).Ok?
    ensures r.Ok? ==> |r.value| == |cl| && forall i :: 0 <= i < |cl| ==> Ok(r.value[i]) == WuolahSlice(cl, i)
  {
    if forall i :: 0 <= i < |cl| ==> WuolahSlice(cl, i).Ok? then
      Ok(seq(|cl|, i requires 0 <= i < |cl| => WuolahSlice(cl, i).value))
    else Panic
  }

  /** The box moved so that its lower-left corner is the origin: `[0, 0, w - x0, h - y0]`. */
  function ZeroBased(m: Rect): (z: Rect)
    ensures z.llx == 0.0 && z.lly == 0.0
    ensures z.urx - z.llx == m.urx - m.llx && z.ury - z.lly == m.ury - m.lly
  {
    Rect(0.0, 0.0, m.urx - m.llx, m.ury - m.lly)
  }

  /** A page rewritten by the sandwich scheme: new contents, no annotations, every box re-based from /MediaBox. */
  function WuolahPage(p: Page, contents: seq<Ref>): Page
    requires HasMediaBox(p)
  {
    p.(contents := contents, annots := [], boxes := AllBoxes(ZeroBased(p.boxes[MediaBox])))
  }

  /** The pages after the sandwich rewrite: the j-th multi-content page takes `nc[j]`, the others are untouched. */
  function WuolahPages(pages: seq<Page>, nc: seq<seq<Ref>>): (r: seq<Page>)
    requires |ContentList(pages)| <= |nc|
    requires forall k :: 0 <= k < |pages| && Multi(pages[k]) ==> HasMediaBox(pages[k])
    ensures |r| == |pages|
  {
    if pages == [] then []
    else
      var n := |pages|;
      var last := pages[n - 1];
      WuolahPages(pages[..n - 1], nc) + [if Multi(last) then WuolahPage(last, nc[|ContentList(pages[..n - 1])|]) else last]
  }

  lemma {:induction false} WuolahPagesAt(pages: seq<Page>, nc: seq<seq<Ref>>, k: nat)
    requires |ContentList(pages)| <= |nc|
    requires forall j :: 0 <= j < |pages| && Multi(pages[j]) ==> HasMediaBox(pages[j])
    requires k < |pages|
    ensures Multi(pages[k]) ==> Rank(pages, k) < |ContentList(pages)|
    ensures WuolahPages(pages, nc)[k] == if Multi(pages[k]) then WuolahPage(pages[k], nc[Rank(pages, k)]) else pages[k]
  {
    if Multi(pages[k]) {
      ContentListAt(pages, k);
    }
    var n := |pages|;
    if k < n - 1 {
      WuolahPagesAt(pages[..n - 1], nc, k);
      assert pages[..n - 1][..k] == pages[..k];
    } else {
      assert pages[..n - 1] == pages[..k];
    }
  }

  /** The sandwich rewrite of the whole document, or the panic it runs into. */
  function WuolahOutcome(cl: seq<seq<Ref>>, pages: seq<Page>): Outcome<seq<Page>>
  {
    match WuolahContents(cl)
    case Panic => Panic
    case Ok(nc) =>
      if |ContentList(pages)| <= |nc| && forall k :: 0 <= k < |pages| && Multi(pages[k]) ==> HasMediaBox(pages[k]) then
        Ok(WuolahPages(pages, nc))
      else Panic
  }

  /**
   * What the sandwich scheme does to a multi-content page of a document whose
   * own content lists it was given: the page keeps one contiguous run of its
   * own content list, from two references before the lower boundary to three
   * after the upper one, where the boundaries are the two references its list
   * shares with an adjacent list; it loses its annotations and has all five
   * boxes set to its /MediaBox moved to the origin.
   */
  lemma WuolahRewriteMulti(pages: seq<Page>, out: seq<Page>, k: nat) returns (lo: nat, hi: nat)
    requires WuolahOutcome(ContentList(pages), pages) == Ok(out)
    requires k < |pages| && Multi(pages[k])
    ensures |out| == |pages|
    ensures 2 <= lo < hi && hi + 3 < |pages[k].contents|
    ensures out[k].contents == pages[k].contents[lo - 2..hi + 4]
    ensures Rank(pages, k) < |ContentList(pages)|
    ensures AdjacentShared(ContentList(pages), Rank(pages, k), pages[k].contents[lo], pages[k].contents[hi])
    ensures out[k] == pages[k].(contents := out[k].contents, annots := [], boxes := AllBoxes(ZeroBased(pages[k].boxes[MediaBox])))
  {
    var cl := ContentList(pages);
    var nc := WuolahOutcomeIs(pages, out);
    WuolahPagesAt(pages, nc, k);
    ContentListAt(pages, k);
    var i := Rank(pages, k);
    var s := WuolahSlice(cl, i);
    assert Ok(nc[i]) == s;
    lo, hi := WuolahPair(cl, i).value.0, WuolahPair(cl, i).value.1;
    WuolahSliceSpec(cl, i);
  }

  /** Unpacks a successful sandwich rewrite of a document with its own content lists. */
  lemma WuolahOutcomeIs(pages: seq<Page>, out: seq<Page>) returns (nc: seq<seq<Ref>>)
    requires WuolahOutcome(ContentList(pages), pages) == Ok(out)
    ensures WuolahContents(ContentList(pages)) == Ok(nc)
    ensures |ContentList(pages)| <= |nc|
    ensures forall j :: 0 <= j < |pages| && Multi(pages[j]) ==> HasMediaBox(pages[j])
    ensures out == WuolahPages(pages, nc)
  {
    nc := WuolahContents(ContentList(pages)).value;
  }

  /** The sandwich arm of `Cleaner::clean`. */
  method CleanWuolah(doc: Document, cl: seq<seq<Ref>>, toDelete: seq<int>) returns (r: Outcome<(seq<int>, int)>)
    modifies doc
    ensures doc.objects == old(doc.objects)
    ensures WuolahOutcome(cl, old(doc.pages)).Panic? ==> r == Panic && doc.pages == old(doc.pages)
    ensures WuolahOutcome(cl, old(doc.pages)).Ok? ==> r == Ok((toDelete, 0)) && doc.pages == WuolahOutcome(cl, old(doc.pages)).value
  {
    var contents := WuolahContents(cl);
    if contents.Panic? {
      return Panic;
    }
    var nc := contents.value;
    if !(|ContentList(doc.pages)| <= |nc| && forall k :: 0 <= k < |doc.pages| && Multi(doc.pages[k]) ==> HasMediaBox(doc.pages[k])) {
      return Panic;
    }
    WuolahRewritePages(doc, nc);
    r := Ok((toDelete, 0));
  }

  /** The page loop of the sandwich arm: each multi-content page takes the next new content list. */
  method WuolahRewritePages(doc: Document, nc: seq<seq<Ref>>)
    requires |ContentList(doc.pages)| <= |nc|
    requires forall k :: 0 <= k < |doc.pages| && Multi(doc.pages[k]) ==> HasMediaBox(doc.pages[k])
    modifies doc
    ensures doc.objects == old(doc.objects)
    ensures doc.pages == WuolahPages(old(doc.pages), nc)
  {
    ghost var pages0 := doc.pages;
    ghost var target := WuolahPages(pages0, nc);
    var i := 0;
    var k := 0;
    while k < |doc.pages|
      invariant 0 <= k <= |pages0| == |doc.pages|
      invariant i == Rank(pages0, k)
      invariant forall j :: 0 <= j < k ==> doc.pages[j] == target[j]
      invariant forall j :: k <= j < |pages0| ==> doc.pages[j] == pages0[j]
      invariant doc.objects == old(doc.objects)
    {
      WuolahPagesAt(pages0, nc, k);
      RankStep(pages0, k);
      var p := doc.pages[k];
      if Multi(p) {
        // set /Contents and /Annots, then the five boxes from the old /MediaBox
        var media := p.boxes[MediaBox];
        doc.SetPage(k, p.(contents := nc[i], annots := [], boxes := AllBoxes(ZeroBased(media))));
        i := i + 1;
      }
      k := k + 1;
    }
    assert doc.pages == target;
  }

  // ---------------------------------------------------------------------
  // Prepended scheme (StuDocu).

  /** `new_contents` of the prepended scheme: `[x[1]]` for every list after the first; a list too short to index panics. */
  function StuDocuContents(cl: seq<seq<Ref>>): (r: Outcome<seq<seq<Ref>>>)
    ensures r.Ok? <==> forall i :: 1 <= i < |cl| ==> |cl[i]| > 1
    ensures r.Ok? ==> |r.value| == (if cl == [] then 0 else |cl| - 1)
    ensures r.Ok? ==> forall i :: 0 <= i < |r.value| ==> r.value[i] == [cl[i + 1][1]]
  {
    if forall i :: 1 <= i < |cl| ==> |cl[i]| > 1 then
      Ok(seq(if cl == [] then 0 else |cl| - 1, i requires 0 <= i < |cl| - 1 => [cl[i + 1][1]]))
    else Panic
  }

  /** The k-th page other than page 1 takes `nc[k]` and loses its annotations; page 1 is left for deletion. */
  function StuDocuPages(pages: seq<Page>, nc: seq<seq<Ref>>): (r: seq<Page>)
    requires |pages| <= |nc| + 1
    ensures |r| == |pages|
  {
    seq(|pages|, k requires 0 <= k < |pages| => if k == 0 then pages[0] else pages[k].(contents := nc[k - 1], annots := []))
  }

  /** The prepended rewrite of the whole document, or the panic of `new_contents[i]` running out. */
  function StuDocuOutcome(cl: seq<seq<Ref>>, pages: seq<Page>): Outcome<seq<Page>>
  {
    match StuDocuContents(cl)
    case Panic => Panic
    case Ok(nc) => if |pages| <= |nc| + 1 then Ok(StuDocuPages(pages, nc)) else Panic
  }

  /**
   * On a document whose own content lists it was given, and which has at
   * least one multi-content page, the prepended rewrite panics exactly when
   * some page has at most one content reference (the pages other than page 1
   * and the content lists after the first no longer line up).  Otherwise
   * every page but page 1 keeps only the second reference of its own content
   * list and loses its annotations.
   */
  lemma StuDocuRewriteSpec(pages: seq<Page>)
    requires |ContentList(pages)| >= 1
    ensures StuDocuOutcome(ContentList(pages), pages).Panic? <==> exists k :: 0 <= k < |pages| && !Multi(pages[k])
    ensures StuDocuOutcome(ContentList(pages), pages).Ok? ==>
      var r := StuDocuOutcome(ContentList(pages), pages).value;
      && |r| == |pages| && r[0] == pages[0]
      && forall k :: 1 <= k < |pages| ==> r[k] == pages[k].(contents := [pages[k].contents[1]], annots := [])
  {
    var cl := ContentList(pages);
    if forall k :: 0 <= k < |pages| ==> Multi(pages[k]) {
      AllMultiRank(pages);
      forall k | 0 <= k < |pages| ensures cl[k] == pages[k].contents {
        ContentListAt(pages, k);
        AllMultiRankAt(pages, k);
      }
    } else {
      var k :| 0 <= k < |pages| && !Multi(pages[k]);
      RankMonotone(pages, k, |pages|);
      RankStep(pages, k);
      RankMonotone(pages, 0, k);
      RankMonotone(pages, k + 1, |pages|);
      assert pages[..|pages|] == pages;
      assert |cl| < |pages| by {
        RankBelow(pages, |pages|);
        RankBelow(pages, k);
        RankMissing(pages, k);
      }
    }
  }

  /** Rank(pages, k) is at most k. */
  lemma {:induction false} RankBelow(pages: seq<Page>, k: nat)
    requires k <= |pages|
    ensures Rank(pages, k) <= k
  {
    if k > 0 {
      RankBelow(pages, k - 1);
      RankStep(pages, k - 1);
    }
  }

  /** A page with at most one content reference keeps the content list shorter than the page list. */
  lemma RankMissing(pages: seq<Page>, k: nat)
    requires k < |pages| && !Multi(pages[k])
    ensures Rank(pages, |pages|) < |pages|
  {
    RankBelow(pages, k);
    RankStep(pages, k);
    RankGrowth(pages, k + 1, |pages|);
  }

  /** Rank grows by at most the number of pages passed. */
  lemma {:induction false} RankGrowth(pages: seq<Page>, a: nat, b: nat)
    requires a <= b <= |pages|
    ensures Rank(pages, b) <= Rank(pages, a) + (b - a)
  {
    if a < b {
      RankGrowth(pages, a, b - 1);
      RankStep(pages, b - 1);
    }
  }

  /** When every page has several content references, the content list has one entry per page. */
  lemma {:induction false} AllMultiRank(pages: seq<Page>)
    requires forall k :: 0 <= k < |pages| ==> Multi(pages[k])
    ensures |ContentList(pages)| == |pages|
  {
    if pages != [] {
      AllMultiRank(pages[..|pages| - 1]);
    }
  }

  lemma AllMultiRankAt(pages: seq<Page>, k: nat)
    requires forall j :: 0 <= j < |pages| ==> Multi(pages[j])
    requires k <= |pages|
    ensures Rank(pages, k) == k
  {
    AllMultiRank(pages[..k]);
  }

  /** The prepended arm of `Cleaner::clean`. */
  method CleanStuDocu(doc: Document, cl: seq<seq<Ref>>) returns (r: Outcome<(seq<int>, int)>)
    modifies doc
    ensures doc.objects == old(doc.objects)
    ensures StuDocuOutcome(cl, old(doc.pages)).Panic? ==> r == Panic && doc.pages == old(doc.pages)
    ensures StuDocuOutcome(cl, old(doc.pages)).Ok? ==> r == Ok(([1], 1)) && doc.pages == StuDocuOutcome(cl, old(doc.pages)).value
  {
    var contents := StuDocuContents(cl);
    if contents.Panic? {
      return Panic;
    }
    var nc := contents.value;
    if |doc.pages| > |nc| + 1 {
      return Panic;
    }
    ghost var pages0 := doc.pages;
    var k := 1;
    while k < |doc.pages|
      invariant |doc.pages| == |pages0|
      invariant 1 <= k || |pages0| == 0
      invariant forall j :: 0 <= j < |pages0| ==> doc.pages[j] == if 1 <= j < k then pages0[j].(contents := nc[j - 1], annots := []) else pages0[j]
      invariant doc.objects == old(doc.objects)
    {
      var p := doc.pages[k];
      doc.SetPage(k, p.(contents := nc[k - 1], annots := []));
      k := k + 1;
    }
    assert doc.pages == StuDocuPages(pages0, nc);
    r := Ok(([1], 1));
  }

  // ---------------------------------------------------------------------
  // Generic per-page rewriter (Naive).

  /** The bytes of an ASCII string. */
  function Bytes(s: string): (b: seq<byte>)
    requires forall i :: 0 <= i < |s| ==> s[i] as int < 256
    ensures |b| == |s| && forall i :: 0 <= i < |s| ==> b[i] == s[i] as int
  {
    seq(|s|, i requires 0 <= i < |s| => s[i] as int)
  }

  /** Save the graphics state and scale by 1.124 before the banner page's content... */
  const BannerPrefix: seq<byte> := Bytes("q\n1.124 0 0 1.124 0 0 cm\n")

  /** ...and restore it after. */
  const BannerSuffix: seq<byte> := Bytes("Q")

  /** The banner page's new content stream. */
  function Wrap(raw: seq<byte>): seq<byte> {
    BannerPrefix + raw + BannerSuffix
  }

  /** Strips the banner wrapper again. */
  function Unwrap(raw: seq<byte>): seq<byte> {
    if |raw| >= |BannerPrefix| + |BannerSuffix| then raw[|BannerPrefix|..|raw| - |BannerSuffix|] else raw
  }

  /**
   * The wrapped stream is the old one with "q\n1.124 0 0 1.124 0 0 cm\n"
   * (25 bytes) before it and "Q" after it, so it is 26 bytes longer, and
   * unwrapping gives the old stream back.
   */
  lemma WrapSpec(raw: seq<byte>)
    ensures |BannerPrefix| == 25 && |BannerSuffix| == 1
    ensures |Wrap(raw)| == |raw| + 26
    ensures Wrap(raw)[..25] == BannerPrefix && Wrap(raw)[25..25 + |raw|] == raw && Wrap(raw)[|raw| + 25] == 'Q' as int
    ensures Unwrap(Wrap(raw)) == raw
  {
    assert Wrap(raw)[25..25 + |raw|] == raw;
  }

  /** The banner page's boxes: fixed fractions of /MediaBox, the origin terms scaled by 1.124. */
  function BannerRect(m: Rect): Rect {
    var w, h := m.urx - m.llx, m.ury - m.lly;
    Rect(0.164 * w + m.llx * 1.124,
         0.031 * h + m.lly * 1.124,
         0.978 * w * 1.124 + m.llx * 1.124,
         0.865 * h * 1.124 + m.lly * 1.124)
  }

  /** The watermark page's boxes: fixed fractions of /MediaBox. */
  function WatermarkRect(m: Rect): Rect {
    var w, h := m.urx - m.llx, m.ury - m.lly;
    Rect(0.015 * w + m.llx, 0.05 * h + m.lly, 0.95 * w + m.llx, 0.98 * h + m.lly)
  }

  predicate Inside(inner: Rect, outer: Rect) {
    outer.llx <= inner.llx && inner.urx <= outer.urx && outer.lly <= inner.lly && inner.ury <= outer.ury
  }

  function Scaled(m: Rect, s: real): Rect {
    Rect(m.llx * s, m.lly * s, m.urx * s, m.ury * s)
  }

  /**
   * For a well-formed /MediaBox, the banner box is well formed and lies inside
   * the media box scaled by the 1.124 that the wrapped content applies; the
   * watermark box is well formed and lies inside the media box itself.
   */
  lemma NaiveBoxesInside(m: Rect)
    requires WellFormed(m)
    ensures WellFormed(BannerRect(m)) && Inside(BannerRect(m), Scaled(m, 1.124))
    ensures WellFormed(WatermarkRect(m)) && Inside(WatermarkRect(m), m)
  {
  }

  predicate Discarded(t: PageType) {
    t == FullPageAds || t == Idk
  }

  function DiscardedBy(pageType: Page -> PageType): Page -> bool {
    p => Discarded(pageType(p))
  }

  /** The per-page step of the generic rewriter, before annotations are cleared. */
  function NaiveRewrite(p: Page, t: PageType): Page
    requires HasMediaBox(p)
  {
    match t
    case FullPageAds => p
    case Idk => p
    case BannerAds => p.(boxes := AllBoxes(BannerRect(p.boxes[MediaBox])), raw := Wrap(p.raw))
    case Watermark => p.(boxes := AllBoxes(WatermarkRect(p.boxes[MediaBox])))
  }

  /** The pages after the first pass of the generic rewriter. */
  function BoxPass(pages: seq<Page>, pageType: Page -> PageType): (r: seq<Page>)
    requires forall k :: 0 <= k < |pages| ==> HasMediaBox(pages[k])
    ensures |r| == |pages|
  {
    seq(|pages|, k requires 0 <= k < |pages| => NaiveRewrite(pages[k], pageType(pages[k])))
  }

  /** The pages with their annotations removed. */
  function ClearAnnots(pages: seq<Page>): (r: seq<Page>)
    ensures |r| == |pages|
  {
    seq(|pages|, k requires 0 <= k < |pages| => pages[k].(annots := []))
  }

  /** Every page after both passes of the generic rewriter. */
  function NaivePages(pages: seq<Page>, pageType: Page -> PageType): (r: seq<Page>)
    requires forall k :: 0 <= k < |pages| ==> HasMediaBox(pages[k])
  {
    ClearAnnots(BoxPass(pages, pageType))
  }

  /** The generic rewrite of the whole document, or the panic of a page without /MediaBox or without resources. */
  function NaiveOutcome(pages: seq<Page>, objects: map<Ref, XObject>, pageType: Page -> PageType, logoDims: set<(int, int)>): Outcome<Cleaned>
  {
    if forall k :: 0 <= k < |pages| ==> HasMediaBox(pages[k]) && !pages[k].resources.NoResources? then
      Ok(Cleaned(NaivePages(pages, pageType), LogoPass(objects, pages, logoDims), PagesWhere(pages, DiscardedBy(pageType)), 2))
    else Panic
  }

  /**
   * The generic rewriter lists, in ascending order, exactly the pages the
   * heuristic calls full-page ads or unclassifiable, with tag 2, and the
   * XObjects are those of the logo pass.
   */
  lemma NaiveRewriteSpec(pages: seq<Page>, objects: map<Ref, XObject>, pageType: Page -> PageType, logoDims: set<(int, int)>)
    requires NaiveOutcome(pages, objects, pageType, logoDims).Ok?
    ensures var c := NaiveOutcome(pages, objects, pageType, logoDims).value;
      && c.tag == 2
      && StrictlyIncreasing(c.toDelete)
      && (forall n :: n in c.toDelete <==> 1 <= n <= |pages| && Discarded(pageType(pages[n - 1])))
      && c.objects == Zeroed(objects, UsableRefs(objects, pages), logoDims)
      && |c.pages| == |pages|
  {
    PagesWhereSpec(pages, DiscardedBy(pageType));
    LogoPassSpec(objects, pages, logoDims);
  }

  /**
   * Every page loses its annotations; a banner page gets the banner boxes
   * and its stream wrapped; a watermark page gets the watermark boxes and
   * keeps its stream; a page marked for deletion is otherwise untouched.
   * Contents and resources never change.
   */
  lemma NaivePageSpec(pages: seq<Page>, objects: map<Ref, XObject>, pageType: Page -> PageType, logoDims: set<(int, int)>, k: nat)
    requires NaiveOutcome(pages, objects, pageType, logoDims).Ok? && k < |pages|
    ensures var c := NaiveOutcome(pages, objects, pageType, logoDims).value;
      var p, t := pages[k], pageType(pages[k]);
      && |c.pages| == |pages|
      && c.pages[k].annots == [] && c.pages[k].contents == p.contents && c.pages[k].resources == p.resources
      && (t == BannerAds ==> c.pages[k].raw == Wrap(p.raw) && c.pages[k].boxes == AllBoxes(BannerRect(p.boxes[MediaBox])))
      && (t == Watermark ==> c.pages[k].raw == p.raw && c.pages[k].boxes == AllBoxes(WatermarkRect(p.boxes[MediaBox])))
      && (Discarded(t) ==> c.pages[k] == p.(annots := []))
  {
    var q := NaivePages(pages, pageType)[k];
    assert q == NaiveRewrite(pages[k], pageType(pages[k])).(annots := []);
  }

  /** Pages with the same resources, in the same order, get the same logo pass. */
  lemma {:induction false} LogoPassSameResources(objects: map<Ref, XObject>, a: seq<Page>, b: seq<Page>, logoDims: set<(int, int)>)
    requires |a| == |b| && forall k :: 0 <= k < |a| ==> a[k].resources == b[k].resources
    ensures LogoPass(objects, a, logoDims) == LogoPass(objects, b, logoDims)
  {
    if a != [] {
      LogoPassSameResources(objects, a[..|a| - 1], b[..|b| - 1], logoDims);
    }
  }

  /** The first pass leaves every page's resources as they were. */
  lemma BoxPassResources(pages: seq<Page>, pageType: Page -> PageType)
    requires forall k :: 0 <= k < |pages| ==> HasMediaBox(pages[k])
    ensures forall k :: 0 <= k < |pages| ==> BoxPass(pages, pageType)[k].resources == pages[k].resources
  {
    forall k | 0 <= k < |pages|
      ensures BoxPass(pages, pageType)[k].resources == pages[k].resources
    {
      assert BoxPass(pages, pageType)[k] == NaiveRewrite(pages[k], pageType(pages[k]));
    }
  }

  /** The first loop of the generic rewriter: re-box banner and watermark pages, wrap banner streams, list the rest for deletion. */
  method NaiveBoxPass(doc: Document, pageType: Page -> PageType) returns (toDelete: seq<int>)
    requires forall k :: 0 <= k < |doc.pages| ==> HasMediaBox(doc.pages[k])
    modifies doc
    ensures doc.pages == BoxPass(old(doc.pages), pageType)
    ensures doc.objects == old(doc.objects)
    ensures toDelete == PagesWhere(old(doc.pages), DiscardedBy(pageType))
  {
    ghost var pages0 := doc.pages;
    toDelete := [];
    var k := 0;
    while k < |doc.pages|
      invariant 0 <= k <= |doc.pages| == |pages0|
      invariant forall j :: 0 <= j < k ==> doc.pages[j] == NaiveRewrite(pages0[j], pageType(pages0[j]))
      invariant forall j :: k <= j < |pages0| ==> doc.pages[j] == pages0[j]
      invariant toDelete == PagesWhere(pages0[..k], DiscardedBy(pageType))
      invariant doc.objects == old(doc.objects)
      decreases |pages0| - k
    {
      PagesWhereStep(pages0, DiscardedBy(pageType), k);
      var drop := RewritePage(doc, k, pageType(doc.pages[k]));
      if drop {
        toDelete := toDelete + [k + 1];
      }
      k := k + 1;
    }
    assert pages0[..k] == pages0;
  }

  /**
   * One arm of the first loop: banner and watermark pages get new boxes and
   * banner streams are wrapped; full-page-ad and unknown pages are left as
   * they are and reported for deletion.
   */
  method RewritePage(doc: Document, k: int, t: PageType) returns (drop: bool)
    requires 0 <= k < |doc.pages| && HasMediaBox(doc.pages[k])
    modifies doc
    ensures drop == Discarded(t)
    ensures doc.pages == old(doc.pages)[k := NaiveRewrite(old(doc.pages)[k], t)]
    ensures doc.objects == old(doc.objects)
  {
    var p := doc.pages[k];
    var media := p.boxes[MediaBox];
    match t {
      case FullPageAds =>
        drop := true;
      case Idk =>
        drop := true;
      case BannerAds =>
        doc.SetPage(k, p.(boxes := AllBoxes(BannerRect(media))));
        var content := doc.pages[k].raw;
        doc.ChangePageContent(k, Wrap(content));
        drop := false;
      case Watermark =>
        doc.SetPage(k, p.(boxes := AllBoxes(WatermarkRect(media))));
        drop := false;
    }
  }

  /** The second loop of the generic rewriter: remove the logos each page names, then its annotations. */
  method NaiveLogoPass(doc: Document, logoDims: set<(int, int)>)
    requires forall k :: 0 <= k < |doc.pages| ==> !doc.pages[k].resources.NoResources?
    modifies doc
    ensures doc.pages == ClearAnnots(old(doc.pages))
    ensures doc.objects == LogoPass(old(doc.objects), old(doc.pages), logoDims)
  {
    ghost var pages0 := doc.pages;
    var k := 0;
    while k < |doc.pages|
      invariant 0 <= k <= |doc.pages| == |pages0|
      invariant forall j :: 0 <= j < k ==> doc.pages[j] == pages0[j].(annots := [])
      invariant forall j :: k <= j < |pages0| ==> doc.pages[j] == pages0[j]
      invariant doc.objects == LogoPass(old(doc.objects), pages0[..k], logoDims)
      decreases |pages0| - k
    {
      assert pages0[..k + 1][..k] == pages0[..k];
      var ignored := RemoveLogo(doc, k, logoDims);
      var p := doc.pages[k];
      doc.SetPage(k, p.(annots := []));
      k := k + 1;
    }
    assert pages0[..k] == pages0;
    assert doc.pages == ClearAnnots(pages0);
  }

  /** The generic arm of `Cleaner::clean`. */
  method CleanNaive(doc: Document, pageType: Page -> PageType, logoDims: set<(int, int)>) returns (r: Outcome<(seq<int>, int)>)
    modifies doc
    ensures NaiveOutcome(old(doc.pages), old(doc.objects), pageType, logoDims).Panic? ==>
      r == Panic && doc.pages == old(doc.pages) && doc.objects == old(doc.objects)
    ensures NaiveOutcome(old(doc.pages), old(doc.objects), pageType, logoDims).Ok? ==>
      var c := NaiveOutcome(old(doc.pages), old(doc.objects), pageType, logoDims).value;
      r == Ok((c.toDelete, c.tag)) && doc.pages == c.pages && doc.objects == c.objects
  {
    if !(forall k :: 0 <= k < |doc.pages| ==> HasMediaBox(doc.pages[k]) && !doc.pages[k].resources.NoResources?) {
      return Panic;
    }
    ghost var pages0, objects0 := doc.pages, doc.objects;
    var toDelete := NaiveBoxPass(doc, pageType);
    BoxPassResources(pages0, pageType);
    LogoPassSameResources(objects0, doc.pages, pages0, logoDims);
    NaiveLogoPass(doc, logoDims);
    r := Ok((toDelete, 2));
  }

  // ---------------------------------------------------------------------
  // The dispatch.

  /** What `Cleaner::clean` leaves for each scheme, or its panic. */
  function CleanSpec(m: Method, pages: seq<Page>, objects: map<Ref, XObject>, pageType: Page -> PageType, logoDims: set<(int, int)>): Outcome<Cleaned>
  {
    match m
    case Wuolah(cl, toDelete) =>
      (match WuolahOutcome(cl, pages)
       case Panic => Panic
       case Ok(ps) => Ok(Cleaned(ps, objects, toDelete, 0)))
    case StuDocu(cl) =>
      (match StuDocuOutcome(cl, pages)
       case Panic => Panic
       case Ok(ps) => Ok(Cleaned(ps, objects, [1], 1)))
    case Naive =>
      NaiveOutcome(pages, objects, pageType, logoDims)
  }

  /** `Cleaner::clean`: runs the rewriter of the chosen scheme on the document. */
  method CleanWithMethod(m: Method, doc: Document, pageType: Page -> PageType, logoDims: set<(int, int)>) returns (r: Outcome<(seq<int>, int)>)
    modifies doc
    ensures CleanSpec(m, old(doc.pages), old(doc.objects), pageType, logoDims).Panic? ==>
      r == Panic && doc.pages == old(doc.pages) && doc.objects == old(doc.objects)
    ensures CleanSpec(m, old(doc.pages), old(doc.objects), pageType, logoDims).Ok? ==>
      var c := CleanSpec(m, old(doc.pages), old(doc.objects), pageType, logoDims).value;
      r == Ok((c.toDelete, c.tag)) && doc.pages == c.pages && doc.objects == c.objects
  {
    match m
    case Wuolah(cl, toDelete) =>
      r := CleanWuolah(doc, cl, toDelete);
    case StuDocu(cl) =>
      r := CleanStuDocu(doc, cl);
    case Naive =>
      r := CleanNaive(doc, pageType, logoDims);
  }
}
