/**
 * The helpers of clean.rs that the rewriters share: the pair finder
 * (`find_iobj_pairs`), the per-page content lists that the scheme classifier
 * fingerprints, and logo neutralisation (`get_images`, `remove_logo`).
 */
module Clean {
  import opened Pdf

  /** The distinct references of a content list, as a `HashSet` collects them. */
  function Elems(s: seq<Ref>): set<Ref> {
    set x | x in s
  }

  /** Index of the first element of s that lies in c; |s| when none does. */
  function FirstIn(s: seq<Ref>, c: set<Ref>): (k: nat)
    ensures k <= |s|
    ensures k < |s| ==> s[k] in c
    ensures forall j :: 0 <= j < k ==> s[j] !in c
  {
    if s == [] then 0
    else if s[0] in c then 0
    else 1 + FirstIn(s[1..], c)
  }

  lemma TwoElements(c: set<Ref>, a: Ref, b: Ref)
    requires |c| == 2 && a in c && b in c && a != b
    ensures c == {a, b}
  {
    var rest := c - {a, b};
    assert |rest| == 0;
  }

  /**
   * `find_iobj_pairs`: where, in `first`, the two references shared with
   * `second` sit.  When the two lists (taken as sets) do not share exactly
   * two references the result is the sentinel (0, 0); otherwise it is the
   * positions of the first occurrences of the two shared references, lower
   * one first.
   */
  function FindIObjPairs(first: seq<Ref>, second: seq<Ref>): (r: (nat, nat))
    ensures |Elems(first) * Elems(second)| != 2 ==> r == (0, 0)
    ensures |Elems(first) * Elems(second)| == 2 ==>
      && r.0 < r.1 < |first|
      && {first[r.0], first[r.1]} == Elems(first) * Elems(second)
      && (forall j :: 0 <= j < r.0 ==> first[j] != first[r.0])
      && (forall j :: 0 <= j < r.1 ==> first[j] != first[r.1])
    ensures r.0 <= r.1
  {
    var common := Elems(first) * Elems(second);
    if |common| != 2 then (0, 0)
    else
      var lo := FirstIn(first, common);
      assert lo < |first| by {
        var x :| x in common;
        var j :| 0 <= j < |first| && first[j] == x;
      }
      assert |common - {first[lo]}| == 1;
      var hi := FirstIn(first, common - {first[lo]});
      assert hi < |first| by {
        var y :| y in common - {first[lo]};
        var j :| 0 <= j < |first| && first[j] == y;
      }
      TwoElements(common, first[lo], first[hi]);
      (lo, hi)
  }

  // ---------------------------------------------------------------------
  // The per-page content lists.

  /** A page with more than one content reference (the `x.len() > 1` filter). */
  predicate Multi(p: Page) {
    |p.contents| > 1
  }

  /** `content_list`: the content lists of the pages with more than one reference, in page order. */
  function ContentList(pages: seq<Page>): (cl: seq<seq<Ref>>)
    ensures |cl| <= |pages|
    ensures forall k :: 0 <= k < |cl| ==> |cl[k]| > 1
  {
    if pages == [] then []
    else
      var last := pages[|pages| - 1];
      ContentList(pages[..|pages| - 1]) + if Multi(last) then [last.contents] else []
  }

  /** How many pages with more than one content reference come before index k. */
  function Rank(pages: seq<Page>, k: nat): nat
    requires k <= |pages|
  {
    |ContentList(pages[..k])|
  }

  lemma {:induction false} ContentListPrefix(pages: seq<Page>, k: nat)
    requires k <= |pages|
    ensures |ContentList(pages[..k])| <= |ContentList(pages)|
    ensures ContentList(pages[..k]) == ContentList(pages)[..|ContentList(pages[..k])|]
  {
    if k < |pages| {
      var n := |pages|;
      assert pages[..k] == pages[..n - 1][..k];
      ContentListPrefix(pages[..n - 1], k);
    } else {
      assert pages[..k] == pages;
    }
  }

  /** The multi-content page at index k supplies entry Rank(pages, k) of the content list. */
  lemma ContentListAt(pages: seq<Page>, k: nat)
    requires k < |pages| && Multi(pages[k])
    ensures Rank(pages, k) < |ContentList(pages)|
    ensures ContentList(pages)[Rank(pages, k)] == pages[k].contents
  {
    assert pages[..k + 1][..k] == pages[..k];
    assert ContentList(pages[..k + 1]) == ContentList(pages[..k]) + [pages[k].contents];
    ContentListPrefix(pages, k + 1);
  }

  /** Every entry of the content list comes from a multi-content page of that rank. */
  lemma {:induction false} ContentListFrom(pages: seq<Page>, q: nat)
    requires q < |ContentList(pages)|
    ensures exists k :: 0 <= k < |pages| && Multi(pages[k]) && Rank(pages, k) == q
  {
    var n := |pages|;
    var front := pages[..n - 1];
    if q < |ContentList(front)| {
      ContentListFrom(front, q);
      var k :| 0 <= k < |front| && Multi(front[k]) && Rank(front, k) == q;
      assert front[..k] == pages[..k];
      assert Multi(pages[k]) && Rank(pages, k) == q;
    } else {
      assert pages[..n - 1] == front;
      assert Multi(pages[n - 1]) && Rank(pages, n - 1) == q;
    }
  }

  /** Rank grows by one exactly at each multi-content page. */
  lemma RankStep(pages: seq<Page>, k: nat)
    requires k < |pages|
    ensures Rank(pages, k + 1) == Rank(pages, k) + if Multi(pages[k]) then 1 else 0
  {
    assert pages[..k + 1][..k] == pages[..k];
  }

  /** Rank does not decrease, and it grows past each multi-content page. */
  lemma {:induction false} RankMonotone(pages: seq<Page>, a: nat, b: nat)
    requires a <= b <= |pages|
    ensures Rank(pages, a) <= Rank(pages, b)
    ensures a < b && Multi(pages[a]) ==> Rank(pages, a) < Rank(pages, b)
  {
    if a < b {
      RankMonotone(pages, a, b - 1);
      RankStep(pages, b - 1);
    }
  }

  // ---------------------------------------------------------------------
  // Numbered page filters.

  predicate StrictlyIncreasing(s: seq<int>) {
    forall i, j :: 0 <= i < j < |s| ==> s[i] < s[j]
  }

  /** The numbers (from 1) of the pages that `keep` selects, in page order. */
  function PagesWhere(pages: seq<Page>, keep: Page -> bool): seq<int>
  {
    if pages == [] then []
    else
      PagesWhere(pages[..|pages| - 1], keep) + if keep(pages[|pages| - 1]) then [|pages|] else []
  }

  /**
   * The numbers PagesWhere lists are ascending page numbers, and a number is
   * listed exactly when it names a page that `keep` selects.
   */
  lemma PagesWhereSpec(pages: seq<Page>, keep: Page -> bool)
    ensures StrictlyIncreasing(PagesWhere(pages, keep))
    ensures forall n :: n in PagesWhere(pages, keep) <==> 1 <= n <= |pages| && keep(pages[n - 1])
  {
    PagesWhereMembers(pages, keep);
    PagesWhereIncreasing(pages, keep);
  }

  /** A number is listed exactly when it names a page that `keep` selects. */
  lemma {:induction false} PagesWhereMembers(pages: seq<Page>, keep: Page -> bool)
    ensures forall n :: n in PagesWhere(pages, keep) <==> 1 <= n <= |pages| && keep(pages[n - 1])
  {
    if pages != [] {
      var front := pages[..|pages| - 1];
      PagesWhereMembers(front, keep);
      assert forall i :: 0 <= i < |front| ==> front[i] == pages[i];
    }
  }

  /** The listed numbers ascend. */
  lemma {:induction false} PagesWhereIncreasing(pages: seq<Page>, keep: Page -> bool)
    ensures StrictlyIncreasing(PagesWhere(pages, keep))
  {
    if pages != [] {
      var front := pages[..|pages| - 1];
      PagesWhereIncreasing(front, keep);
      PagesWhereMembers(front, keep);
      var ns := PagesWhere(front, keep);
      assert forall i :: 0 <= i < |ns| ==> ns[i] in ns;
      if keep(pages[|pages| - 1]) {
        AppendLarger(ns, |pages|);
      }
    }
  }

  /** Appending a number above every element keeps a sequence ascending. */
  lemma AppendLarger(s: seq<int>, x: int)
    requires StrictlyIncreasing(s)
    requires forall i :: 0 <= i < |s| ==> s[i] < x
    ensures StrictlyIncreasing(s + [x])
  {
  }

  /** Extending the pages by one adds that page's number exactly when it is selected. */
  lemma PagesWhereStep(pages: seq<Page>, keep: Page -> bool, k: nat)
    requires k < |pages|
    ensures PagesWhere(pages[..k + 1], keep) == PagesWhere(pages[..k], keep) + if keep(pages[k]) then [k + 1] else []
  {
    assert pages[..k + 1][..k] == pages[..k];
  }

  /**
   * The content list holds, in page order, the content references of exactly
   * the pages with more than one reference: entry i comes from the i-th such
   * page.
   */
  lemma {:induction false} ContentListIsMulti(pages: seq<Page>)
    ensures |ContentList(pages)| == |PagesWhere(pages, Multi)|
    ensures forall i :: 0 <= i < |ContentList(pages)| ==>
      1 <= PagesWhere(pages, Multi)[i] <= |pages| && ContentList(pages)[i] == pages[PagesWhere(pages, Multi)[i] - 1].contents
  {
    if pages != [] {
      var front := pages[..|pages| - 1];
      ContentListIsMulti(front);
      PagesWhereMembers(front, Multi);
      var cl, ns := ContentList(front), PagesWhere(front, Multi);
      forall i | 0 <= i < |cl|
        ensures 1 <= ns[i] <= |front| && cl[i] == pages[ns[i] - 1].contents
      {
        assert ns[i] in ns;
      }
    }
  }

  predicate HasOneContent(p: Page) {
    |p.contents| == 1
  }

  /** `to_delete` of the classifier: the numbers of the pages with exactly one content reference. */
  function SingleContentPages(pages: seq<Page>): seq<int> {
    PagesWhere(pages, HasOneContent)
  }

  // ---------------------------------------------------------------------
  // Logo neutralisation.

  predicate StartsWith(s: string, prefix: string) {
    |prefix| <= |s| && s[..|prefix|] == prefix
  }

  /** An XObject whose /Subtype starts with "Image". */
  predicate IsImage(x: XObject) {
    StartsWith(x.subtype, "Image")
  }

  /** An image whose (Height, Width) is one of the known logo dimensions. */
  predicate IsLogo(x: XObject, logoDims: set<(int, int)>) {
    IsImage(x) && (x.height, x.width) in logoDims
  }

  /** Every reference of the list resolves to an XObject. */
  predicate AllResolve(objects: map<Ref, XObject>, refs: seq<Ref>) {
    forall i :: 0 <= i < |refs| ==> refs[i] in objects
  }

  /**
   * `get_images`: the (Height, Width) of every image among the references, in
   * order; None when some reference does not resolve to a stream.
   */
  function Images(objects: map<Ref, XObject>, refs: seq<Ref>): Option<seq<(int, int)>>
  {
    if refs == [] then Some([])
    else
      match Images(objects, refs[..|refs| - 1])
      case None => None
      case Some(found) =>
        var r := refs[|refs| - 1];
        if r !in objects then None
        else if IsImage(objects[r]) then Some(found + [(objects[r].height, objects[r].width)])
        else Some(found)
  }

  /** Images succeeds exactly when every reference resolves, and then lists the dimensions of exactly the images. */
  lemma {:induction false} ImagesSpec(objects: map<Ref, XObject>, refs: seq<Ref>)
    ensures Images(objects, refs).Some? <==> AllResolve(objects, refs)
    ensures Images(objects, refs).Some? ==> forall d ::
      d in Images(objects, refs).value <==>
      exists i :: 0 <= i < |refs| && IsImage(objects[refs[i]]) && d == (objects[refs[i]].height, objects[refs[i]].width)
  {
    if refs != [] {
      var front := refs[..|refs| - 1];
      ImagesSpec(objects, front);
      assert forall i :: 0 <= i < |front| ==> front[i] == refs[i];
      if AllResolve(objects, refs) {
        assert AllResolve(objects, front);
      }
    }
  }

  /** The has_logo test: some image has logo dimensions. */
  predicate HasLogo(images: seq<(int, int)>, logoDims: set<(int, int)>) {
    exists i :: 0 <= i < |images| && images[i] in logoDims
  }

  /** The objects with every logo among `rs` given Height 0, all else as it was. */
  function Zeroed(objects: map<Ref, XObject>, rs: set<Ref>, logoDims: set<(int, int)>): (z: map<Ref, XObject>)
    ensures z.Keys == objects.Keys
  {
    map r | r in objects :: if r in rs && IsLogo(objects[r], logoDims) then objects[r].(height := 0) else objects[r]
  }

  /** What `remove_logo` leaves in the object store for a page with the given resources. */
  function LogoRemoved(objects: map<Ref, XObject>, res: Resources, logoDims: set<(int, int)>): map<Ref, XObject>
  {
    if res.XObjects? && AllResolve(objects, res.refs) then Zeroed(objects, Elems(res.refs), logoDims)
    else objects
  }

  /**
   * remove_logo sets Height to 0 on exactly the logo images the page names
   * (when all its XObjects resolve); every other object, and every entry but
   * Height, is unchanged.
   */
  lemma LogoRemovedSpec(objects: map<Ref, XObject>, res: Resources, logoDims: set<(int, int)>, r: Ref)
    requires r in objects
    ensures r in LogoRemoved(objects, res, logoDims)
    ensures var x, y := objects[r], LogoRemoved(objects, res, logoDims)[r];
      && y.subtype == x.subtype && y.width == x.width
      && (y.height != x.height ==> y.height == 0)
      && (y != x <==> res.XObjects? && AllResolve(objects, res.refs) && r in res.refs && IsLogo(x, logoDims) && x.height != 0)
  {
  }

  /** remove_logo is a no-op when none of the page's images has logo dimensions. */
  lemma LogoRemovedNoMatch(objects: map<Ref, XObject>, refs: seq<Ref>, logoDims: set<(int, int)>)
    requires Images(objects, refs).Some? && !HasLogo(Images(objects, refs).value, logoDims)
    ensures LogoRemoved(objects, XObjects(refs), logoDims) == objects
  {
    ImagesSpec(objects, refs);
    var images := Images(objects, refs).value;
    forall r | r in objects && r in refs
      ensures !IsLogo(objects[r], logoDims)
    {
      if IsLogo(objects[r], logoDims) {
        LogoIsFound(objects, refs, r, logoDims);
      }
    }
    assert Zeroed(objects, Elems(refs), logoDims) == objects;
  }

  /** A logo that the page names shows up among its images. */
  lemma LogoIsFound(objects: map<Ref, XObject>, refs: seq<Ref>, r: Ref, logoDims: set<(int, int)>)
    requires Images(objects, refs).Some? && r in refs && r in objects && IsLogo(objects[r], logoDims)
    ensures HasLogo(Images(objects, refs).value, logoDims)
  {
    ImagesSpec(objects, refs);
    var images := Images(objects, refs).value;
    var i :| 0 <= i < |refs| && refs[i] == r;
    var d := (objects[r].height, objects[r].width);
    assert d in images;
    var j :| 0 <= j < |images| && images[j] == d;
  }

  /** `get_images` over the store. */
  method GetImages(doc: Document, refs: seq<Ref>) returns (images: Option<seq<(int, int)>>)
    ensures images == Images(doc.objects, refs)
  {
    var found: seq<(int, int)> := [];
    var i := 0;
    while i < |refs|
      invariant 0 <= i <= |refs|
      invariant Images(doc.objects, refs[..i]) == Some(found)
    {
      assert refs[..i + 1][..i] == refs[..i];
      var r := refs[i];
      if r !in doc.objects {
        ImagesNoneExtends(doc.objects, refs, i + 1);
        return None;
      }
      var x := doc.objects[r];
      if IsImage(x) {
        found := found + [(x.height, x.width)];
      }
      i := i + 1;
    }
    assert refs[..|refs|] == refs;
    images := Some(found);
  }

  /** A failed prefix fails the whole list. */
  lemma {:induction false} ImagesNoneExtends(objects: map<Ref, XObject>, refs: seq<Ref>, k: nat)
    requires k <= |refs| && Images(objects, refs[..k]).None?
    ensures Images(objects, refs).None?
  {
    if k < |refs| {
      assert refs[..|refs| - 1][..k] == refs[..k];
      ImagesNoneExtends(objects, refs[..|refs| - 1], k);
    } else {
      assert refs[..k] == refs;
    }
  }

  /**
   * `remove_logo` for the page at index k.  Panic when the page has no
   * resource dictionary at all (`resource.0.unwrap()`); Ok(false) for the
   * errors the caller ignores (no /XObject dictionary, an XObject that does
   * not resolve); Ok(true) otherwise.
   */
  method RemoveLogo(doc: Document, k: int, logoDims: set<(int, int)>) returns (r: Outcome<bool>)
    requires 0 <= k < |doc.pages|
    modifies doc
    ensures doc.pages == old(doc.pages)
    ensures doc.objects == LogoRemoved(old(doc.objects), doc.pages[k].resources, logoDims)
    ensures r == Panic <==> doc.pages[k].resources.NoResources?
    ensures r == Ok(true) <==> doc.pages[k].resources.XObjects? && AllResolve(old(doc.objects), doc.pages[k].resources.refs)
  {
    match doc.pages[k].resources
    case NoResources =>
      return Panic;
    case NoXObjects =>
      return Ok(false);
    case XObjects(refs) =>
      var images := GetImages(doc, refs);
      ImagesSpec(doc.objects, refs);
      if images.None? {
        return Ok(false);
      }
      if !HasLogo(images.value, logoDims) {
        LogoRemovedNoMatch(doc.objects, refs, logoDims);
        return Ok(true);
      }
      ZeroLogos(doc, refs, logoDims);
      return Ok(true);
  }

  /** The loop of `remove_logo` that sets Height 0 on every logo the page names. */
  method ZeroLogos(doc: Document, refs: seq<Ref>, logoDims: set<(int, int)>)
    requires AllResolve(doc.objects, refs)
    modifies doc
    ensures doc.pages == old(doc.pages)
    ensures doc.objects == Zeroed(old(doc.objects), Elems(refs), logoDims)
  {
    ghost var before := doc.objects;
    var i := 0;
    while i < |refs|
      invariant 0 <= i <= |refs|
      invariant doc.pages == old(doc.pages)
      invariant doc.objects == Zeroed(before, Elems(refs[..i]), logoDims)
    {
      ElemsSnoc(refs, i);
      ZeroedExtend(before, Elems(refs[..i]), refs[i], logoDims);
      var x := doc.objects[refs[i]];
      if IsLogo(x, logoDims) {
        doc.SetHeight(refs[i], 0);
      }
      i := i + 1;
    }
    assert refs[..|refs|] == refs;
  }

  lemma ElemsSnoc(s: seq<Ref>, k: nat)
    requires k < |s|
    ensures Elems(s[..k + 1]) == Elems(s[..k]) + {s[k]}
  {
    assert s[..k + 1] == s[..k] + [s[k]];
  }

  /** Visiting one more reference zeroes it when, as it now stands, it is a logo. */
  lemma ZeroedExtend(objects: map<Ref, XObject>, rs: set<Ref>, r: Ref, logoDims: set<(int, int)>)
    requires r in objects
    ensures var z := Zeroed(objects, rs, logoDims);
      Zeroed(objects, rs + {r}, logoDims) == if IsLogo(z[r], logoDims) then z[r := z[r].(height := 0)] else z
  {
  }

  /** The logo pass of the generic rewriter: `remove_logo` on every page in turn. */
  function LogoPass(objects: map<Ref, XObject>, pages: seq<Page>, logoDims: set<(int, int)>): map<Ref, XObject>
  {
    if pages == [] then objects
    else LogoRemoved(LogoPass(objects, pages[..|pages| - 1], logoDims), pages[|pages| - 1].resources, logoDims)
  }

  /** The XObjects named by the pages whose XObjects all resolve. */
  function UsableRefs(objects: map<Ref, XObject>, pages: seq<Page>): set<Ref>
  {
    if pages == [] then {}
    else
      var res := pages[|pages| - 1].resources;
      UsableRefs(objects, pages[..|pages| - 1]) + if res.XObjects? && AllResolve(objects, res.refs) then Elems(res.refs) else {}
  }

  lemma ZeroedTwice(objects: map<Ref, XObject>, a: set<Ref>, b: set<Ref>, logoDims: set<(int, int)>)
    ensures Zeroed(Zeroed(objects, a, logoDims), b, logoDims) == Zeroed(objects, a + b, logoDims)
  {
  }

  /**
   * After the logo pass every logo named by a page whose XObjects resolve has
   * Height 0 and nothing else differs, although pages may share XObjects and
   * a later page sees the heights an earlier page has already cleared.
   */
  lemma {:induction false} LogoPassSpec(objects: map<Ref, XObject>, pages: seq<Page>, logoDims: set<(int, int)>)
    ensures LogoPass(objects, pages, logoDims) == Zeroed(objects, UsableRefs(objects, pages), logoDims)
  {
    if pages == [] {
      assert Zeroed(objects, {}, logoDims) == objects;
    } else {
      var front := pages[..|pages| - 1];
      var res := pages[|pages| - 1].resources;
      LogoPassSpec(objects, front, logoDims);
      var mid := Zeroed(objects, UsableRefs(objects, front), logoDims);
      if res.XObjects? {
        assert AllResolve(mid, res.refs) == AllResolve(objects, res.refs);
      }
      ZeroedTwice(objects, UsableRefs(objects, front), if res.XObjects? && AllResolve(objects, res.refs) then Elems(res.refs) else {}, logoDims);
      if !(res.XObjects? && AllResolve(objects, res.refs)) {
        assert UsableRefs(objects, pages) == UsableRefs(objects, front);
      }
    }
  }
}
