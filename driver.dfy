/**
 * The entry point of clean.rs: `match_method` chooses the scheme from the
 * page content lists, `clean_pdf` runs the chosen rewriter and then deletes
 * the pages it listed, shifting each page number down by the number of
 * pages already deleted.
 */
module Driver {
  import opened Pdf
  import opened Clean
  import opened Methods

  // ---------------------------------------------------------------------
  // Choosing the scheme.

  predicate HasThree(p: Page) {
    |p.contents| == 3
  }

  /** How many content lists have exactly three references. */
  function CountThree(cl: seq<seq<Ref>>): nat
  {
    if cl == [] then 0
    else CountThree(cl[..|cl| - 1]) + if |cl[|cl| - 1]| == 3 then 1 else 0
  }

  /** The three-reference lists of the content list are those of the three-reference pages. */
  lemma {:induction false} CountThreePages(pages: seq<Page>)
    ensures CountThree(ContentList(pages)) == |PagesWhere(pages, HasThree)|
  {
    if pages != [] {
      var front := pages[..|pages| - 1];
      CountThreePages(front);
      var cl := ContentList(pages);
      if Multi(pages[|pages| - 1]) {
        assert cl[..|cl| - 1] == ContentList(front);
      } else {
        assert cl == ContentList(front);
      }
    }
  }

  /**
   * The first two pages with more than one content reference share more
   * than one reference: the mark of the sandwich scheme.
   */
  predicate SandwichSignature(pages: seq<Page>) {
    exists i, j :: 0 <= i < j < |pages| && FirstTwoMulti(pages, i, j) && |Elems(pages[i].contents) * Elems(pages[j].contents)| > 1
  }

  /** Indices i and j are the first and second pages with more than one content reference. */
  predicate FirstTwoMulti(pages: seq<Page>, i: nat, j: nat)
    requires i < j < |pages|
  {
    Multi(pages[i]) && Multi(pages[j]) && Rank(pages, i) == 0 && Rank(pages, j) == 1
  }

  /** `match_method`. */
  function MatchMethod(pages: seq<Page>, forceNaive: bool): Method
  {
    if forceNaive then Naive
    else
      var cl := ContentList(pages);
      if CountThree(cl) > 1 then StuDocu(cl)
      else if |cl| > 1 && |Elems(cl[0]) * Elems(cl[1])| > 1 then Wuolah(cl, SingleContentPages(pages))
      else Naive
  }

  /** The sandwich test on the first two content lists is the signature on the pages. */
  lemma SandwichIff(pages: seq<Page>)
    ensures SandwichSignature(pages) <==>
      var cl := ContentList(pages); |cl| > 1 && |Elems(cl[0]) * Elems(cl[1])| > 1
  {
    var cl := ContentList(pages);
    if |cl| > 1 && |Elems(cl[0]) * Elems(cl[1])| > 1 {
      ContentListFrom(pages, 0);
      ContentListFrom(pages, 1);
      var i :| 0 <= i < |pages| && Multi(pages[i]) && Rank(pages, i) == 0;
      var j :| 0 <= j < |pages| && Multi(pages[j]) && Rank(pages, j) == 1;
      ContentListAt(pages, i);
      ContentListAt(pages, j);
      if j <= i {
        RankMonotone(pages, j, i);
      }
      assert FirstTwoMulti(pages, i, j);
    }
    if SandwichSignature(pages) {
      var i, j :| 0 <= i < j < |pages| && FirstTwoMulti(pages, i, j) && |Elems(pages[i].contents) * Elems(pages[j].contents)| > 1;
      ContentListAt(pages, i);
      ContentListAt(pages, j);
    }
  }

  /**
   * Unless the generic rewriter is forced, at least two pages with exactly
   * three content references select the prepended scheme; otherwise the
   * sandwich signature selects the sandwich scheme; anything else falls back
   * to the generic rewriter.  The prepended and sandwich schemes receive the
   * content lists of the multi-content pages, and the sandwich scheme also
   * the numbers of the single-content pages for deletion.
   */
  lemma MatchMethodSpec(pages: seq<Page>, forceNaive: bool)
    ensures var m := MatchMethod(pages, forceNaive);
      && (m.StuDocu? <==> !forceNaive && |PagesWhere(pages, HasThree)| > 1)
      && (m.Wuolah? <==> !forceNaive && |PagesWhere(pages, HasThree)| <= 1 && SandwichSignature(pages))
      && (m.Naive? <==> forceNaive || (|PagesWhere(pages, HasThree)| <= 1 && !SandwichSignature(pages)))
      && (m.StuDocu? ==> m.contentList == ContentList(pages))
      && (m.Wuolah? ==> m.contentList == ContentList(pages) && m.toDelete == SingleContentPages(pages))
  {
    CountThreePages(pages);
    SandwichIff(pages);
  }

  /**
   * `to_delete` of the classifier lists, in ascending order, exactly the
   * pages with one content reference; a page without any content reference
   * is neither listed for deletion nor among the pages the content list is
   * drawn from.
   */
  lemma ClassifierLists(pages: seq<Page>)
    ensures StrictlyIncreasing(SingleContentPages(pages))
    ensures forall n :: n in SingleContentPages(pages) <==> 1 <= n <= |pages| && |pages[n - 1].contents| == 1
    ensures forall k :: 0 <= k < |pages| && pages[k].contents == [] ==>
      k + 1 !in SingleContentPages(pages) && k + 1 !in PagesWhere(pages, Multi)
  {
    PagesWhereSpec(pages, HasOneContent);
    PagesWhereSpec(pages, Multi);
  }

  // ---------------------------------------------------------------------
  // Deleting the listed pages.

  /**
   * The page list after the deletion loop: the entry at position `offset` of
   * the list is deleted as page number entry - offset, in list order.
   */
  function DeleteWithOffset(pages: seq<Page>, del: seq<int>): seq<Page>
  {
    if del == [] then pages
    else
      var m := |del|;
      DeleteAt(DeleteWithOffset(pages, del[..m - 1]), del[m - 1] - (m - 1))
  }

  /** The pages whose number (the first one being numbered f) is not in del, in order. */
  function Survivors(pages: seq<Page>, del: seq<int>, f: int): seq<Page>
  {
    if pages == [] then []
    else Survivors(pages[..|pages| - 1], del, f) + if f + |pages| - 1 in del then [] else [pages[|pages| - 1]]
  }

  lemma {:induction false} SurvivorsAppend(a: seq<Page>, b: seq<Page>, del: seq<int>, f: int)
    ensures Survivors(a + b, del, f) == Survivors(a, del, f) + Survivors(b, del, f + |a|)
  {
    if b == [] {
      assert a + b == a;
    } else {
      assert (a + b)[..|a + b| - 1] == a + b[..|b| - 1];
      SurvivorsAppend(a, b[..|b| - 1], del, f);
    }
  }

  /** Two deletion lists that agree on the numbers from f to f + |pages| - 1 keep the same pages. */
  lemma {:induction false} SurvivorsAgree(pages: seq<Page>, d1: seq<int>, d2: seq<int>, f: int)
    requires forall n :: f <= n < f + |pages| ==> (n in d1 <==> n in d2)
    ensures Survivors(pages, d1, f) == Survivors(pages, d2, f)
  {
    if pages != [] {
      SurvivorsAgree(pages[..|pages| - 1], d1, d2, f);
    }
  }

  lemma {:induction false} SurvivorsNone(pages: seq<Page>, del: seq<int>, f: int)
    requires forall n :: f <= n < f + |pages| ==> n !in del
    ensures Survivors(pages, del, f) == pages
  {
    if pages != [] {
      SurvivorsNone(pages[..|pages| - 1], del, f);
    }
  }

  predicate Within(del: seq<int>, lo: int, hi: int) {
    forall i :: 0 <= i < |del| ==> lo <= del[i] < hi
  }

  /** A strictly increasing list of numbers, all naming pages, removes exactly that many pages. */
  lemma {:induction false} SurvivorsLength(pages: seq<Page>, del: seq<int>, f: int)
    requires StrictlyIncreasing(del) && Within(del, f, f + |pages|)
    ensures |Survivors(pages, del, f)| == |pages| - |del|
  {
    assert del == [] || f <= del[0] < f + |pages|;
    if pages != [] {
      var front := pages[..|pages| - 1];
      var top := f + |pages| - 1;
      if top in del {
        var m := |del|;
        var d := del[..m - 1];
        var i :| 0 <= i < m && del[i] == top;
        assert i == m - 1;
        assert Within(d, f, top) by {
          forall j | 0 <= j < m - 1 ensures f <= d[j] < top {
            assert d[j] == del[j] < del[m - 1];
          }
        }
        assert forall n :: f <= n < top ==> (n in del <==> n in d) by {
          forall n | f <= n < top && n in del ensures n in d {
            var k :| 0 <= k < m && del[k] == n;
          }
        }
        SurvivorsAgree(front, del, d, f);
        SurvivorsLength(front, d, f);
      } else {
        SurvivorsLength(front, del, f);
      }
    }
  }

  /**
   * For a strictly increasing deletion list whose entries all name pages,
   * the offset loop removes exactly the listed pages and keeps the others in
   * order: subtracting the number of deletions already made from each entry
   * compensates exactly for the renumbering each deletion causes.
   */
  lemma {:induction false} DeleteWithOffsetSpec(pages: seq<Page>, del: seq<int>)
    requires StrictlyIncreasing(del) && Within(del, 1, |pages| + 1)
    ensures DeleteWithOffset(pages, del) == Survivors(pages, del, 1)
    ensures |DeleteWithOffset(pages, del)| == |pages| - |del|
  {
    if del == [] {
      SurvivorsNone(pages, del, 1);
    } else {
      var d := del[..|del| - 1];
      var x := del[|del| - 1];
      DropLast(del, 1, |pages| + 1);
      DeleteWithOffsetSpec(pages, d);
      DeleteLastSurvivor(pages, d, x);
    }
    SurvivorsLength(pages, del, 1);
  }

  /** Without its last entry x, an ascending list of numbers stays ascending and lies below x. */
  lemma DropLast(del: seq<int>, lo: int, hi: int)
    requires del != [] && StrictlyIncreasing(del) && Within(del, lo, hi)
    ensures var d, x := del[..|del| - 1], del[|del| - 1];
      del == d + [x] && StrictlyIncreasing(d) && Within(d, lo, x) && lo <= x < hi
  {
    var d := del[..|del| - 1];
    assert del == d + [del[|del| - 1]];
    forall i | 0 <= i < |d| ensures lo <= d[i] < del[|del| - 1] {
      assert d[i] == del[i];
    }
  }

  /**
   * The inductive step: once the pages numbered in all but the last entry x
   * are gone, page x sits at number x - (m - 1), and deleting it leaves the
   * survivors of the whole list.
   */
  lemma DeleteLastSurvivor(pages: seq<Page>, d: seq<int>, x: int)
    requires StrictlyIncreasing(d) && Within(d, 1, x) && 1 <= x <= |pages|
    ensures DeleteAt(Survivors(pages, d, 1), x - |d|) == Survivors(pages, d + [x], 1)
  {
    var sa, sc := SurvivorsAround(pages, d, x);
    DeleteAtMiddle(sa, pages[x - 1], sc);
  }

  /** Before page x the two lists keep the same x - 1 - |d| pages, and after it the same pages. */
  lemma SurvivorsAround(pages: seq<Page>, d: seq<int>, x: int) returns (sa: seq<Page>, sc: seq<Page>)
    requires StrictlyIncreasing(d) && Within(d, 1, x) && 1 <= x <= |pages|
    ensures Survivors(pages, d, 1) == sa + [pages[x - 1]] + sc
    ensures Survivors(pages, d + [x], 1) == sa + sc
    ensures |sa| + 1 == x - |d|
  {
    var del := d + [x];
    assert x !in d;
    assert forall n :: n != x ==> (n in del <==> n in d);
    var a, c := pages[..x - 1], pages[x..];
    SurvivorsAgree(a, d, del, 1);
    SurvivorsAgree(c, d, del, x + 1);
    SurvivorsSplit(pages, d, x);
    SurvivorsSplit(pages, del, x);
    SurvivorsLength(a, d, 1);
    sa, sc := Survivors(a, d, 1), Survivors(c, d, x + 1);
    assert x in del;
  }

  lemma DeleteAtMiddle(a: seq<Page>, p: Page, c: seq<Page>)
    ensures DeleteAt(a + [p] + c, |a| + 1) == a + c
  {
    var joined := a + [p] + c;
    assert joined[..|a|] == a && joined[|a| + 1..] == c;
  }

  /** The survivors of the pages before x, of page x, and of the pages after it. */
  lemma SurvivorsSplit(pages: seq<Page>, del: seq<int>, x: int)
    requires 1 <= x <= |pages|
    ensures Survivors(pages, del, 1) ==
      Survivors(pages[..x - 1], del, 1) + (if x in del then [] else [pages[x - 1]]) + Survivors(pages[x..], del, x + 1)
  {
    var a, p, c := pages[..x - 1], pages[x - 1], pages[x..];
    assert pages == a + [p] + c;
    SurvivorsAppend(a + [p], c, del, 1);
    SurvivorsAppend(a, [p], del, 1);
    assert [p][..0] == [];
  }

  /** The offset loop never adds pages, whatever the list. */
  lemma {:induction false} DeleteWithOffsetShrinks(pages: seq<Page>, del: seq<int>)
    ensures |DeleteWithOffset(pages, del)| <= |pages|
  {
    if del != [] {
      DeleteWithOffsetShrinks(pages, del[..|del| - 1]);
    }
  }

  /** The deletion loop of `clean_pdf`. */
  method DeletePages(doc: Document, del: seq<int>)
    modifies doc
    ensures doc.pages == DeleteWithOffset(old(doc.pages), del)
    ensures doc.objects == old(doc.objects)
  {
    var offset := 0;
    while offset < |del|
      invariant 0 <= offset <= |del|
      invariant doc.pages == DeleteWithOffset(old(doc.pages), del[..offset])
      invariant doc.objects == old(doc.objects)
    {
      assert del[..offset + 1][..offset] == del[..offset];
      doc.DeletePage(del[offset] - offset);
      offset := offset + 1;
    }
    assert del[..offset] == del;
  }

  // ---------------------------------------------------------------------
  // The whole clean.

  /** The pages, the XObjects and the scheme tag `clean_pdf` intends to save: the rewrite, then the deletions. */
  function CleanPdfSpec(pages: seq<Page>, objects: map<Ref, XObject>, forceNaive: bool, pageType: Page -> PageType, logoDims: set<(int, int)>): Outcome<(seq<Page>, map<Ref, XObject>, int)>
  {
    match CleanSpec(MatchMethod(pages, forceNaive), pages, objects, pageType, logoDims)
    case Panic => Panic
    case Ok(c) => Ok((DeleteWithOffset(c.pages, c.toDelete), c.objects, c.tag))
  }

  /** What `clean_pdf` as written saves: the rewrite lands on a clone that is dropped, so only the deletions reach the saved document. */
  function CleanPdfAsWrittenSpec(pages: seq<Page>, objects: map<Ref, XObject>, forceNaive: bool, pageType: Page -> PageType, logoDims: set<(int, int)>): Outcome<(seq<Page>, map<Ref, XObject>, int)>
  {
    match CleanSpec(MatchMethod(pages, forceNaive), pages, objects, pageType, logoDims)
    case Panic => Panic
    case Ok(c) => Ok((DeleteWithOffset(pages, c.toDelete), objects, c.tag))
  }

  /** `clean_pdf` with the rewrite applied to the document that is saved. */
  method CleanPdf(doc: Document, forceNaive: bool, pageType: Page -> PageType, logoDims: set<(int, int)>) returns (r: Outcome<int>)
    modifies doc
    ensures CleanPdfSpec(old(doc.pages), old(doc.objects), forceNaive, pageType, logoDims).Panic? ==> r == Panic
    ensures CleanPdfSpec(old(doc.pages), old(doc.objects), forceNaive, pageType, logoDims).Ok? ==>
      var (pages, objects, tag) := CleanPdfSpec(old(doc.pages), old(doc.objects), forceNaive, pageType, logoDims).value;
      r == Ok(tag) && doc.pages == pages && doc.objects == objects
  {
    var m := MatchMethod(doc.pages, forceNaive);
    var res := CleanWithMethod(m, doc, pageType, logoDims);
    if res.Panic? {
      return Panic;
    }
    var (toDelete, tag) := res.value;
    DeletePages(doc, toDelete);
    r := Ok(tag);
  }

  /** `clean_pdf` as written: `match_method` hands the rewriter `doc.clone()`, and the deletions run on the original. */
  method CleanPdfAsWritten(doc: Document, forceNaive: bool, pageType: Page -> PageType, logoDims: set<(int, int)>) returns (r: Outcome<int>)
    modifies doc
    ensures CleanPdfAsWrittenSpec(old(doc.pages), old(doc.objects), forceNaive, pageType, logoDims).Panic? ==> r == Panic
    ensures CleanPdfAsWrittenSpec(old(doc.pages), old(doc.objects), forceNaive, pageType, logoDims).Ok? ==>
      var (pages, objects, tag) := CleanPdfAsWrittenSpec(old(doc.pages), old(doc.objects), forceNaive, pageType, logoDims).value;
      r == Ok(tag) && doc.pages == pages && doc.objects == objects
  {
    var m := MatchMethod(doc.pages, forceNaive);
    var copy := doc.Clone();
    var res := CleanWithMethod(m, copy, pageType, logoDims);
    if res.Panic? {
      return Panic;
    }
    var (toDelete, tag) := res.value;
    DeletePages(doc, toDelete);
    r := Ok(tag);
  }

  /** Strictly increasing page numbers from 1 up: entry i is at least i + 1, so `page - offset` never goes below 1. */
  lemma {:induction false} OffsetsPositive(del: seq<int>, hi: int)
    requires StrictlyIncreasing(del) && Within(del, 1, hi)
    ensures forall i :: 0 <= i < |del| ==> del[i] - i >= 1
  {
    if del != [] {
      var d := del[..|del| - 1];
      assert StrictlyIncreasing(d) && Within(d, 1, hi);
      OffsetsPositive(d, hi);
      assert forall i :: 0 <= i < |d| ==> d[i] == del[i];
      if |del| > 1 {
        assert del[|del| - 2] < del[|del| - 1];
      }
    }
  }

  /**
   * Every scheme keeps the number of pages and hands back an ascending list
   * of page numbers that all name pages; so the deletion loop never
   * subtracts its way below page 1, and `clean_pdf` saves exactly the
   * rewritten pages whose numbers are not listed.
   */
  lemma CleanPdfDeletes(pages: seq<Page>, objects: map<Ref, XObject>, forceNaive: bool, pageType: Page -> PageType, logoDims: set<(int, int)>)
    requires CleanSpec(MatchMethod(pages, forceNaive), pages, objects, pageType, logoDims).Ok?
    ensures var c := CleanSpec(MatchMethod(pages, forceNaive), pages, objects, pageType, logoDims).value;
      && |c.pages| == |pages|
      && StrictlyIncreasing(c.toDelete) && Within(c.toDelete, 1, |pages| + 1)
      && (forall i :: 0 <= i < |c.toDelete| ==> c.toDelete[i] - i >= 1)
      && CleanPdfSpec(pages, objects, forceNaive, pageType, logoDims) == Ok((Survivors(c.pages, c.toDelete, 1), c.objects, c.tag))
      && |Survivors(c.pages, c.toDelete, 1)| == |pages| - |c.toDelete|
  {
    var c := CleanSpec(MatchMethod(pages, forceNaive), pages, objects, pageType, logoDims).value;
    CleanedShape(pages, objects, forceNaive, pageType, logoDims);
    OffsetsPositive(c.toDelete, |pages| + 1);
    DeleteWithOffsetSpec(c.pages, c.toDelete);
  }

  lemma CleanedShape(pages: seq<Page>, objects: map<Ref, XObject>, forceNaive: bool, pageType: Page -> PageType, logoDims: set<(int, int)>)
    requires CleanSpec(MatchMethod(pages, forceNaive), pages, objects, pageType, logoDims).Ok?
    ensures var c := CleanSpec(MatchMethod(pages, forceNaive), pages, objects, pageType, logoDims).value;
      |c.pages| == |pages| && StrictlyIncreasing(c.toDelete) && Within(c.toDelete, 1, |pages| + 1)
  {
    match MatchMethod(pages, forceNaive) {
      case Wuolah(cl, toDelete) =>
        MatchMethodSpec(pages, forceNaive);
        NumberedPages(pages, HasOneContent);
      case StuDocu(cl) =>
        StuDocuShape(pages, forceNaive);
      case Naive =>
        NumberedPages(pages, DiscardedBy(pageType));
    }
  }

  /** The prepended scheme is only chosen for a document with pages, so `[1]` names one. */
  lemma StuDocuShape(pages: seq<Page>, forceNaive: bool)
    requires MatchMethod(pages, forceNaive).StuDocu?
    ensures |pages| >= 1
  {
    MatchMethodSpec(pages, forceNaive);
    CountThreePages(pages);
  }

  lemma NumberedPages(pages: seq<Page>, keep: Page -> bool)
    ensures StrictlyIncreasing(PagesWhere(pages, keep)) && Within(PagesWhere(pages, keep), 1, |pages| + 1)
  {
    PagesWhereSpec(pages, keep);
    NumbersWithin(PagesWhere(pages, keep), |pages|);
  }

  lemma NumbersWithin(del: seq<int>, n: int)
    requires forall x :: x in del ==> 1 <= x <= n
    ensures Within(del, 1, n + 1)
  {
    forall i | 0 <= i < |del| ensures 1 <= del[i] < n + 1 {
      assert del[i] in del;
    }
  }

  // ---------------------------------------------------------------------
  // The clone in `match_method`.

  /**
   * As written, `clean_pdf` saves pages of the original document only:
   * whatever the scheme rewrote, every saved page is one of the input pages
   * unchanged, and the XObjects are the input's.
   */
  lemma AsWrittenKeepsOriginals(pages: seq<Page>, objects: map<Ref, XObject>, forceNaive: bool, pageType: Page -> PageType, logoDims: set<(int, int)>)
    requires CleanPdfAsWrittenSpec(pages, objects, forceNaive, pageType, logoDims).Ok?
    ensures var (saved, objs, _) := CleanPdfAsWrittenSpec(pages, objects, forceNaive, pageType, logoDims).value;
      objs == objects && forall q :: q in saved ==> q in pages
  {
    var c := CleanSpec(MatchMethod(pages, forceNaive), pages, objects, pageType, logoDims).value;
    DeleteKeepsOriginals(pages, c.toDelete);
  }

  lemma {:induction false} DeleteKeepsOriginals(pages: seq<Page>, del: seq<int>)
    ensures forall q :: q in DeleteWithOffset(pages, del) ==> q in pages
  {
    if del != [] {
      var m := |del|;
      DeleteKeepsOriginals(pages, del[..m - 1]);
      var before := DeleteWithOffset(pages, del[..m - 1]);
      forall q | q in DeleteAt(before, del[m - 1] - (m - 1)) ensures q in pages {
        var n := del[m - 1] - (m - 1);
        if 1 <= n <= |before| {
          var k :| 0 <= k < |before| - 1 && DeleteAt(before, n)[k] == q;
          assert q in before;
        }
      }
    }
  }

  /**
   * The counterexample: a one-page document whose page the heuristic calls a
   * banner page, cleaned with the generic rewriter.  The intended clean saves
   * that page without annotations, with the banner boxes and with its stream
   * wrapped in the 1.124 scaling, so 26 bytes longer; as written, the saved
   * page is the input page unchanged.
   */
  lemma CloneDropsRewrite(p: Page, pageType: Page -> PageType)
    requires HasMediaBox(p) && !p.resources.NoResources? && pageType(p) == BannerAds
    ensures CleanPdfAsWrittenSpec([p], map[], true, pageType, {}) == Ok(([p], map[], 2))
    ensures CleanPdfSpec([p], map[], true, pageType, {}) ==
      Ok(([p.(annots := [], boxes := AllBoxes(BannerRect(p.boxes[MediaBox])), raw := Wrap(p.raw))], map[], 2))
    ensures CleanPdfSpec([p], map[], true, pageType, {}).value.0 != [p]
  {
    assert [p][..0] == [];
    assert PagesWhere([p], DiscardedBy(pageType)) == [] by {
      assert !DiscardedBy(pageType)(p);
    }
    assert LogoPass(map[], [p], {}) == map[];
    var q := p.(annots := [], boxes := AllBoxes(BannerRect(p.boxes[MediaBox])), raw := Wrap(p.raw));
    assert BoxPass([p], pageType)[0] == q.(annots := p.annots);
    assert NaivePages([p], pageType)[0] == q;
    assert NaivePages([p], pageType) == [q];
    WrapSpec(p.raw);
    assert |Wrap(p.raw)| != |p.raw|;
    var saved := CleanPdfSpec([p], map[], true, pageType, {}).value.0;
    assert saved[0].raw != p.raw;
    assert saved[0] != [p][0];
  }

  // ---------------------------------------------------------------------
  // Two-page documents.

  lemma TwoPageContentList(p1: Page, p2: Page)
    ensures ContentList([p1, p2]) == (if Multi(p1) then [p1.contents] else []) + (if Multi(p2) then [p2.contents] else [])
  {
    assert [p1, p2][..1] == [p1];
    assert [p1][..0] == [];
  }

  /**
   * Two pages with exactly three content references select the prepended
   * scheme, even when they share references as a sandwich document's pages
   * do: the three-reference test comes first.
   */
  lemma ThreeRefPagesArePrepended(p1: Page, p2: Page)
    requires |p1.contents| == 3 && |p2.contents| == 3
    ensures MatchMethod([p1, p2], false) == StuDocu([p1.contents, p2.contents])
  {
    TwoPageContentList(p1, p2);
    var cl := ContentList([p1, p2]);
    assert cl == [p1.contents, p2.contents];
    assert cl[..1] == [p1.contents] && cl[..1][..0] == [];
    assert CountThree(cl[..1]) == 1;
    assert CountThree(cl) == 2;
  }

  /**
   * A two-page sandwich document whose first page starts with one of the two
   * shared references, so that nothing precedes the lower boundary: the
   * sandwich scheme is chosen and its slice `x[lo - 2..]` panics.
   */
  lemma SandwichAtStartPanics(p1: Page, p2: Page, objects: map<Ref, XObject>, pageType: Page -> PageType, logoDims: set<(int, int)>)
    requires Multi(p1) && Multi(p2) && (|p1.contents| != 3 || |p2.contents| != 3)
    requires |Elems(p1.contents) * Elems(p2.contents)| == 2
    requires p1.contents[0] in Elems(p2.contents)
    ensures MatchMethod([p1, p2], false) == Wuolah([p1.contents, p2.contents], SingleContentPages([p1, p2]))
    ensures CleanSpec(MatchMethod([p1, p2], false), [p1, p2], objects, pageType, logoDims) == Panic
  {
    SandwichAtStartChosen(p1, p2);
    SandwichAtStartSlice(p1.contents, p2.contents);
  }

  /** Two multi-content pages that share two references and are not both three long select the sandwich scheme. */
  lemma SandwichAtStartChosen(p1: Page, p2: Page)
    requires Multi(p1) && Multi(p2) && (|p1.contents| != 3 || |p2.contents| != 3)
    requires |Elems(p1.contents) * Elems(p2.contents)| == 2
    ensures MatchMethod([p1, p2], false) == Wuolah([p1.contents, p2.contents], SingleContentPages([p1, p2]))
  {
    TwoPageContentList(p1, p2);
    var cl := [p1.contents, p2.contents];
    assert cl[..1] == [p1.contents] && cl[..1][..0] == [];
    assert CountThree(cl[..1]) <= 1;
    assert CountThree(cl) <= 1;
  }

  /** When the first list starts with a shared reference, its slice has no room below the lower boundary. */
  lemma SandwichAtStartSlice(x: seq<Ref>, y: seq<Ref>)
    requires |Elems(x) * Elems(y)| == 2
    requires |x| > 0 && x[0] in Elems(y)
    ensures WuolahContents([x, y]).Panic?
  {
    var cl := [x, y];
    if x != y {
      var (lo, hi) := FindIObjPairs(x, y);
      assert x[0] in Elems(x) * Elems(y);
      assert lo == 0 || hi == 0;
      assert WuolahPair(cl, 0) == Some((lo, hi));
    } else {
      assert WuolahPair(cl, 0) == None;
    }
    assert WuolahSlice(cl, 0).Panic?;
  }
}
