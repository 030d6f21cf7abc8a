# gulagcleaner: the classification and rewrite engine

gulagcleaner strips advertising from PDF lecture notes. This project models the
core of its Rust library in Dafny: `gulagcleaner_rs/src/clean.rs` and
`gulagcleaner_rs/src/models/method.rs`. It proves properties of that model.

The PDF container (lopdf) is abstracted to an owned store, `Pdf.Document`. It has:
- the pages in page-tree order, where page number n is `pages[n - 1]`;
- the XObjects, in a map indexed by reference.

Each page records:
- its /Contents references;
- its /Annots;
- the boxes it carries;
- the bytes of its content stream, as the generic rewriter reads and writes them (see Left out);
- its resources: none at all, no /XObject dictionary, or the references of its /XObject dictionary.

Deleting a page renumbers every later page.

The model follows the program's structure:

- `Clean` (clean.rs helpers) covers:
  - the pair finder `find_iobj_pairs`;
  - the content lists and the page filters the classifier builds;
  - `get_images` and `remove_logo` over the XObject store, with the logo loop as an imperative method.
- `Methods` (method.rs) covers:
  - the `Method` enum;
  - the three rewriters of `Cleaner::clean`. Wuolah is the sandwich scheme, StuDocu the prepended scheme and Naive the generic per-page rewriter.

  Each rewriter is a method that changes the document in place. It is proved against a specification function (`WuolahOutcome`, `StuDocuOutcome`, `NaiveOutcome`). Lemmas then state what those functions do page by page.
- `Driver` (clean.rs entry points) covers:
  - `match_method` as a function, with lemmas that characterise its choice;
  - the delete-with-offset loop of `clean_pdf` as a method, proved to remove exactly the listed pages;
  - `clean_pdf` itself in two forms, as written and corrected (see Findings).

### Error handling
A panic in the source is `Outcome.Panic` in the model. Examples are an `unwrap` of a missing /MediaBox or resource dictionary, a slice or index out of range, and `content_list[i - 1]` at `i == 0`.

The sandwich scheme is not guarded in the source, and the model keeps that. The slice `x[p0 - 2 ..= p1 + 3]` panics when a shared reference sits within two places of the start of a list or within three of its end. A first list whose pair must come from the previous list also panics. So does a later entry for which both neighbours give the sentinel (0, 0): it falls back to (0, 0), and `0 - 2` underflows. `Methods.WuolahSlice` states exactly when this happens, and `Driver.SandwichAtStartPanics` exhibits such a document.

The prepended scheme panics exactly when some page has at most one content reference (`Methods.StuDocuRewriteSpec`).

### A sandwich-looking document that is not classified as one
A two-page document with the content lists [A,B,C] and [A,B,D] looks like a sandwich document, but `match_method` picks the prepended scheme (StuDocu). Both pages have exactly three references, and that test runs first. `Driver.ThreeRefPagesArePrepended` proves this.

## Model

| member | source | states |
|---|---|---|
| Clean.FindIObjPairs | gulagcleaner_rs/src/clean.rs:48-66 | Returns (0, 0) when the two lists, as sets, do not share exactly two references. Otherwise returns r.0 < r.1 < \|first\|. These are the first occurrences in `first` of the two shared references, and together they are exactly the shared set. |
| Clean.ContentListAt | gulagcleaner_rs/src/clean.rs:169-173 | The multi-content page at index k supplies the content-list entry whose index is the number of multi-content pages before it. |
| Clean.ContentListIsMulti | gulagcleaner_rs/src/clean.rs:169-173 | The content list has one entry per page with more than one content reference. Its i-th entry is the contents of the i-th such page, in page order. |
| Clean.PagesWhereSpec | gulagcleaner_rs/src/clean.rs:175-187 | A page filter lists strictly ascending page numbers. A number is listed iff it names a page the filter selects. |
| Clean.Images | gulagcleaner_rs/src/clean.rs:93-111 | The model of `get_images`: the image dimensions in reference order, or None when a reference does not resolve. Its contract is in Clean.ImagesSpec and Clean.GetImages. |
| Clean.ImagesSpec | gulagcleaner_rs/src/clean.rs:93-111 | `get_images` succeeds iff every XObject reference resolves. It then lists the (Height, Width) of exactly the XObjects whose subtype starts with "Image". |
| Clean.GetImages | gulagcleaner_rs/src/clean.rs:93-111 | The loop returns the image list of that specification, and None as soon as a reference does not resolve. |
| Clean.LogoRemovedSpec | gulagcleaner_rs/src/clean.rs:113-147 | `remove_logo` changes no subtype, width or key. An object changes iff all of the following hold: the page's XObjects all resolve, the page names the object, it is an image, its (Height, Width) is a logo size, and its height is not already 0. The change is Height := 0. |
| Clean.LogoRemovedNoMatch | gulagcleaner_rs/src/clean.rs:117-124 | When no image of the page has logo dimensions, `remove_logo` leaves the store unchanged. |
| Clean.RemoveLogo | gulagcleaner_rs/src/clean.rs:113-148 | The store afterwards is the logo removal of the page's resources, and the pages are unchanged. It panics iff the page has no resource dictionary. It reports success iff the page has an /XObject dictionary whose entries all resolve. |
| Clean.ZeroLogos | gulagcleaner_rs/src/clean.rs:124-145 | The loop sets Height to 0 on exactly the logos among the page's references. This holds when references repeat and the loop sees heights it has already cleared. |
| Clean.LogoPassSpec | gulagcleaner_rs/src/models/method.rs:202-205 | Running `remove_logo` on every page in turn zeroes exactly the logos named by pages whose XObjects all resolve. This holds although pages share XObjects. |
| Methods.WuolahPair | gulagcleaner_rs/src/models/method.rs:28-37 | Pair selection comes out None, meaning it panics, iff entry 0 needs the previous list: it equals the last list, or pairing with the next list gives the sentinel. A pair is ordered, and a non-sentinel pair lies inside the list. |
| Methods.WuolahSlice | gulagcleaner_rs/src/models/method.rs:39 | The model of the slice `x[p0 - 2 ..= p1 + 3]`, with its panic when p0 < 2 or p1 + 3 is past the end. Its contract is in Methods.WuolahSliceSpec. |
| Methods.WuolahSliceSpec | gulagcleaner_rs/src/models/method.rs:28-39 | A slice that succeeds is a contiguous run of the list of length p1 - p0 + 6, at least 7. Its third and fourth-from-last elements are the two references the list shares with an adjacent list. Its middle is the list between them. |
| Methods.WuolahContents | gulagcleaner_rs/src/models/method.rs:24-41 | The model of the sandwich `new_contents`, which panics when any entry does. Its contract is in Methods.WuolahSliceSpec and Methods.WuolahRewriteMulti. |
| Methods.ZeroBased | gulagcleaner_rs/src/models/method.rs:59-89 | The re-based box has its lower-left corner at the origin and the width and height of /MediaBox. |
| Methods.WuolahOutcome | gulagcleaner_rs/src/models/method.rs:23-93 | The model of the sandwich arm: `new_contents`, then the page loop, or the panic either runs into. Its contract is in Methods.WuolahRewriteMulti, Methods.WuolahPagesAt and Methods.CleanWuolah. |
| Methods.WuolahPagesAt | gulagcleaner_rs/src/models/method.rs:43-90 | After the sandwich rewrite, the j-th multi-content page has the j-th new content list, no annotations and re-based boxes. Every other page is unchanged. |
| Methods.WuolahRewriteMulti | gulagcleaner_rs/src/models/method.rs:24-90 | On a document given its own content lists, each multi-content page keeps a contiguous run of its own contents. The run goes from two before to three after the two references shared with an adjacent list. The page also loses its annotations and has all five boxes set to /MediaBox moved to the origin. |
| Methods.WuolahRewritePages | gulagcleaner_rs/src/models/method.rs:43-90 | The page loop leaves exactly the pages of the sandwich rewrite. |
| Methods.CleanWuolah | gulagcleaner_rs/src/models/method.rs:23-93 | Returns the classifier's list unchanged with tag 0 and the rewritten pages, or panics with the document unchanged. The XObjects are never touched. |
| Methods.StuDocuContents | gulagcleaner_rs/src/models/method.rs:95-96 | The model of the prepended `new_contents` (the second reference of every list after the first). Its contract is in Methods.StuDocuRewriteSpec. |
| Methods.StuDocuOutcome | gulagcleaner_rs/src/models/method.rs:94-111 | The model of the prepended arm: every page but page 1 takes the next one-element content list and loses its annotations, or the index panics. Its contract is in Methods.StuDocuRewriteSpec and Methods.CleanStuDocu. |
| Methods.StuDocuRewriteSpec | gulagcleaner_rs/src/models/method.rs:94-111 | On a document given its own content lists, the rewrite panics iff some page has at most one content reference. Otherwise page 1 is unchanged, and every other page keeps only its second content reference and loses its annotations. |
| Methods.CleanStuDocu | gulagcleaner_rs/src/models/method.rs:94-111 | Returns ([1], 1) and the pages of the prepended rewrite, or panics with the document unchanged. |
| Methods.WrapSpec | gulagcleaner_rs/src/models/method.rs:171-180 | The banner stream is the 25-byte prefix "q\n1.124 0 0 1.124 0 0 cm\n", then the old stream, then "Q". It is 26 bytes longer, and unwrapping gives the old stream back. |
| Methods.NaiveBoxesInside | gulagcleaner_rs/src/models/method.rs:145-198 | For a well-formed /MediaBox, the banner box is well formed and lies inside the media box scaled by 1.124. The watermark box is well formed and lies inside the media box. |
| Methods.NaiveOutcome | gulagcleaner_rs/src/models/method.rs:113-212 | The model of the generic arm: both page loops and the logo pass, or the panic of a page without /MediaBox or resources. Its contract is in Methods.NaiveRewriteSpec, Methods.NaivePageSpec and Methods.CleanNaive. |
| Methods.NaiveRewriteSpec | gulagcleaner_rs/src/models/method.rs:113-212 | The generic rewriter has tag 2 and keeps the page count. Its list is strictly ascending and names exactly the pages typed FullPageAds or Idk. The XObjects are the logo removal of every page. |
| Methods.NaivePageSpec | gulagcleaner_rs/src/models/method.rs:118-209 | Every page has no annotations, and its contents and resources are unchanged. A banner page gets the banner boxes and a wrapped stream. A watermark page gets the watermark boxes and keeps its stream. A page listed for deletion is otherwise unchanged. |
| Methods.RewritePage | gulagcleaner_rs/src/models/method.rs:142-199 | One page of the first loop: the page becomes its per-type rewrite. The result reports deletion iff the type is FullPageAds or Idk. |
| Methods.NaiveBoxPass | gulagcleaner_rs/src/models/method.rs:118-200 | The first loop leaves every page re-boxed by its type and the XObjects unchanged. Its list is those pages whose type is FullPageAds or Idk, in page order. |
| Methods.NaiveLogoPass | gulagcleaner_rs/src/models/method.rs:202-209 | The second loop leaves the logo pass's XObjects and every page without annotations. |
| Methods.CleanNaive | gulagcleaner_rs/src/models/method.rs:113-212 | The generic arm leaves exactly the generic rewrite and returns its list with tag 2. It panics, with the document unchanged, iff some page lacks /MediaBox or a resource dictionary. |
| Methods.CleanWithMethod | gulagcleaner_rs/src/models/method.rs:20-215 | `Cleaner::clean` leaves, for each scheme, the pages, XObjects, list and tag of that scheme's specification, or panics with the document unchanged. |
| Driver.MatchMethod | gulagcleaner_rs/src/clean.rs:162-212 | The model of `match_method`. Its contract is in Driver.MatchMethodSpec and Driver.ClassifierLists. |
| Driver.CountThreePages | gulagcleaner_rs/src/clean.rs:189-196 | The number of three-reference content lists equals the number of pages with exactly three content references. |
| Driver.SandwichIff | gulagcleaner_rs/src/clean.rs:200-209 | The first two content lists share more than one reference iff the first two multi-content pages do. |
| Driver.MatchMethodSpec | gulagcleaner_rs/src/clean.rs:162-212 | With force_naive the choice is Naive. Otherwise: StuDocu iff more than one page has three content references; else Wuolah iff the first two multi-content pages share more than one reference; Naive in every other case. Each scheme receives the content lists, and the sandwich scheme also receives the single-reference pages. |
| Driver.ClassifierLists | gulagcleaner_rs/src/clean.rs:169-187 | `to_delete` is strictly ascending and lists exactly the pages with one content reference. A page with no content reference is neither listed nor a source of the content list. |
| Driver.DeleteWithOffset | gulagcleaner_rs/src/clean.rs:35-37 | The model of the deletion loop: entry `offset` of the list is deleted as page entry - offset, in list order. Its contract is in Driver.DeleteWithOffsetSpec, Driver.DeleteWithOffsetShrinks and Driver.DeletePages. |
| Driver.DeleteWithOffsetSpec | gulagcleaner_rs/src/clean.rs:35-37 | For a strictly ascending list of page numbers, deleting `page - offset` at each step removes exactly the originally numbered pages and keeps the others in order. |
| Driver.DeletePages | gulagcleaner_rs/src/clean.rs:35-37 | The deletion loop leaves the pages of that specification, and the XObjects are unchanged. |
| Driver.OffsetsPositive | gulagcleaner_rs/src/clean.rs:35-37 | For a strictly ascending list of page numbers, `page - offset` is never below 1, so the u32 subtraction cannot wrap. |
| Driver.DeleteWithOffsetShrinks | gulagcleaner_rs/src/clean.rs:35-37 | The deletion loop never adds pages, whatever list it gets. |
| Driver.CleanPdfDeletes | gulagcleaner_rs/src/clean.rs:32-37 | Every scheme keeps the page count and returns strictly ascending numbers of existing pages. So the corrected `clean_pdf` saves exactly the rewritten pages whose numbers are not listed, and the page count drops by the length of the list. |
| Driver.CleanPdf | gulagcleaner_rs/src/clean.rs:23-46 | The corrected `clean_pdf` leaves the rewrite followed by the deletions and returns the scheme tag, or panics. |
| Driver.CleanPdfAsWritten | gulagcleaner_rs/src/clean.rs:23-46 | `clean_pdf` as written rewrites a clone and deletes on the original. The saved document is the original pages minus the listed ones, with the original XObjects. |
| Driver.AsWrittenKeepsOriginals | gulagcleaner_rs/src/clean.rs:32-37 | As written, every saved page is an unchanged input page and the XObjects are the input's. |
| Driver.CloneDropsRewrite | gulagcleaner_rs/src/clean.rs:165 | The counterexample: a one-page banner document under force_naive. As written it saves the page unchanged; the corrected clean saves it re-boxed with its stream wrapped, which differs. |
| Driver.ThreeRefPagesArePrepended | gulagcleaner_rs/src/clean.rs:189-197 | Two pages with three content references each select StuDocu, whatever references they share. |
| Driver.SandwichAtStartChosen | gulagcleaner_rs/src/clean.rs:189-209 | Two multi-content pages that share exactly two references, and are not both three long, select Wuolah. |
| Driver.SandwichAtStartSlice | gulagcleaner_rs/src/models/method.rs:28-39 | When the first list starts with a shared reference, the sandwich `new_contents` panics. |
| Driver.SandwichAtStartPanics | gulagcleaner_rs/src/models/method.rs:24-41 | Such a two-page document is classified as Wuolah, and its clean panics. |

## Left out

- lopdf (clean.rs:25, clean.rs:39-40): loading, parsing, saving and the object graph are abstracted to `Pdf.Document`. `delete_pages` is modelled as removing one page from the page sequence.
- Floating point: the box arithmetic is exact arithmetic over `real` instead of `f32`. The `as_f32`/`as_i64` fallback and a /MediaBox with fewer than four numbers are not modelled; a box is always four numbers.
- `PageType::get_page_type` and `LOGO_DIMS` (models/page_type.rs) are not part of this model. They are parameters: a function from page to page type, with `unwrap_or_default` folded into it, and a set of (Height, Width) pairs.
- `get_xobjs` and `get_objdict`: an inherited resource dictionary and the page's own are one `Resources` value. An /XObject entry that is not a reference (an `unwrap` panic) is not modelled. Nor is an XObject lacking /Subtype, /Height or /Width (an `unwrap` panic in `get_images`, an ignored error in `remove_logo`).
- Page content bytes: `raw` is a field of its own. It stands only for what `get_page_content` reads and `change_page_content` writes in the generic arm, and it is not derived from /Contents. So the sandwich and prepended rewrites keep `raw` as it was, although their new /Contents change what the page decodes to. `change_page_content` is taken to leave /Contents as it is; that is lopdf behaviour, which is not part of this model.
- `get_page_content` and `change_page_content` failures (their `unwrap`s) are not modelled: every page's stream decodes. Streams shared between pages are not modelled either: each page owns its stream and page dictionary.
- Machine integers: u32 page numbers and usize indices are unbounded. `Driver.OffsetsPositive` shows that the offset subtraction stays positive for every list a scheme returns. A list that made it wrap is never produced.
- Methods.CleanWuolah: it checks for the source's panics before changing anything and leaves the document unchanged on a panic. The source may already have rewritten earlier pages. A panic aborts `clean_pdf` before anything is saved, so the difference is invisible.
- Methods.CleanNaive: leaves the document unchanged on a panic, for the same reason.
- Methods.CleanStuDocu: leaves the document unchanged on a panic, whereas the source's page loop has already rewritten the pages before the one where `new_contents[i]` runs out. The reason is the same: a panic aborts `clean_pdf` before anything is saved. The StuDocu arm of Methods.CleanWithMethod inherits this, as do its Wuolah and Naive arms from the two lines above.
- `println!`, `main.rs`, the doc example in `lib.rs`, the Python `PDFU` package and `tests.rs` (file I/O, printing and integration tests on real files) are not part of this model.

## Findings

| source | as written | input that shows it | evidently intended | confidence | as-written member | corrected member |
|---|---|---|---|---|---|---|
| gulagcleaner_rs/src/clean.rs:32 | `match_method` wraps `doc.clone()` in the `Method` (clean.rs:165, 197, 209, 211). `clean()` rewrites that clone, which is then dropped, so only the page deletions reach the saved document. | A one-page document with force_naive = true whose page is typed BannerAds: the saved page keeps its annotations, boxes and stream. | The chosen rewriter changes the document that is then pruned and saved. | not executed | Driver.CloneDropsRewrite | Driver.CleanPdfDeletes |
