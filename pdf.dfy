/**
 * The document store the cleaner reads and rewrites: an owned abstraction of
 * the lopdf `Document`.  Pages are kept in page-tree order, so page number n
 * (numbers start at 1) is `pages[n - 1]`, and deleting a page renumbers every
 * later page, as `Document::get_pages` does after `delete_pages`.  Image and
 * form XObjects live in one store indexed by their reference; a page only
 * names them, so two pages may share one XObject.
 */
module Pdf {

  type byte = x: int | 0 <= x < 256

  /** An indirect reference: (object number, generation number). */
  type Ref = (int, int)

  datatype Option<T> = None | Some(value: T)

  /**
   * The result of a step that panics in the source (an `unwrap` of a missing
   * entry, an out-of-range slice or index).  A panic aborts the whole clean,
   * so no document comes out of it.
   */
  datatype Outcome<T> = Ok(value: T) | Panic

  /** A PDF rectangle `[llx lly urx ury]`. */
  datatype Rect = Rect(llx: real, lly: real, urx: real, ury: real)

  /** A rectangle whose lower-left corner is below and to the left of its upper-right one. */
  predicate WellFormed(r: Rect) {
    r.llx <= r.urx && r.lly <= r.ury
  }

  /** The five page-boundary entries that the rewriters set. */
  datatype BoxName = MediaBox | ArtBox | TrimBox | CropBox | BleedBox

  /** The five boxes all set to one rectangle, as each `for _box in [...]` loop leaves them. */
  function AllBoxes(r: Rect): (m: map<BoxName, Rect>)
    ensures m.Keys == {MediaBox, ArtBox, TrimBox, CropBox, BleedBox}
    ensures forall b :: b in m ==> m[b] == r
  {
    map[MediaBox := r, ArtBox := r, TrimBox := r, CropBox := r, BleedBox := r]
  }

  /** A page's resource dictionary as the logo remover resolves it. */
  datatype Resources =
    | NoResources               // neither an inline nor an inherited /Resources entry
    | NoXObjects                // a resource dictionary without an /XObject dictionary
    | XObjects(refs: seq<Ref>)  // the references of the /XObject dictionary, in dictionary order

  /**
   * One page: its /Contents references (order matters), its /Annots, the
   * boxes it carries, the content bytes that `get_page_content` reads and
   * `change_page_content` writes (kept beside /Contents, not derived from
   * it), and its resources.
   */
  datatype Page = Page(
    contents: seq<Ref>,
    annots: seq<Ref>,
    boxes: map<BoxName, Rect>,
    raw: seq<byte>,
    resources: Resources)

  /** The entries of an XObject's stream dictionary that the logo remover reads. */
  datatype XObject = XObject(subtype: string, height: int, width: int)

  /** `delete_pages(&[n])`: page n goes and later pages move up; a number that names no page changes nothing. */
  function DeleteAt(pages: seq<Page>, n: int): (r: seq<Page>)
    ensures 1 <= n <= |pages| ==> |r| == |pages| - 1
    ensures 1 <= n <= |pages| ==> forall k :: 0 <= k < |r| ==> r[k] == if k < n - 1 then pages[k] else pages[k + 1]
    ensures !(1 <= n <= |pages|) ==> r == pages
  {
    if 1 <= n <= |pages| then pages[..n - 1] + pages[n..] else pages
  }

  /** The document: every page and every XObject, owned by one object. */
  class Document {
    var pages: seq<Page>
    var objects: map<Ref, XObject>

    constructor (pages: seq<Page>, objects: map<Ref, XObject>)
      ensures this.pages == pages && this.objects == objects
    {
      this.pages := pages;
      this.objects := objects;
    }

    /** `doc.clone()`: a deep copy that shares no state with this document. */
    method Clone() returns (copy: Document)
      ensures fresh(copy)
      ensures copy.pages == pages && copy.objects == objects
    {
      copy := new Document(pages, objects);
    }

    /** `delete_pages(&[n])`. */
    method DeletePage(n: int)
      modifies this
      ensures pages == DeleteAt(old(pages), n)
      ensures objects == old(objects)
    {
      pages := DeleteAt(pages, n);
    }

    /** Writes the dictionary of the page at index k (the `mutable_page.set` calls). */
    method SetPage(k: int, p: Page)
      requires 0 <= k < |pages|
      modifies this
      ensures pages == old(pages)[k := p]
      ensures objects == old(objects)
    {
      pages := pages[k := p];
    }

    /** `change_page_content`: replaces the decoded content of the page at index k. */
    method ChangePageContent(k: int, content: seq<byte>)
      requires 0 <= k < |pages|
      modifies this
      ensures pages == old(pages)[k := old(pages)[k].(raw := content)]
      ensures objects == old(objects)
    {
      pages := pages[k := pages[k].(raw := content)];
    }

    /** Sets the /Height entry of the XObject r. */
    method SetHeight(r: Ref, h: int)
      requires r in objects
      modifies this
      ensures objects == old(objects)[r := old(objects)[r].(height := h)]
      ensures pages == old(pages)
    {
      objects := objects[r := objects[r].(height := h)];
    }
  }
}
