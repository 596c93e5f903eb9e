/**
 * Turning a PDF document's text content into one string per page. The PDF
 * engine is abstracted: a document is its page count and, for each page
 * number, the text items its engine reports for that page.
 */
module PdfText {
  import opened Options

  /** One text item of a page's text content; `str` may be missing or null. */
  datatype TextItem = TextItem(str: Option<string>)

  /** The text an item contributes: its `str`, or `''` for a null item or a
      missing `str`. */
  function ItemText(item: Option<TextItem>): string {
    if item.Some? && item.value.str.Some? then item.value.str.value else ""
  }

  /** The items' texts joined in order with no separator. */
  function Concat(items: seq<Option<TextItem>>): string {
    if items == [] then "" else ItemText(items[0]) + Concat(items[1..])
  }

  /** `textContentToString`: an absent item list reads as empty. */
  function TextContentToString(items: Option<seq<Option<TextItem>>>): string {
    Concat(items.GetOr([]))
  }

  /** Joining distributes over concatenation of item lists. */
  lemma {:induction false} ConcatAppend(a: seq<Option<TextItem>>, b: seq<Option<TextItem>>)
    ensures Concat(a + b) == Concat(a) + Concat(b)
  {
    if a == [] {
      assert a + b == b;
    } else {
      assert (a + b)[1..] == a[1..] + b;
      ConcatAppend(a[1..], b);
    }
  }

  /** Item `k`'s text sits in the page text right after the texts of the items
      before it, so the text of every item is recoverable by its offset. */
  lemma ItemAtItsOffset(items: seq<Option<TextItem>>, k: nat)
    requires k < |items|
    ensures var off := |Concat(items[..k])|;
      off + |ItemText(items[k])| <= |Concat(items)|
      && Concat(items)[off..off + |ItemText(items[k])|] == ItemText(items[k])
  {
    assert items == items[..k] + ([items[k]] + items[k + 1..]);
    ConcatAppend(items[..k], [items[k]] + items[k + 1..]);
    ConcatAppend([items[k]], items[k + 1..]);
    assert Concat([items[k]]) == ItemText(items[k]);
  }

  /** Items that contribute no text leave the page text empty. */
  lemma {:induction false} SilentItemsGiveEmptyText(items: seq<Option<TextItem>>)
    requires forall k :: 0 <= k < |items| ==> ItemText(items[k]) == ""
    ensures Concat(items) == ""
  {
    if items != [] {
      SilentItemsGiveEmptyText(items[1..]);
    }
  }

  /** A loaded document as the engine presents it: `pageItems(n)` stands for the
      `items` of `(await (await getPage(n)).getTextContent())`. */
  datatype PdfDocument = PdfDocument(numPages: nat, pageItems: int -> Option<seq<Option<TextItem>>>)

  /** One page's extracted text. */
  datatype PageText = PageText(pageNumber: int, text: string)

  /** Entry `i` is page `i + 1`. */
  predicate Numbered(pages: seq<PageText>) {
    forall i :: 0 <= i < |pages| ==> pages[i].pageNumber == i + 1
  }

  /** The pages `extractPdfText` resolves to: none without a document, and
      otherwise page `i + 1`'s joined text at entry `i`. */
  function ExtractedPages(doc: Option<PdfDocument>): (pages: seq<PageText>)
    ensures doc.None? ==> pages == []
    ensures doc.Some? ==> |pages| == doc.value.numPages && Numbered(pages)
    ensures doc.Some? ==> forall i :: 0 <= i < |pages| ==>
      pages[i].text == TextContentToString(doc.value.pageItems(i + 1))
  {
    if doc.None? then []
    else seq(doc.value.numPages, i => PageText(i + 1, TextContentToString(doc.value.pageItems(i + 1))))
  }

  /** `extractPdfText`: one entry per page, in page order. */
  method ExtractPdfText(doc: Option<PdfDocument>) returns (pages: seq<PageText>)
    ensures pages == ExtractedPages(doc)
  {
    if doc.None? {
      return [];
    }
    var pdfDoc := doc.value;
    pages := [];
    var pageNumber := 1;
    while pageNumber <= pdfDoc.numPages
      invariant 1 <= pageNumber <= pdfDoc.numPages + 1
      invariant pages == ExtractedPages(doc)[..pageNumber - 1]
    {
      var items := pdfDoc.pageItems(pageNumber);
      var text := TextContentToString(items);
      pages := pages + [PageText(pageNumber, text)];
      pageNumber := pageNumber + 1;
    }
  }
}
