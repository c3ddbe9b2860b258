/** The PDF export: the document the view builds from the page list, reduced
    to what it hands the PDF library — one sheet per page, in page order,
    each carrying the placed image and, for a captioned page, the caption. */
module Export {
  import opened Model
  import opened Layout

  /** One drawing call on a sheet. */
  datatype Item =
    | Picture(image: Image, box: Box)
    | Caption(text: string, x: real, y: real, maxWidth: real)

  /** One page of the generated document. */
  datatype Sheet = Sheet(items: seq<Item>)

  datatype ExportError = NoPages

  /** JavaScript truthiness of a caption: only the empty string is falsy. */
  predicate Captioned(page: Page) {
    page.text != ""
  }

  /** Every page of the list, with the pixel size its image loaded with, has
      room on a sheet of the given size. */
  predicate Renderable(pages: seq<Page>, sizes: seq<Size>, pageWidth: real, pageHeight: real) {
    && |sizes| == |pages|
    && forall i :: 0 <= i < |pages| ==>
         Positive(sizes[i]) && RoomFor(pageWidth, pageHeight, Captioned(pages[i]))
  }

  /** The sheet for one page: the image fitted and centred by `PlaceImage`
      and, when the page has a caption, the caption text wrapped to the
      available width at the left margin, starting at the caption line below
      the image. */
  function RenderPage(page: Page, img: Size, pageWidth: real, pageHeight: real): (sh: Sheet)
    requires Positive(img) && RoomFor(pageWidth, pageHeight, Captioned(page))
    ensures |sh.items| == (if Captioned(page) then 2 else 1)
    ensures sh.items[0].Picture? && sh.items[0].image == page.image
    ensures sh.items[0].box == PlaceImage(pageWidth, pageHeight, Captioned(page), img)
    ensures
      var b := sh.items[0].box;
      Margin <= b.x && b.x + b.width <= pageWidth - Margin && Margin <= b.y
    ensures Captioned(page) ==>
      var b := sh.items[0].box;
      var c := sh.items[1];
      && c.Caption? && c.text == page.text && c.y == CaptionBaseline(pageHeight)
      && c.x == Margin && c.x + c.maxWidth == pageWidth - Margin
      && b.y + b.height + Margin <= c.y
  {
    var b := PlaceImage(pageWidth, pageHeight, Captioned(page), img);
    if Captioned(page) then
      Sheet([Picture(page.image, b), Caption(page.text, Margin, CaptionBaseline(pageHeight), AvailableWidth(pageWidth))])
    else
      Sheet([Picture(page.image, b)])
  }

  /** The document as a whole: the sheets of the pages, in page order. */
  function Render(pages: seq<Page>, sizes: seq<Size>, pageWidth: real, pageHeight: real): (doc: seq<Sheet>)
    requires Renderable(pages, sizes, pageWidth, pageHeight)
    ensures |doc| == |pages|
    ensures forall i :: 0 <= i < |pages| ==> doc[i] == RenderPage(pages[i], sizes[i], pageWidth, pageHeight)
  {
    seq(|pages|, i requires 0 <= i < |pages| => RenderPage(pages[i], sizes[i], pageWidth, pageHeight))
  }

  /** Generating the PDF: an empty page list is refused before any document
      exists. Otherwise the document starts with one blank sheet, a sheet is
      added before every page after the first, and each page is drawn on the
      newest sheet — so the document has exactly one sheet per page, in page
      order. */
  method GeneratePdf(pages: seq<Page>, sizes: seq<Size>, pageWidth: real, pageHeight: real)
    returns (r: Result<seq<Sheet>, ExportError>, addPageCalls: nat)
    requires Renderable(pages, sizes, pageWidth, pageHeight)
    ensures |pages| == 0 <==> r == Err(NoPages)
    ensures |pages| == 0 ==> addPageCalls == 0
    ensures r.Ok? ==> |r.value| == |pages| && addPageCalls == |pages| - 1
    ensures r.Ok? ==> r.value == Render(pages, sizes, pageWidth, pageHeight)
  {
    addPageCalls := 0;
    if |pages| == 0 {
      return Err(NoPages), addPageCalls;
    }
    var doc := [Sheet([])];
    var i := 0;
    while i < |pages|
      invariant 0 <= i <= |pages|
      invariant |doc| == (if i == 0 then 1 else i)
      invariant |doc| == addPageCalls + 1
      invariant i == 0 ==> doc[0] == Sheet([])
      invariant forall k :: 0 <= k < i ==> doc[k] == RenderPage(pages[k], sizes[k], pageWidth, pageHeight)
    {
      if i > 0 {
        doc := doc + [Sheet([])];
        addPageCalls := addPageCalls + 1;
      }
      var page := pages[i];
      var b := PlaceImage(pageWidth, pageHeight, Captioned(page), sizes[i]);
      var items := doc[i].items + [Picture(page.image, b)];
      if Captioned(page) {
        items := items + [Caption(page.text, Margin, CaptionBaseline(pageHeight), AvailableWidth(pageWidth))];
      }
      doc := doc[i := Sheet(items)];
      i := i + 1;
    }
    return Ok(doc), addPageCalls;
  }
}
