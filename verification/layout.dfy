/** The page layout of the PDF export: where one image (and its caption) goes
    on one page. Coordinates are millimetres from the top-left corner of the
    page. The arithmetic is over exact reals, an idealisation of the
    double-precision numbers the view computes with. */
module Layout {

  /** The blank border kept on every side of the page content. */
  const Margin: real := 10.0

  /** The pixel size of a decoded image. */
  datatype Size = Size(width: nat, height: nat)

  /** A width and a height on the page. */
  datatype Extent = Extent(width: real, height: real)

  /** A rectangle on the page: top-left corner and extent. */
  datatype Box = Box(x: real, y: real, width: real, height: real)

  predicate Positive(img: Size) {
    img.width > 0 && img.height > 0
  }

  /** The width/height ratio of an image. */
  function Ratio(img: Size): real
    requires img.height > 0
  {
    img.width as real / img.height as real
  }

  /** The width the image may use: the page width less both side margins. */
  function AvailableWidth(pageWidth: real): real {
    pageWidth - Margin * 2.0
  }

  /** The height the image may use: the whole page less top and bottom
      margins, or, when the page carries a caption, the upper half less one
      and a half margins. */
  function AvailableHeight(pageHeight: real, captioned: bool): real {
    if captioned then pageHeight / 2.0 - Margin * 1.5 else pageHeight - Margin * 2.0
  }

  /** The baseline of the first caption line. */
  function CaptionBaseline(pageHeight: real): real {
    pageHeight / 2.0 + Margin / 2.0
  }

  /** The page leaves a non-empty area for the image. */
  predicate RoomFor(pageWidth: real, pageHeight: real, captioned: bool) {
    AvailableWidth(pageWidth) > 0.0 && AvailableHeight(pageHeight, captioned) > 0.0
  }

  /** Scaling by a/b and then by b/a is the identity on a product. */
  lemma DivMulCancel(a: real, b: real, c: real)
    requires b > 0.0 && c > 0.0
    ensures a / (b / c) * b == a * c
  {
    calc {
      a / (b / c) * b;
      { assert a / (b / c) == a * c / b; }
      a * c / b * b;
    }
  }

  /** If a/b < c with b > 0 and c > 0 then a/c < b. */
  lemma SwapQuotient(a: real, b: real, c: real)
    requires b > 0.0 && c > 0.0
    requires a / b < c
    ensures a / c < b
  {
    assert a < c * b;
  }

  /** If c <= a/b with b > 0 and c > 0 then b * c <= a. */
  lemma UnderQuotient(a: real, b: real, c: real)
    requires b > 0.0 && c >= 0.0
    requires c <= a / b
    ensures b * c <= a
  {
    assert c * b <= a / b * b;
  }

  /** The largest image extent of the image's aspect ratio that fits the
      available box: when the image is relatively wider than the box it
      spans the full width, otherwise the full height. */
  function Fit(availWidth: real, availHeight: real, img: Size): (e: Extent)
    requires availWidth > 0.0 && availHeight > 0.0
    requires Positive(img)
    ensures 0.0 < e.width <= availWidth && 0.0 < e.height <= availHeight
    ensures e.width * (img.height as real) == e.height * (img.width as real)
    ensures e.width == availWidth || e.height == availHeight
    ensures Ratio(img) > availWidth / availHeight ==> e.width == availWidth
    ensures Ratio(img) <= availWidth / availHeight ==> e.height == availHeight
  {
    var imgRatio := Ratio(img);
    var pageRatio := availWidth / availHeight;
    var w, h := img.width as real, img.height as real;
    if imgRatio > pageRatio then
      SwapQuotient(availWidth, availHeight, imgRatio);
      DivMulCancel(availWidth, w, h);
      Extent(availWidth, availWidth / imgRatio)
    else
      UnderQuotient(availWidth, availHeight, imgRatio);
      assert availHeight * imgRatio * h == availHeight * w;
      Extent(availHeight * imgRatio, availHeight)
  }

  /** No extent of the image's aspect ratio that fits the available box is
      larger than the one Fit chooses. */
  lemma FitIsLargest(availWidth: real, availHeight: real, img: Size, e: Extent)
    requires availWidth > 0.0 && availHeight > 0.0
    requires Positive(img)
    requires 0.0 <= e.width <= availWidth && 0.0 <= e.height <= availHeight
    requires e.width * (img.height as real) == e.height * (img.width as real)
    ensures e.width <= Fit(availWidth, availHeight, img).width
    ensures e.height <= Fit(availWidth, availHeight, img).height
  {
    var f := Fit(availWidth, availHeight, img);
    var w, h := img.width as real, img.height as real;
    if f.width == availWidth {
      // e.height * w == e.width * h <= f.width * h == f.height * w
      assert e.height * w <= f.height * w;
    } else {
      assert f.height == availHeight;
      assert e.width * h <= f.width * h;
    }
  }

  /** Where the image of a page goes: fitted into the available box, at the
      top margin, centred horizontally. It stays inside the margins, keeps
      the image's aspect ratio, and on a captioned page ends at least one
      margin above the caption's first baseline. */
  function PlaceImage(pageWidth: real, pageHeight: real, captioned: bool, img: Size): (b: Box)
    requires RoomFor(pageWidth, pageHeight, captioned)
    requires Positive(img)
    ensures b.y == Margin
    ensures Margin <= b.x && b.x + b.width <= pageWidth - Margin
    ensures b.x == pageWidth - (b.x + b.width)
    ensures 0.0 < b.width && 0.0 < b.height
    ensures b.y + b.height <= pageHeight - Margin
    ensures captioned ==> b.y + b.height + Margin <= CaptionBaseline(pageHeight)
    ensures b.width * (img.height as real) == b.height * (img.width as real)
    ensures b.width == AvailableWidth(pageWidth) || b.height == AvailableHeight(pageHeight, captioned)
  {
    var e := Fit(AvailableWidth(pageWidth), AvailableHeight(pageHeight, captioned), img);
    Box((pageWidth - e.width) / 2.0, Margin, e.width, e.height)
  }

  /** The nominal ISO 216 A4 sheet in millimetres leaves room for an image
      with and without a caption. */
  lemma A4HasRoom()
    ensures RoomFor(210.0, 297.0, false) && RoomFor(210.0, 297.0, true)
  {
  }
}
