/** A session from start to export: import two images, caption the second
    page, duplicate the first, and export the result. */
module Scenario {
  import opened Model
  import opened Editor
  import opened Layout
  import opened Export

  const First: Image := "data:image/jpeg;base64,AA"
  const Second: Image := "data:image/jpeg;base64,BB"

  const Imported: State := State([Page("1", First, ""), Page("2", Second, "")], Some("1"), false, "")
  const Captioned2: State := State([Page("1", First, ""), Page("2", Second, "Hello")], Some("2"), false, "Hello")
  const Duplicated: seq<Page> := [Page("1", First, ""), Page("3", First, ""), Page("2", Second, "Hello")]

  /** Importing two images into the empty view gives two uncaptioned pages
      and selects the first. */
  lemma ImportTwo()
    ensures Import(Initial, [First, Second], ["1", "2"]) == Imported
  {
    var r := Import(Initial, [First, Second], ["1", "2"]);
    assert r.pages == [Page("1", First, ""), Page("2", Second, "")];
  }

  /** Selecting the second page, typing "Hello" and saving captions that page
      only. */
  lemma CaptionSecond()
    ensures SaveText(EditDraft(OpenTextEditor(SelectPage(Imported, 1)), "Hello")) == Captioned2
  {
    var s := SelectPage(Imported, 1);
    assert FindIndex(s.pages, "2") == 1;
    var o := OpenTextEditor(s);
    assert o == s.(editing := true, draft := "");
    var r := SaveText(EditDraft(o, "Hello"));
    assert r.pages == Captioned2.pages;
  }

  /** Duplicating the first page puts its copy second. */
  lemma DuplicateFirst()
    ensures Duplicate(Captioned2, "1", "3").pages == Duplicated
  {
    assert FindIndex(Captioned2.pages, "1") == 0;
  }

  /** Exporting the three pages on a nominal 210 x 297 mm A4 sheet gives
      three sheets, and only the captioned page's sheet carries a caption. */
  lemma ExportThree(img: Size)
    requires Positive(img)
    ensures Renderable(Duplicated, [img, img, img], 210.0, 297.0)
    ensures
      var doc := Render(Duplicated, [img, img, img], 210.0, 297.0);
      && |doc| == 3
      && |doc[0].items| == 1 && |doc[1].items| == 1 && |doc[2].items| == 2
      && doc[2].items[1] == Caption("Hello", Margin, 153.5, 190.0)
  {
  }
}
