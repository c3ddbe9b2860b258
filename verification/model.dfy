/** The data model of the PDFusion view: page records, the view state that
    holds them, and the lookups every handler shares. */
module Model {

  /** A page id. The view generates ids as `<timestamp>-<random>`, so a real
      id is never the empty string. */
  type Id = string

  /** The encoded image payload (a data URL). The model treats it as opaque. */
  type Image = string

  datatype Option<+T> = None | Some(value: T)

  datatype Result<+T, +E> = Ok(value: T) | Err(error: E)

  /** One page of the document: an image and an optional caption. */
  datatype Page = Page(id: Id, image: Image, text: string)

  /** The view state: the ordered page list, the selected page id, whether the
      caption dialog is open, and the caption draft the dialog edits. */
  datatype State = State(pages: seq<Page>, selected: Option<Id>, editing: bool, draft: string)

  /** The state the view starts in: no pages, nothing selected, dialog closed. */
  const Initial: State := State([], None, false, "")

  /** JavaScript truthiness of a `string | null` selection: both `null` and
      the empty string are falsy. */
  predicate IsSet(sel: Option<Id>) {
    sel.Some? && sel.value != ""
  }

  /** The ids of the pages, in page order. */
  function Ids(pages: seq<Page>): (ids: seq<Id>)
    ensures |ids| == |pages|
    ensures forall k :: 0 <= k < |pages| ==> ids[k] == pages[k].id
  {
    seq(|pages|, k requires 0 <= k < |pages| => pages[k].id)
  }

  /** No two pages share an id. */
  predicate DistinctIds(pages: seq<Page>) {
    forall i, j :: 0 <= i < j < |pages| ==> pages[i].id != pages[j].id
  }

  /** The first index at or after `from` whose page has id `id`, or -1. */
  function FindFrom(pages: seq<Page>, id: Id, from: nat): (r: int)
    requires from <= |pages|
    ensures r == -1 || from <= r < |pages|
    ensures r >= 0 ==> pages[r].id == id && forall k :: from <= k < r ==> pages[k].id != id
    ensures r == -1 ==> forall k :: from <= k < |pages| ==> pages[k].id != id
    decreases |pages| - from
  {
    if from == |pages| then -1
    else if pages[from].id == id then from
    else FindFrom(pages, id, from + 1)
  }

  /** `Array.prototype.findIndex` by id: the index of the first page whose id
      is `id`, or -1 when there is none. */
  function FindIndex(pages: seq<Page>, id: Id): (r: int)
    ensures -1 <= r < |pages|
    ensures r == -1 <==> id !in Ids(pages)
    ensures r >= 0 ==> pages[r].id == id
    ensures r >= 0 ==> forall k :: 0 <= k < r ==> pages[k].id != id
  {
    var r := FindFrom(pages, id, 0);
    assert r >= 0 ==> Ids(pages)[r] == id;
    r
  }

  /** With distinct ids, the page at index k is the one FindIndex finds for
      its id. */
  lemma FindIndexOfDistinct(pages: seq<Page>, k: nat)
    requires DistinctIds(pages)
    requires k < |pages|
    ensures FindIndex(pages, pages[k].id) == k
  {
  }

  /** The page `Array.prototype.find` returns for the selected id, if any:
      the first page carrying it. This is the view's memoised
      `selectedPage`. */
  function SelectedPage(s: State): (r: Option<Page>)
    ensures r.Some? <==> s.selected.Some? && s.selected.value in Ids(s.pages)
    ensures r.Some? ==> r.value in s.pages && r.value.id == s.selected.value
    ensures r.Some? ==> forall k :: 0 <= k < |s.pages| && s.pages[k].id == s.selected.value ==>
      r.value == s.pages[FindIndex(s.pages, s.selected.value)] && FindIndex(s.pages, s.selected.value) <= k
  {
    if s.selected.None? then None
    else
      var i := FindIndex(s.pages, s.selected.value);
      if i == -1 then None else Some(s.pages[i])
  }

  /** Page ids are distinct and non-empty. */
  predicate ValidPages(pages: seq<Page>) {
    && DistinctIds(pages)
    && forall k :: 0 <= k < |pages| ==> pages[k].id != ""
  }

  /** The invariant the handlers keep: ids are distinct and non-empty, a page
      is selected exactly when there are pages, and the selection names one
      of them. */
  predicate Valid(s: State) {
    && ValidPages(s.pages)
    && (s.selected.Some? <==> |s.pages| > 0)
    && (s.selected.Some? ==> s.selected.value in Ids(s.pages))
  }
}
