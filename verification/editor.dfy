/** The page collection editor: each event handler of the view as an atomic
    transition on `State`. Ids the view would draw from the clock and the
    random generator are parameters here. */
module Editor {
  import opened Model

  datatype Direction = Left | Right

  /** The pages an import appends: one per file, in file order, each with its
      fresh id and an empty caption. */
  function NewPages(images: seq<Image>, ids: seq<Id>): (r: seq<Page>)
    requires |ids| == |images|
    ensures |r| == |images|
    ensures forall k :: 0 <= k < |r| ==> r[k] == Page(ids[k], images[k], "")
  {
    seq(|images|, k requires 0 <= k < |images| => Page(ids[k], images[k], ""))
  }

  /** Importing files: the decoded images are appended after the existing
      pages, and when nothing was selected the first page of the combined list
      becomes selected. Selecting no file changes nothing. */
  function Import(s: State, images: seq<Image>, ids: seq<Id>): (r: State)
    requires |ids| == |images|
    ensures |images| == 0 ==> r == s
    ensures |images| > 0 ==> |r.pages| == |s.pages| + |images|
    ensures |images| > 0 ==> r.pages[..|s.pages|] == s.pages
    ensures |images| > 0 ==>
      forall k :: 0 <= k < |images| ==> r.pages[|s.pages| + k] == Page(ids[k], images[k], "")
    ensures |images| > 0 && IsSet(s.selected) ==> r.selected == s.selected
    ensures |images| > 0 && !IsSet(s.selected) ==>
      r.selected == Some(if |s.pages| > 0 then s.pages[0].id else ids[0])
    ensures r.editing == s.editing && r.draft == s.draft
  {
    if |images| == 0 then s
    else
      var all := s.pages + NewPages(images, ids);
      s.(pages := all, selected := if IsSet(s.selected) then s.selected else Some(all[0].id))
  }

  /** `Array.prototype.filter` keeping the pages whose id is not `id`: no page
      with that id survives and the list does not grow. */
  function Without(pages: seq<Page>, id: Id): (r: seq<Page>)
    ensures |r| <= |pages|
    ensures forall k :: 0 <= k < |r| ==> r[k].id != id
  {
    if |pages| == 0 then []
    else (if pages[0].id == id then [] else [pages[0]]) + Without(pages[1..], id)
  }

  /** Filtering an id no page has changes nothing. */
  lemma {:induction false} WithoutAbsent(pages: seq<Page>, id: Id)
    requires forall k :: 0 <= k < |pages| ==> pages[k].id != id
    ensures Without(pages, id) == pages
  {
    if |pages| > 0 {
      WithoutAbsent(pages[1..], id);
      assert pages == [pages[0]] + pages[1..];
    }
  }

  /** Filtering distributes over concatenation, so the kept pages keep their
      relative order. */
  lemma {:induction false} WithoutAppend(a: seq<Page>, b: seq<Page>, id: Id)
    ensures Without(a + b, id) == Without(a, id) + Without(b, id)
  {
    if |a| == 0 {
      assert a + b == b;
    } else {
      assert (a + b)[1..] == a[1..] + b;
      WithoutAppend(a[1..], b, id);
    }
  }

  /** Joining a list the filter keeps whole to one it reduces to `c`. */
  lemma WithoutJoin(a: seq<Page>, b: seq<Page>, c: seq<Page>, id: Id)
    requires Without(a, id) == a && Without(b, id) == c
    ensures Without(a + b, id) == a + c
  {
    WithoutAppend(a, b, id);
  }

  /** A list with the given id at index k and nowhere else loses exactly that
      page to the filter. */
  lemma {:induction false} WithoutOnly(pages: seq<Page>, k: nat)
    requires k < |pages|
    requires forall m :: 0 <= m < |pages| && m != k ==> pages[m].id != pages[k].id
    ensures Without(pages, pages[k].id) == pages[..k] + pages[k + 1..]
  {
    var id := pages[k].id;
    var tail := pages[1..];
    if k == 0 {
      assert forall m :: 0 <= m < |tail| ==> tail[m] == pages[m + 1];
      WithoutAbsent(tail, id);
    } else {
      assert tail[k - 1] == pages[k];
      WithoutOnly(tail, k - 1);
      assert [pages[0]] + (tail[..k - 1] + tail[k..]) == pages[..k] + pages[k + 1..];
    }
  }

  /** With distinct ids, filtering out the id of the page at index k removes
      exactly that page. */
  lemma WithoutAt(pages: seq<Page>, k: nat)
    requires DistinctIds(pages)
    requires k < |pages|
    ensures Without(pages, pages[k].id) == pages[..k] + pages[k + 1..]
  {
    WithoutOnly(pages, k);
  }

  /** Deleting a page: the list is filtered by id (`Without`, so the other
      pages keep their order), no page with that id remains and an unknown id
      changes nothing; if the deleted id was selected, the selection moves to the
      first remaining page, or to none when no page remains. */
  function Delete(s: State, id: Id): (r: State)
    ensures r.pages == Without(s.pages, id)
    ensures |r.pages| <= |s.pages|
    ensures forall k :: 0 <= k < |r.pages| ==> r.pages[k].id != id
    ensures id !in Ids(s.pages) ==> r.pages == s.pages
    ensures s.selected == Some(id) && |r.pages| > 0 ==> r.selected == Some(r.pages[0].id)
    ensures s.selected == Some(id) && |r.pages| == 0 ==> r.selected == None
    ensures s.selected != Some(id) ==> r.selected == s.selected
    ensures r.editing == s.editing && r.draft == s.draft
  {
    var kept := Without(s.pages, id);
    assert id !in Ids(s.pages) ==> kept == s.pages by {
      if id !in Ids(s.pages) {
        assert forall k :: 0 <= k < |s.pages| ==> Ids(s.pages)[k] == s.pages[k].id;
        WithoutAbsent(s.pages, id);
      }
    }
    if s.selected == Some(id) then
      s.(pages := kept, selected := if |kept| > 0 then Some(kept[0].id) else None)
    else
      s.(pages := kept)
  }

  /** On a valid state, deleting the page at index k leaves the pages before
      and after it in order; a deleted selection passes to the new first page. */
  lemma DeleteAt(s: State, k: nat)
    requires Valid(s)
    requires k < |s.pages|
    ensures Delete(s, s.pages[k].id).pages == s.pages[..k] + s.pages[k + 1..]
    ensures s.selected == Some(s.pages[k].id) && |s.pages| == 1 ==>
      Delete(s, s.pages[k].id).selected == None
    ensures s.selected == Some(s.pages[k].id) && |s.pages| > 1 ==>
      Delete(s, s.pages[k].id).selected == Some(if k == 0 then s.pages[1].id else s.pages[0].id)
  {
    WithoutAt(s.pages, k);
  }

  /** Duplicating a page: a copy with the new id is inserted right after the
      first page with that id; an unknown id changes nothing. */
  function Duplicate(s: State, id: Id, newId: Id): (r: State)
    ensures FindIndex(s.pages, id) == -1 ==> r == s
    ensures r.selected == s.selected && r.editing == s.editing && r.draft == s.draft
    ensures
      var i := FindIndex(s.pages, id);
      i >= 0 ==>
        && |r.pages| == |s.pages| + 1
        && r.pages[..i + 1] == s.pages[..i + 1]
        && r.pages[i + 1] == Page(newId, s.pages[i].image, s.pages[i].text)
        && r.pages[i + 2..] == s.pages[i + 1..]
  {
    var i := FindIndex(s.pages, id);
    if i == -1 then s
    else
      var copy := s.pages[i].(id := newId);
      s.(pages := s.pages[..i + 1] + [copy] + s.pages[i + 1..])
  }

  /** The neighbour index a move targets. */
  function Target(i: int, dir: Direction): int {
    if dir == Left then i - 1 else i + 1
  }

  /** The list with the pages at indices i and j exchanged. */
  function Swap(pages: seq<Page>, i: nat, j: nat): (r: seq<Page>)
    requires i < |pages| && j < |pages|
    ensures |r| == |pages|
    ensures r[i] == pages[j] && r[j] == pages[i]
    ensures forall k :: 0 <= k < |pages| && k != i && k != j ==> r[k] == pages[k]
    ensures multiset(r) == multiset(pages)
  {
    var r := pages[i := pages[j]][j := pages[i]];
    assert multiset(pages[i := pages[j]]) == multiset(pages) - multiset{pages[i]} + multiset{pages[j]};
    r
  }

  /** Moving a page one place left or right swaps it with that neighbour; an
      unknown id or a move past either end changes nothing. The pages are
      always a permutation of the old ones. */
  function Move(s: State, id: Id, dir: Direction): (r: State)
    ensures |r.pages| == |s.pages|
    ensures multiset(r.pages) == multiset(s.pages)
    ensures r.selected == s.selected && r.editing == s.editing && r.draft == s.draft
    ensures
      var i := FindIndex(s.pages, id);
      var j := Target(i, dir);
      i == -1 || j < 0 || j >= |s.pages| ==> r == s
    ensures
      var i := FindIndex(s.pages, id);
      var j := Target(i, dir);
      i >= 0 && 0 <= j < |s.pages| ==>
        && r.pages[i] == s.pages[j]
        && r.pages[j] == s.pages[i]
        && forall k :: 0 <= k < |s.pages| && k != i && k != j ==> r.pages[k] == s.pages[k]
  {
    var i := FindIndex(s.pages, id);
    if i == -1 then s
    else
      var j := Target(i, dir);
      if 0 <= j < |s.pages| then s.(pages := Swap(s.pages, i, j)) else s
  }

  /** Opening the caption dialog copies the selected page's caption into the
      draft; without a selected page nothing happens. */
  function OpenTextEditor(s: State): (r: State)
    ensures SelectedPage(s).None? ==> r == s
    ensures SelectedPage(s).Some? ==>
      r == s.(editing := true, draft := SelectedPage(s).value.text)
  {
    match SelectedPage(s)
    case None => s
    case Some(p) => s.(editing := true, draft := p.text)
  }

  /** Typing in the caption dialog replaces the draft only. */
  function EditDraft(s: State, text: string): (r: State)
    ensures r.draft == text
    ensures r.pages == s.pages && r.selected == s.selected && r.editing == s.editing
  {
    s.(draft := text)
  }

  /** Closing the dialog without saving (its Cancel button, or any other
      dismissal) leaves every page as it was; the draft is simply not
      committed. */
  function CancelText(s: State): (r: State)
    ensures !r.editing
    ensures r.pages == s.pages && r.selected == s.selected && r.draft == s.draft
  {
    s.(editing := false)
  }

  /** Clicking the thumbnail at index k selects that page: it becomes the page
      the caption dialog and the delete, duplicate and move buttons act on. */
  function SelectPage(s: State, k: nat): (r: State)
    requires k < |s.pages|
    ensures r.pages == s.pages && r.editing == s.editing && r.draft == s.draft
    ensures IsSet(r.selected) <==> s.pages[k].id != ""
    ensures SelectedPage(r).Some? && SelectedPage(r).value.id == s.pages[k].id
    ensures DistinctIds(s.pages) ==> SelectedPage(r) == Some(s.pages[k])
  {
    var r := s.(selected := Some(s.pages[k].id));
    assert Ids(s.pages)[k] == s.pages[k].id;
    assert DistinctIds(s.pages) ==> FindIndex(s.pages, s.pages[k].id) == k by {
      if DistinctIds(s.pages) {
        FindIndexOfDistinct(s.pages, k);
      }
    }
    r
  }

  /** Saving the caption: when a page is selected, every page with the
      selected id takes the draft as its caption and no other field or page
      changes; the dialog closes either way. */
  function SaveText(s: State): (r: State)
    ensures |r.pages| == |s.pages|
    ensures forall k :: 0 <= k < |s.pages| ==>
      r.pages[k].id == s.pages[k].id && r.pages[k].image == s.pages[k].image
    ensures forall k :: 0 <= k < |s.pages| && IsSet(s.selected) && s.pages[k].id == s.selected.value ==>
      r.pages[k].text == s.draft
    ensures forall k :: 0 <= k < |s.pages| && !(IsSet(s.selected) && s.pages[k].id == s.selected.value) ==>
      r.pages[k].text == s.pages[k].text
    ensures !IsSet(s.selected) ==> r.pages == s.pages
    ensures !r.editing && r.selected == s.selected && r.draft == s.draft
  {
    if IsSet(s.selected) then
      var pages := seq(|s.pages|, k requires 0 <= k < |s.pages| =>
        if s.pages[k].id == s.selected.value then s.pages[k].(text := s.draft) else s.pages[k]);
      s.(pages := pages, editing := false)
    else
      s.(editing := false)
  }
}
