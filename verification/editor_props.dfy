/** Properties relating the editor's transitions: each keeps the state
    invariant, and duplicate/delete and left/right moves undo each other. */
module EditorProps {
  import opened Model
  import opened Editor

  /** Ids that may be handed to an import: non-empty, pairwise distinct and
      not already used by a page. */
  predicate FreshIds(pages: seq<Page>, ids: seq<Id>) {
    && (forall k :: 0 <= k < |ids| ==> ids[k] != "" && ids[k] !in Ids(pages))
    && (forall i, j :: 0 <= i < j < |ids| ==> ids[i] != ids[j])
  }

  /** Concatenating two valid lists whose ids do not meet gives a valid
      list, and every id of either list is an id of the result. */
  lemma AppendFacts(a: seq<Page>, b: seq<Page>)
    requires ValidPages(a) && ValidPages(b)
    requires forall k :: 0 <= k < |b| ==> b[k].id !in Ids(a)
    ensures ValidPages(a + b)
    ensures Ids(a + b) == Ids(a) + Ids(b)
  {
    forall i, j | 0 <= i < j < |a + b| ensures (a + b)[i].id != (a + b)[j].id {
      if i < |a| <= j {
        assert Ids(a)[i] == (a + b)[i].id;
        assert (a + b)[j] == b[j - |a|];
      }
    }
  }

  lemma ImportKeepsValid(s: State, images: seq<Image>, ids: seq<Id>)
    requires Valid(s)
    requires |ids| == |images|
    requires FreshIds(s.pages, ids)
    ensures Valid(Import(s, images, ids))
  {
    var r := Import(s, images, ids);
    if |images| > 0 {
      var added := NewPages(images, ids);
      assert r.pages == s.pages + added;
      assert Ids(added) == ids;
      AppendFacts(s.pages, added);
      assert r.selected.value in Ids(r.pages) by {
        if !IsSet(s.selected) {
          assert Ids(r.pages)[0] == ids[0];
        }
      }
    }
  }

  /** Removing the page at index k from a valid list keeps it valid and keeps
      the id of every other page. */
  lemma RemoveFacts(pages: seq<Page>, k: nat)
    requires ValidPages(pages)
    requires k < |pages|
    ensures ValidPages(pages[..k] + pages[k + 1..])
    ensures forall x :: 0 <= x < |pages| && x != k ==> pages[x].id in Ids(pages[..k] + pages[k + 1..])
  {
    var r := pages[..k] + pages[k + 1..];
    assert forall m :: 0 <= m < |r| ==> r[m] == pages[if m < k then m else m + 1];
    forall x | 0 <= x < |pages| && x != k ensures pages[x].id in Ids(r) {
      assert Ids(r)[if x < k then x else x - 1] == pages[x].id;
    }
  }

  lemma DeleteKeepsValid(s: State, id: Id)
    requires Valid(s)
    ensures Valid(Delete(s, id))
  {
    var k := FindIndex(s.pages, id);
    if k >= 0 {
      WithoutAt(s.pages, k);
      RemoveFacts(s.pages, k);
      var r := Delete(s, id);
      if s.selected == Some(id) {
        if |r.pages| > 0 {
          assert Ids(r.pages)[0] == r.pages[0].id;
        }
      } else {
        var x := FindIndex(s.pages, s.selected.value);
        assert x != k;
      }
    }
  }

  /** Inserting a page with an unused id after index i keeps ids distinct
      (and non-empty, when the new one is) and keeps every id. */
  lemma InsertFacts(pages: seq<Page>, i: nat, p: Page)
    requires DistinctIds(pages)
    requires i < |pages|
    requires p.id !in Ids(pages)
    ensures DistinctIds(pages[..i + 1] + [p] + pages[i + 1..])
    ensures forall x :: 0 <= x < |pages| ==> pages[x].id in Ids(pages[..i + 1] + [p] + pages[i + 1..])
    ensures ValidPages(pages) && p.id != "" ==> ValidPages(pages[..i + 1] + [p] + pages[i + 1..])
  {
    var r := pages[..i + 1] + [p] + pages[i + 1..];
    assert forall m :: 0 <= m < |r| ==> r[m] == if m == i + 1 then p else pages[if m <= i then m else m - 1];
    assert forall x :: 0 <= x < |pages| ==> Ids(pages)[x] == pages[x].id;
    forall x | 0 <= x < |pages| ensures pages[x].id in Ids(r) {
      assert Ids(r)[if x <= i then x else x + 1] == pages[x].id;
    }
  }

  /** Duplicating with an unused id keeps page ids distinct. */
  lemma DuplicateKeepsDistinct(s: State, id: Id, newId: Id)
    requires DistinctIds(s.pages)
    requires newId !in Ids(s.pages)
    ensures DistinctIds(Duplicate(s, id, newId).pages)
  {
    var i := FindIndex(s.pages, id);
    if i >= 0 {
      InsertFacts(s.pages, i, s.pages[i].(id := newId));
    }
  }

  lemma DuplicateKeepsValid(s: State, id: Id, newId: Id)
    requires Valid(s)
    requires newId != "" && newId !in Ids(s.pages)
    ensures Valid(Duplicate(s, id, newId))
  {
    var i := FindIndex(s.pages, id);
    if i >= 0 {
      var p := s.pages[i].(id := newId);
      var ins := s.pages[..i + 1] + [p] + s.pages[i + 1..];
      assert Duplicate(s, id, newId) == s.(pages := ins);
      InsertFacts(s.pages, i, p);
      var x := FindIndex(s.pages, s.selected.value);
      assert s.selected.value in Ids(ins);
    }
  }

  /** Swapping two pages keeps ids distinct. */
  lemma SwapKeepsDistinct(pages: seq<Page>, i: nat, j: nat)
    requires DistinctIds(pages)
    requires i < |pages| && j < |pages|
    ensures DistinctIds(Swap(pages, i, j))
  {
    var r := Swap(pages, i, j);
    forall a, b | 0 <= a < b < |r| ensures r[a].id != r[b].id {
      var a' := if a == i then j else if a == j then i else a;
      var b' := if b == i then j else if b == j then i else b;
      assert r[a] == pages[a'] && r[b] == pages[b'];
    }
  }

  /** Swapping two pages of a valid list keeps it valid and keeps every id. */
  lemma SwapFacts(pages: seq<Page>, i: nat, j: nat)
    requires ValidPages(pages)
    requires i < |pages| && j < |pages|
    ensures ValidPages(Swap(pages, i, j))
    ensures forall x :: 0 <= x < |pages| ==> pages[x].id in Ids(Swap(pages, i, j))
  {
    var r := Swap(pages, i, j);
    SwapKeepsDistinct(pages, i, j);
    forall x | 0 <= x < |pages| ensures pages[x].id in Ids(r) {
      var y := if x == i then j else if x == j then i else x;
      assert Ids(r)[y] == pages[x].id;
    }
  }

  /** Swapping the same two pages twice gives back the list. */
  lemma SwapTwice(pages: seq<Page>, i: nat, j: nat)
    requires i < |pages| && j < |pages|
    ensures Swap(Swap(pages, i, j), j, i) == pages
  {
    var r := Swap(Swap(pages, i, j), j, i);
    assert forall k :: 0 <= k < |pages| ==> r[k] == pages[k];
  }

  lemma MoveKeepsValid(s: State, id: Id, dir: Direction)
    requires Valid(s)
    ensures Valid(Move(s, id, dir))
  {
    var i := FindIndex(s.pages, id);
    var j := Target(i, dir);
    if i >= 0 && 0 <= j < |s.pages| {
      SwapFacts(s.pages, i, j);
      var x := FindIndex(s.pages, s.selected.value);
    }
  }

  /** The caption dialog (open, type, cancel, save) and selecting a thumbnail
      keep the invariant. */
  lemma CaptionAndSelectKeepValid(s: State, text: string, k: nat)
    requires Valid(s)
    ensures Valid(OpenTextEditor(s))
    ensures Valid(EditDraft(s, text))
    ensures Valid(CancelText(s))
    ensures Valid(SaveText(s))
    ensures k < |s.pages| ==> Valid(SelectPage(s, k))
  {
    var r := SaveText(s);
    assert Ids(r.pages) == Ids(s.pages);
    if k < |s.pages| {
      assert Ids(s.pages)[k] == s.pages[k].id;
    }
  }

  /** Filtering out the id of a page inserted after index i, when no other
      page has that id, gives back the list before the insertion. */
  lemma WithoutInserted(pages: seq<Page>, i: nat, p: Page)
    requires i < |pages|
    requires p.id !in Ids(pages)
    ensures Without(pages[..i + 1] + [p] + pages[i + 1..], p.id) == pages
  {
    var before, after := pages[..i + 1], pages[i + 1..];
    assert pages[..i + 1] + [p] + pages[i + 1..] == before + ([p] + after);
    assert before + after == pages;
    assert forall m :: 0 <= m < |pages| ==> pages[m].id != p.id by {
      assert forall m :: 0 <= m < |pages| ==> Ids(pages)[m] == pages[m].id;
    }
    WithoutAbsent(before, p.id);
    WithoutAbsent(after, p.id);
    assert ([p] + after)[1..] == after;
    WithoutJoin(before, [p] + after, after, p.id);
  }

  /** Deleting the copy a duplicate just made restores the state exactly. */
  lemma DeleteUndoesDuplicate(s: State, id: Id, newId: Id)
    requires Valid(s)
    requires newId !in Ids(s.pages)
    ensures Delete(Duplicate(s, id, newId), newId) == s
  {
    var i := FindIndex(s.pages, id);
    if i >= 0 {
      WithoutInserted(s.pages, i, s.pages[i].(id := newId));
    }
  }

  /** A move whose target is in range is the swap of the two pages. */
  lemma MoveIsSwap(s: State, id: Id, dir: Direction, i: nat, j: nat)
    requires i < |s.pages| && j < |s.pages|
    requires FindIndex(s.pages, id) == i && Target(i, dir) == j
    ensures Move(s, id, dir) == s.(pages := Swap(s.pages, i, j))
  {
  }

  /** Moving a page left and then right again restores the state. */
  lemma MoveLeftThenRight(s: State, id: Id)
    requires DistinctIds(s.pages)
    requires FindIndex(s.pages, id) > 0
    ensures Move(Move(s, id, Left), id, Right) == s
  {
    var i := FindIndex(s.pages, id);
    var moved := Swap(s.pages, i, i - 1);
    var m := Move(s, id, Left);
    assert m == s.(pages := moved) by {
      MoveIsSwap(s, id, Left, i, i - 1);
    }
    assert Move(m, id, Right) == s.(pages := Swap(moved, i - 1, i)) by {
      SwapKeepsDistinct(s.pages, i, i - 1);
      FindIndexOfDistinct(moved, i - 1);
      MoveIsSwap(m, id, Right, i - 1, i);
    }
    SwapTwice(s.pages, i, i - 1);
  }

  /** Moving a page right and then left again restores the state. */
  lemma MoveRightThenLeft(s: State, id: Id)
    requires DistinctIds(s.pages)
    requires 0 <= FindIndex(s.pages, id) < |s.pages| - 1
    ensures Move(Move(s, id, Right), id, Left) == s
  {
    var i := FindIndex(s.pages, id);
    var moved := Swap(s.pages, i, i + 1);
    var m := Move(s, id, Right);
    assert m == s.(pages := moved) by {
      MoveIsSwap(s, id, Right, i, i + 1);
    }
    assert Move(m, id, Left) == s.(pages := Swap(moved, i + 1, i)) by {
      SwapKeepsDistinct(s.pages, i, i + 1);
      FindIndexOfDistinct(moved, i + 1);
      MoveIsSwap(m, id, Left, i + 1, i);
    }
    SwapTwice(s.pages, i, i + 1);
  }

  /** After a save with a selected page, that page carries the draft as its
      caption. */
  lemma SaveCommitsDraft(s: State)
    requires IsSet(s.selected) && s.selected.value in Ids(s.pages)
    ensures SelectedPage(SaveText(s)).Some?
    ensures SelectedPage(SaveText(s)).value.text == s.draft
  {
    var r := SaveText(s);
    assert Ids(r.pages) == Ids(s.pages);
  }

  /** Opening the dialog and saving without typing changes no page. */
  lemma OpenThenSaveKeepsPages(s: State)
    requires Valid(s)
    ensures SaveText(OpenTextEditor(s)).pages == s.pages
  {
    var o := OpenTextEditor(s);
    var r := SaveText(o);
    if s.selected.Some? {
      var i := FindIndex(s.pages, s.selected.value);
      forall k | 0 <= k < |s.pages| ensures r.pages[k] == s.pages[k] {
        if s.pages[k].id == s.selected.value {
          assert k == i;
        }
      }
    }
  }
}
