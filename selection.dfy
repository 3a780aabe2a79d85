/**
 * The cross-page selection of the paginated table (`selectedIds`,
 * frontend/src/components/PaginatedTableWrapper.tsx). A JavaScript `Set`
 * iterates in insertion order, so the selection is a sequence without
 * duplicates: `add` appends an absent id, `delete` removes one in place.
 */
module Selection {

  predicate Distinct(s: seq<string>) {
    forall i, j :: 0 <= i < j < |s| ==> s[i] != s[j]
  }

  lemma DistinctTail(sel: seq<string>)
    requires sel != []
    ensures Distinct(sel) ==> sel[0] !in sel[1..] && Distinct(sel[1..])
  {
    forall k | 0 <= k < |sel| - 1 ensures sel[1..][k] == sel[k + 1] {
    }
  }

  /** `set.add(id)`. */
  function Add(sel: seq<string>, id: string): (r: seq<string>)
    ensures forall x :: x in r <==> x in sel || x == id
    ensures Distinct(sel) ==> Distinct(r)
    ensures |sel| <= |r| && r[..|sel|] == sel
  {
    if id in sel then sel else sel + [id]
  }

  /** `set.delete(id)`. */
  function Remove(sel: seq<string>, id: string): (r: seq<string>)
    ensures forall x :: x in r <==> x in sel && x != id
    ensures Distinct(sel) ==> Distinct(r)
    ensures |r| <= |sel|
    ensures id !in sel ==> r == sel
  {
    if sel == [] then []
    else
      DistinctTail(sel);
      assert sel == [sel[0]] + sel[1..];
      (if sel[0] == id then [] else [sel[0]]) + Remove(sel[1..], id)
  }

  /** In a set the id occurs at one position `k`; deleting it closes the gap and
      keeps the order of the others. */
  lemma {:induction false} RemoveAt(sel: seq<string>, id: string, k: int)
    requires Distinct(sel) && 0 <= k < |sel| && sel[k] == id
    ensures Remove(sel, id) == sel[..k] + sel[k + 1..]
  {
    DistinctTail(sel);
    if k == 0 {
      assert Remove(sel, id) == Remove(sel[1..], id);
    } else {
      var tail := sel[1..];
      assert tail[k - 1] == id;
      RemoveAt(tail, id, k - 1);
      assert sel[..k] == [sel[0]] + tail[..k - 1];
      assert sel[k + 1..] == tail[k..];
    }
  }

  /** `onToggleSelect`: delete the id when present, add it otherwise. */
  function Toggle(sel: seq<string>, id: string): seq<string> {
    if id in sel then Remove(sel, id) else Add(sel, id)
  }

  /** Toggling flips the membership of `id` and of no other id. */
  lemma ToggleFlipsOnlyId(sel: seq<string>, id: string, other: string)
    ensures id in Toggle(sel, id) <==> id !in sel
    ensures other != id ==> (other in Toggle(sel, id) <==> other in sel)
  {
  }

  /** Toggling twice restores the same set of ids (possibly in a new position). */
  lemma ToggleTwice(sel: seq<string>, id: string, other: string)
    ensures other in Toggle(Toggle(sel, id), id) <==> other in sel
  {
    ToggleFlipsOnlyId(sel, id, other);
    ToggleFlipsOnlyId(Toggle(sel, id), id, other);
  }

  /** `ids.forEach((id) => set.add(id))`. */
  function AddAll(sel: seq<string>, ids: seq<string>): seq<string> {
    if ids == [] then sel else Add(AddAll(sel, ids[..|ids| - 1]), ids[|ids| - 1])
  }

  /** `ids.forEach((id) => set.delete(id))`. */
  function RemoveAll(sel: seq<string>, ids: seq<string>): seq<string> {
    if ids == [] then sel else Remove(RemoveAll(sel, ids[..|ids| - 1]), ids[|ids| - 1])
  }

  lemma {:induction false} AddAllMembers(sel: seq<string>, ids: seq<string>)
    ensures forall x :: x in AddAll(sel, ids) <==> x in sel || x in ids
    ensures Distinct(sel) ==> Distinct(AddAll(sel, ids))
    ensures |sel| <= |AddAll(sel, ids)| && AddAll(sel, ids)[..|sel|] == sel
  {
    if ids != [] {
      var init := ids[..|ids| - 1];
      AddAllMembers(sel, init);
      assert ids == init + [ids[|ids| - 1]];
      var prev := AddAll(sel, init);
      var next := Add(prev, ids[|ids| - 1]);
      assert next[..|prev|] == prev;
      assert next[..|sel|] == prev[..|prev|][..|sel|];
    }
  }

  lemma {:induction false} RemoveAllMembers(sel: seq<string>, ids: seq<string>)
    ensures forall x :: x in RemoveAll(sel, ids) <==> x in sel && x !in ids
    ensures Distinct(sel) ==> Distinct(RemoveAll(sel, ids))
  {
    if ids != [] {
      var init := ids[..|ids| - 1];
      RemoveAllMembers(sel, init);
      assert ids == init + [ids[|ids| - 1]];
    }
  }

  /** `currentPageIds.every((id) => selectedIds.has(id))`. */
  predicate AllIn(ids: seq<string>, sel: seq<string>) {
    forall i :: 0 <= i < |ids| ==> ids[i] in sel
  }

  /** `onToggleSelectAll`: remove the page's ids when all are selected, add them otherwise. */
  function ToggleAll(sel: seq<string>, pageIds: seq<string>): seq<string> {
    if AllIn(pageIds, sel) then RemoveAll(sel, pageIds) else AddAll(sel, pageIds)
  }

  /** `allSelected`: the page is non-empty and every id on it is selected. */
  predicate AllSelected(pageIds: seq<string>, sel: seq<string>) {
    |pageIds| > 0 && AllIn(pageIds, sel)
  }

  /** Select-all touches exactly the ids on the page: it removes them all when all were
      selected and adds them all otherwise; ids not on the page keep their membership. */
  lemma ToggleAllEffect(sel: seq<string>, pageIds: seq<string>, x: string)
    ensures x !in pageIds ==> (x in ToggleAll(sel, pageIds) <==> x in sel)
    ensures x in pageIds && AllIn(pageIds, sel) ==> x !in ToggleAll(sel, pageIds)
    ensures x in pageIds && !AllIn(pageIds, sel) ==> x in ToggleAll(sel, pageIds)
    ensures Distinct(sel) ==> Distinct(ToggleAll(sel, pageIds))
  {
    AddAllMembers(sel, pageIds);
    RemoveAllMembers(sel, pageIds);
  }

  /** On a non-empty page, select-all flips the header checkbox. */
  lemma ToggleAllFlipsAllSelected(sel: seq<string>, pageIds: seq<string>)
    requires |pageIds| > 0
    ensures AllSelected(pageIds, ToggleAll(sel, pageIds)) == !AllSelected(pageIds, sel)
  {
    AddAllMembers(sel, pageIds);
    RemoveAllMembers(sel, pageIds);
    if AllIn(pageIds, sel) {
      assert pageIds[0] !in ToggleAll(sel, pageIds);
    }
  }

  /** On an empty page `every` holds vacuously, so select-all removes nothing. */
  lemma ToggleAllOnEmptyPage(sel: seq<string>)
    ensures ToggleAll(sel, []) == sel
  {
  }

  /** The `forEach` loop of `onToggleSelectAll`, applied to a copy of the selection. */
  method ToggleAllOnPage(sel: seq<string>, pageIds: seq<string>) returns (r: seq<string>)
    ensures r == ToggleAll(sel, pageIds)
  {
    var allSelected := AllIn(pageIds, sel);
    r := sel;
    var i := 0;
    while i < |pageIds|
      invariant 0 <= i <= |pageIds|
      invariant r == if allSelected then RemoveAll(sel, pageIds[..i]) else AddAll(sel, pageIds[..i])
    {
      assert pageIds[..i + 1][..i] == pageIds[..i];
      if allSelected {
        r := Remove(r, pageIds[i]);
      } else {
        r := Add(r, pageIds[i]);
      }
      i := i + 1;
    }
    assert pageIds[..i] == pageIds;
  }
}
