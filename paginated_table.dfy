/**
 * The paginated table wrapper (frontend/src/components/PaginatedTableWrapper.tsx):
 * the view state that its handlers update, the cross-page selection, the bulk
 * actions and the page buttons. The record list itself is a property passed
 * in by the page; handlers that read it take it as a parameter.
 *
 * Side effects the bulk actions have on the outside world (alerts, the confirm
 * dialog, calls of `onDelete`/`onStart`, the 50 ms pauses, console errors) are
 * returned as a trace of `Effect`s; the user's answer to the confirm dialog and
 * the ids whose `onDelete` or `onStart` call throws are inputs.
 */
module PaginatedTable {
  import opened Wrappers
  import opened Text
  import opened Types
  import opened ViewPipeline
  import opened Selection

  // ================================================================ effects

  datatype Effect =
    | Alert(message: string)
    | Confirm(message: string)
    | Delete(id: string)
    | Sleep(ms: nat)
    | DeleteFailed(id: string)
    | Start(id: string)
    | Uncaught(id: string)  // the exception `onStart(id)` threw leaves the handler

  const NoneSelected: string := "No URLs selected."
  const DeletePause: nat := 50

  function DeletePrompt(count: nat): string {
    "Are you sure you want to delete " + IntToString(count) + " selected URL(s)?"
  }

  /** The ids passed to `onDelete`, in call order. */
  function Deletes(effects: seq<Effect>): seq<string> {
    if effects == [] then []
    else (if effects[0].Delete? then [effects[0].id] else []) + Deletes(effects[1..])
  }

  /** The ids passed to `onStart`, in call order. */
  function Starts(effects: seq<Effect>): seq<string> {
    if effects == [] then []
    else (if effects[0].Start? then [effects[0].id] else []) + Starts(effects[1..])
  }

  predicate HasConfirm(effects: seq<Effect>) {
    exists i :: 0 <= i < |effects| && effects[i].Confirm?
  }

  lemma {:induction false} DeletesConcat(a: seq<Effect>, b: seq<Effect>)
    ensures Deletes(a + b) == Deletes(a) + Deletes(b)
  {
    if a == [] {
      assert a + b == b;
    } else {
      var head := if a[0].Delete? then [a[0].id] else [];
      DeletesConcat(a[1..], b);
      assert (a + b)[0] == a[0] && (a + b)[1..] == a[1..] + b;
      assert Deletes(a) == head + Deletes(a[1..]);
      assert Deletes(a + b) == head + Deletes(a[1..] + b);
    }
  }

  lemma {:induction false} StartsConcat(a: seq<Effect>, b: seq<Effect>)
    ensures Starts(a + b) == Starts(a) + Starts(b)
  {
    if a == [] {
      assert a + b == b;
    } else {
      var head := if a[0].Start? then [a[0].id] else [];
      StartsConcat(a[1..], b);
      assert (a + b)[0] == a[0] && (a + b)[1..] == a[1..] + b;
      assert Starts(a) == head + Starts(a[1..]);
      assert Starts(a + b) == head + Starts(a[1..] + b);
    }
  }

  /** One iteration of the delete loop: the call, then the pause, or the logged error
      when the call throws synchronously. */
  function DeleteStep(id: string, throws: set<string>): seq<Effect> {
    [Delete(id)] + (if id in throws then [DeleteFailed(id)] else [Sleep(DeletePause)])
  }

  /** `for (const id of idsToDelete) { try { onDelete(id); await sleep(50) } catch … }`. */
  function DeleteEffects(ids: seq<string>, throws: set<string>): seq<Effect> {
    if ids == [] then []
    else DeleteEffects(ids[..|ids| - 1], throws) + DeleteStep(ids[|ids| - 1], throws)
  }

  /** `ids.forEach((id) => onStart(id))`. */
  function StartEffects(ids: seq<string>): seq<Effect> {
    if ids == [] then [] else StartEffects(ids[..|ids| - 1]) + [Start(ids[|ids| - 1])]
  }

  /** `handleBulkDelete` on the selection `sel`. */
  function BulkDeleteEffects(sel: seq<string>, confirmed: bool, throws: set<string>): seq<Effect> {
    if sel == [] then [Alert(NoneSelected)]
    else [Confirm(DeletePrompt(|sel|))] + (if confirmed then DeleteEffects(sel, throws) else [])
  }

  /** The position of the first id in `ids` whose `onStart` call throws, or `|ids|`
      when none does. */
  function FirstThrow(ids: seq<string>, throws: set<string>): (n: nat)
    ensures n <= |ids|
    ensures forall i :: 0 <= i < n ==> ids[i] !in throws
    ensures n < |ids| ==> ids[n] in throws
  {
    if ids == [] || ids[0] in throws then 0 else 1 + FirstThrow(ids[1..], throws)
  }

  /** `ids.forEach((id) => onStart(id))` when the ids in `throws` make `onStart`
      throw: nothing catches the exception, so the loop ends with the first of them. */
  function StartsUntilThrow(ids: seq<string>, throws: set<string>): seq<Effect> {
    var n := FirstThrow(ids, throws);
    if n < |ids| then StartEffects(ids[..n + 1]) + [Uncaught(ids[n])] else StartEffects(ids)
  }

  /** `handleBulkReanalyze` on the selection `sel`. */
  function BulkReanalyzeEffects(sel: seq<string>, throws: set<string>): seq<Effect> {
    if sel == [] then [Alert(NoneSelected)] else StartsUntilThrow(sel, throws)
  }

  lemma DeleteStepCalls(id: string, throws: set<string>)
    ensures Deletes(DeleteStep(id, throws)) == [id]
    ensures Starts(DeleteStep(id, throws)) == []
  {
    var step := DeleteStep(id, throws);
    var after := step[1..];
    assert after[1..] == [];
    assert Deletes(after) == [] && Starts(after) == [];
  }

  /** The delete loop calls `onDelete` once per id, in order, and never `onStart`. */
  lemma {:induction false} DeleteEffectsCalls(ids: seq<string>, throws: set<string>)
    ensures Deletes(DeleteEffects(ids, throws)) == ids
    ensures Starts(DeleteEffects(ids, throws)) == []
    ensures !HasConfirm(DeleteEffects(ids, throws))
  {
    if ids != [] {
      var init := ids[..|ids| - 1];
      var last := ids[|ids| - 1];
      DeleteEffectsCalls(init, throws);
      DeletesConcat(DeleteEffects(init, throws), DeleteStep(last, throws));
      StartsConcat(DeleteEffects(init, throws), DeleteStep(last, throws));
      DeleteStepCalls(last, throws);
      assert ids == init + [last];
    }
  }

  /** Every call of `onDelete` is followed by the 50 ms pause or, when it threw, by the
      logged error for that id; throwing ids never stop the loop. */
  lemma {:induction false} DeleteFollowedByPauseOrError(ids: seq<string>, throws: set<string>, i: int)
    requires 0 <= i < |DeleteEffects(ids, throws)| && DeleteEffects(ids, throws)[i].Delete?
    ensures i + 1 < |DeleteEffects(ids, throws)|
    ensures var e := DeleteEffects(ids, throws);
      if e[i].id in throws then e[i + 1] == DeleteFailed(e[i].id) else e[i + 1] == Sleep(DeletePause)
  {
    var init := ids[..|ids| - 1];
    var prefix := DeleteEffects(init, throws);
    if i < |prefix| {
      DeleteFollowedByPauseOrError(init, throws, i);
    }
  }

  /** Reanalyze calls `onStart` once per id, in order, and never `onDelete`. */
  lemma {:induction false} StartEffectsCalls(ids: seq<string>)
    ensures Starts(StartEffects(ids)) == ids
    ensures Deletes(StartEffects(ids)) == []
    ensures !HasConfirm(StartEffects(ids))
  {
    if ids != [] {
      var init := ids[..|ids| - 1];
      var last := ids[|ids| - 1];
      StartEffectsCalls(init);
      DeletesConcat(StartEffects(init), [Start(last)]);
      StartsConcat(StartEffects(init), [Start(last)]);
      assert ids == init + [last];
    }
  }

  /** Bulk delete: nothing is deleted with an empty selection or a declined confirm;
      otherwise every selected id is deleted once, in selection order, always after
      the confirm dialog has been shown. */
  lemma BulkDeleteCalls(sel: seq<string>, confirmed: bool, throws: set<string>)
    ensures Deletes(BulkDeleteEffects(sel, confirmed, throws)) == (if sel != [] && confirmed then sel else [])
    ensures Starts(BulkDeleteEffects(sel, confirmed, throws)) == []
    ensures sel == [] <==> BulkDeleteEffects(sel, confirmed, throws) == [Alert(NoneSelected)]
    ensures sel != [] ==> BulkDeleteEffects(sel, confirmed, throws)[0] == Confirm(DeletePrompt(|sel|))
  {
    if sel != [] {
      var tail := if confirmed then DeleteEffects(sel, throws) else [];
      DeleteEffectsCalls(sel, throws);
      DeletesConcat([Confirm(DeletePrompt(|sel|))], tail);
      StartsConcat([Confirm(DeletePrompt(|sel|))], tail);
    }
  }

  /** The start loop calls `onStart` for the ids in order, up to and including
      the first that throws, and then stops. */
  lemma StartsUntilThrowCalls(ids: seq<string>, throws: set<string>)
    ensures var n := FirstThrow(ids, throws);
      Starts(StartsUntilThrow(ids, throws)) == if n < |ids| then ids[..n + 1] else ids
    ensures Deletes(StartsUntilThrow(ids, throws)) == []
    ensures !HasConfirm(StartsUntilThrow(ids, throws))
  {
    var n := FirstThrow(ids, throws);
    if n < |ids| {
      var started := StartEffects(ids[..n + 1]);
      StartEffectsCalls(ids[..n + 1]);
      StartsConcat(started, [Uncaught(ids[n])]);
      DeletesConcat(started, [Uncaught(ids[n])]);
      assert Starts([Uncaught(ids[n])]) == [] && Deletes([Uncaught(ids[n])]) == [];
      forall i | 0 <= i < |started| + 1
        ensures !(started + [Uncaught(ids[n])])[i].Confirm?
      {
        if i < |started| {
          assert (started + [Uncaught(ids[n])])[i] == started[i];
        }
      }
    } else {
      StartEffectsCalls(ids);
    }
  }

  /** Bulk reanalyze: no confirmation; every selected id is started once, in order,
      until an `onStart` call throws, which ends the loop after that id. */
  lemma BulkReanalyzeCalls(sel: seq<string>, throws: set<string>)
    ensures var n := FirstThrow(sel, throws);
      Starts(BulkReanalyzeEffects(sel, throws)) == if n < |sel| then sel[..n + 1] else sel
    ensures (forall i :: 0 <= i < |sel| ==> sel[i] !in throws) ==> Starts(BulkReanalyzeEffects(sel, throws)) == sel
    ensures Deletes(BulkReanalyzeEffects(sel, throws)) == []
    ensures !HasConfirm(BulkReanalyzeEffects(sel, throws))
    ensures sel == [] <==> BulkReanalyzeEffects(sel, throws) == [Alert(NoneSelected)]
  {
    if sel != [] {
      StartsUntilThrowCalls(sel, throws);
      var n := FirstThrow(sel, throws);
      assert Starts(BulkReanalyzeEffects(sel, throws))[0] == sel[0] by {
        if n < |sel| {
          assert sel[..n + 1][0] == sel[0];
        }
      }
      assert Starts([Alert(NoneSelected)]) == [];
    }
  }

  /** The `for` loop of `handleBulkDelete` over the snapshot `ids`. */
  method DispatchDeletes(ids: seq<string>, throws: set<string>) returns (effects: seq<Effect>)
    ensures effects == DeleteEffects(ids, throws)
    ensures Deletes(effects) == ids
  {
    effects := [];
    var i := 0;
    while i < |ids|
      invariant 0 <= i <= |ids|
      invariant effects == DeleteEffects(ids[..i], throws)
    {
      assert ids[..i + 1][..i] == ids[..i];
      effects := effects + DeleteStep(ids[i], throws);
      i := i + 1;
    }
    assert ids[..i] == ids;
    DeleteEffectsCalls(ids, throws);
  }

  /** The `forEach` of `handleBulkReanalyze` over the selection `ids`; `threw`
      reports that an `onStart` call threw and ended the loop. */
  method DispatchStarts(ids: seq<string>, throws: set<string>) returns (effects: seq<Effect>, threw: bool)
    ensures effects == StartsUntilThrow(ids, throws)
    ensures threw <==> exists i :: 0 <= i < |ids| && ids[i] in throws
  {
    effects := [];
    threw := false;
    var i := 0;
    while i < |ids| && !threw
      invariant 0 <= i <= |ids|
      invariant !threw ==> i <= FirstThrow(ids, throws) && effects == StartEffects(ids[..i])
      invariant threw ==> i == FirstThrow(ids, throws) + 1
      invariant threw ==> effects == StartEffects(ids[..i]) + [Uncaught(ids[i - 1])]
    {
      assert ids[..i + 1][..i] == ids[..i];
      effects := effects + [Start(ids[i])];
      if ids[i] in throws {
        effects := effects + [Uncaught(ids[i])];
        threw := true;
      }
      i := i + 1;
    }
    if !threw {
      assert ids[..i] == ids;
    }
  }

  // ================================================================ view-state rules

  function Flip(d: Direction): (r: Direction)
    ensures r != d
  {
    if d == Asc then Desc else Asc
  }

  /** `Math.max(1, parseInt(value) || 1)`: NaN and 0 fall back to 1, negatives clamp to 1. */
  function RowsFromInput(value: string): (n: int)
    ensures n >= 1
    ensures ParseInt(value).Some? && ParseInt(value).value >= 1 ==> n == ParseInt(value).value
    ensures ParseInt(value).None? || ParseInt(value).value < 1 ==> n == 1
  {
    var parsed := ParseInt(value);
    Max(1, if parsed.Some? && parsed.value != 0 then parsed.value else 1)
  }

  /** Typing the decimal text of a positive count sets exactly that many rows per page. */
  lemma RowsFromNumberText(n: int)
    requires n >= 1
    ensures RowsFromInput(IntToString(n)) == n
  {
    ParseIntOfIntToString(n);
  }

  /** The Prev button: `Math.max(1, p - 1)`. */
  function PrevPage(p: int): (q: int)
    ensures q >= 1
    ensures p > 1 ==> q == p - 1
    ensures p <= 1 ==> q == 1
  {
    Max(1, p - 1)
  }

  /** The Next button as written: `Math.min(totalPages, p + 1)`. */
  function NextPageAsWritten(p: int, totalPages: nat): (q: int)
    ensures q <= totalPages && q <= p + 1
    ensures q == totalPages || q == p + 1
  {
    Min(totalPages, p + 1)
  }

  /** With no rows the Next button is enabled on page 1 (1 differs from 0 pages) and
      moves the table to page 0. */
  lemma NextPageOnEmptyListAsWritten(rowsPerPage: int)
    requires rowsPerPage >= 1
    ensures NextPageAsWritten(1, TotalPages(0, rowsPerPage)) == 0
  {
  }

  /** The Next button clamped to at least page 1: never above the last page when
      there is one, and never below page 1. */
  function NextPage(p: int, totalPages: nat): (q: int)
    requires p >= 1
    ensures 1 <= q <= p + 1
    ensures q <= Max(1, totalPages)
    ensures p < totalPages ==> q == p + 1
  {
    Min(Max(1, totalPages), p + 1)
  }

  /** Wherever the list is non-empty the clamped Next agrees with the written one. */
  lemma NextPageAgreesOnNonEmptyList(p: int, totalPages: nat)
    requires p >= 1 && totalPages >= 1
    ensures NextPage(p, totalPages) == NextPageAsWritten(p, totalPages)
  {
  }

  // ================================================================ the component state

  class TableView {
    var sortKey: Option<SortKey>
    var sortDirection: Direction
    var currentPage: int
    var rowsPerPage: int
    var searchTerm: string
    var selectedIds: seq<string>

    ghost predicate Valid()
      reads this
    {
      rowsPerPage >= 1 && currentPage >= 0 && Distinct(selectedIds)
    }

    /** The initial `useState` values. */
    constructor ()
      ensures Valid()
      ensures sortKey == None && sortDirection == Asc && currentPage == 1
      ensures rowsPerPage == 5 && searchTerm == "" && selectedIds == []
    {
      sortKey := None;
      sortDirection := Asc;
      currentPage := 1;
      rowsPerPage := 5;
      searchTerm := "";
      selectedIds := [];
    }

    /** `paginatedUrls` for the list `urls`. */
    function PageRows(urls: seq<Row>): seq<Row>
      reads this
      requires Valid()
    {
      View(urls, searchTerm, sortKey, sortDirection, currentPage, rowsPerPage)
    }

    /** `totalPages` for the list `urls`. */
    function PageCount(urls: seq<Row>): nat
      reads this
      requires Valid()
    {
      TotalPages(|SortedRows(Filter(urls, searchTerm), sortKey, sortDirection)|, rowsPerPage)
    }

    /** `allSelected`, which the header checkbox shows. */
    predicate AllRowsSelected(urls: seq<Row>)
      reads this
      requires Valid()
    {
      AllSelected(Ids(PageRows(urls)), selectedIds)
    }

    /** `handleSort`: the same key flips the direction, a new key sorts ascending;
        either way the table returns to page 1. */
    method HandleSort(key: SortKey)
      requires Valid()
      modifies this`sortKey, this`sortDirection, this`currentPage
      ensures Valid()
      ensures sortKey == Some(key)
      ensures sortDirection == if old(sortKey) == Some(key) then Flip(old(sortDirection)) else Asc
      ensures currentPage == 1
    {
      if sortKey == Some(key) {
        sortDirection := Flip(sortDirection);
      } else {
        sortKey := Some(key);
        sortDirection := Asc;
      }
      currentPage := 1;
    }

    /** `handleRowsChange`. */
    method HandleRowsChange(value: string)
      requires Valid()
      modifies this`rowsPerPage, this`currentPage
      ensures Valid()
      ensures rowsPerPage == RowsFromInput(value) && currentPage == 1
    {
      rowsPerPage := RowsFromInput(value);
      currentPage := 1;
    }

    /** `handleSearchChange`. */
    method HandleSearchChange(value: string)
      requires Valid()
      modifies this`searchTerm, this`currentPage
      ensures Valid()
      ensures searchTerm == value && currentPage == 1
    {
      searchTerm := value;
      currentPage := 1;
    }

    /** `onToggleSelect`. */
    method OnToggleSelect(id: string)
      requires Valid()
      modifies this`selectedIds
      ensures Valid()
      ensures selectedIds == Toggle(old(selectedIds), id)
      ensures id in selectedIds <==> id !in old(selectedIds)
      ensures forall other :: other != id ==> (other in selectedIds <==> other in old(selectedIds))
    {
      selectedIds := Toggle(selectedIds, id);
    }

    /** `onToggleSelectAll` for the list `urls`. */
    method OnToggleSelectAll(urls: seq<Row>)
      requires Valid()
      modifies this`selectedIds
      ensures Valid()
      ensures selectedIds == ToggleAll(old(selectedIds), Ids(old(PageRows(urls))))
      ensures PageRows(urls) == old(PageRows(urls))
      ensures |PageRows(urls)| > 0 ==> (AllRowsSelected(urls) <==> !old(AllRowsSelected(urls)))
    {
      var pageIds := Ids(PageRows(urls));
      ToggleAllEffect(selectedIds, pageIds, "");
      if |pageIds| > 0 {
        ToggleAllFlipsAllSelected(selectedIds, pageIds);
      }
      selectedIds := ToggleAllOnPage(selectedIds, pageIds);
    }

    /** `handleBulkDelete`, given the answer to the confirm dialog and the ids whose
        `onDelete` call throws. */
    method HandleBulkDelete(confirmed: bool, throws: set<string>) returns (effects: seq<Effect>)
      requires Valid()
      modifies this`selectedIds
      ensures Valid()
      ensures effects == BulkDeleteEffects(old(selectedIds), confirmed, throws)
      ensures selectedIds == if old(selectedIds) != [] && confirmed then [] else old(selectedIds)
    {
      if |selectedIds| == 0 {
        effects := [Alert(NoneSelected)];
        return;
      }
      effects := [Confirm(DeletePrompt(|selectedIds|))];
      if !confirmed {
        return;
      }
      var idsToDelete := selectedIds;
      var dispatched := DispatchDeletes(idsToDelete, throws);
      effects := effects + dispatched;
      selectedIds := [];
    }

    /** `handleBulkReanalyze`, given the ids whose `onStart` call throws. An
        exception leaves the handler before the selection is cleared. */
    method HandleBulkReanalyze(throws: set<string>) returns (effects: seq<Effect>)
      requires Valid()
      modifies this`selectedIds
      ensures Valid()
      ensures effects == BulkReanalyzeEffects(old(selectedIds), throws)
      ensures selectedIds == if exists i :: 0 <= i < |old(selectedIds)| && old(selectedIds)[i] in throws
        then old(selectedIds) else []
    {
      if |selectedIds| == 0 {
        effects := [Alert(NoneSelected)];
        return;
      }
      var threw;
      effects, threw := DispatchStarts(selectedIds, throws);
      if !threw {
        selectedIds := [];
      }
    }

    /** The Prev button. */
    method GoToPreviousPage()
      requires Valid()
      modifies this`currentPage
      ensures Valid()
      ensures currentPage == PrevPage(old(currentPage))
    {
      currentPage := PrevPage(currentPage);
    }

    /** The Next button for the list `urls`. With no rows it moves page 1 to
        page 0, which shows no rows. */
    method GoToNextPage(urls: seq<Row>)
      requires Valid()
      modifies this`currentPage
      ensures Valid()
      ensures currentPage == NextPageAsWritten(old(currentPage), old(PageCount(urls)))
    {
      currentPage := NextPageAsWritten(currentPage, PageCount(urls));
    }
  }
}
