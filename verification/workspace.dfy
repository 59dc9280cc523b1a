/** The application state around the pages: the ordered page collection,
    the active-page pointer and the project settings, with the page
    lifecycle (create analysing, complete or fail the analysis, restore from
    a persisted record, select, delete) and the updaters that route edits to
    one page by id. Page ids, file names, object URLs and analysis outcomes
    are inputs: they come from the clock, the random generator, the browser
    and the remote model. */
module Workspace {
  import opened Wrappers
  import opened Types
  import opened Seqs
  import opened PageHistory

  datatype Workspace = Workspace(
    pages: seq<ValidPage>,
    activePageId: Option<string>,
    settings: Settings)

  /** Some page carries `id`. */
  predicate HasPage(pages: seq<ValidPage>, id: string) {
    exists i :: 0 <= i < |pages| && pages[i].id == id
  }

  predicate IdsUnique(pages: seq<ValidPage>) {
    forall i, j :: 0 <= i < j < |pages| ==> pages[i].id != pages[j].id
  }

  /** The collection invariant: ids are unique and non-empty, and the
      active pointer names a page exactly when there are pages. */
  predicate Inv(ws: Workspace) {
    && IdsUnique(ws.pages)
    && (forall i :: 0 <= i < |ws.pages| ==> ws.pages[i].id != "")
    && (ws.activePageId.None? <==> |ws.pages| == 0)
    && (ws.activePageId.Some? ==> HasPage(ws.pages, ws.activePageId.value))
  }

  /** A page carrying `id`. The code's `find` returns the first such page;
      the contract does not say which one, which makes no difference under
      `IdsUnique`, part of `Inv` (see `FindUnique`). */
  function FindPage(pages: seq<ValidPage>, id: string): (r: Option<ValidPage>)
    ensures r.None? <==> !HasPage(pages, id)
    ensures r.Some? ==> exists i :: 0 <= i < |pages| && pages[i] == r.value && pages[i].id == id
  {
    if |pages| == 0 then None
    else if pages[0].id == id then Some(pages[0])
    else
      var r := FindPage(pages[1..], id);
      assert HasPage(pages, id) <==> HasPage(pages[1..], id) by {
        if HasPage(pages, id) {
          var i :| 0 <= i < |pages| && pages[i].id == id;
          assert pages[1..][i - 1] == pages[i];
        }
        if HasPage(pages[1..], id) {
          var i :| 0 <= i < |pages[1..]| && pages[1..][i].id == id;
          assert pages[i + 1] == pages[1..][i];
        }
      }
      if r.Some? then
        var i :| 0 <= i < |pages[1..]| && pages[1..][i] == r.value && pages[1..][i].id == id;
        assert pages[i + 1] == pages[1..][i];
        r
      else r
  }

  /** The page the editor shows, if any: a page carrying the active id. */
  function ActivePage(ws: Workspace): (r: Option<ValidPage>)
    ensures r.Some? <==> ws.activePageId.Some? && HasPage(ws.pages, ws.activePageId.value)
    ensures r.Some? ==> r.value in ws.pages && r.value.id == ws.activePageId.value
  {
    match ws.activePageId
    case None => None
    case Some(id) => FindPage(ws.pages, id)
  }

  /** With unique ids, the page found for the id of page `i` is page `i`. */
  lemma FindUnique(pages: seq<ValidPage>, i: int)
    requires IdsUnique(pages) && 0 <= i < |pages|
    ensures FindPage(pages, pages[i].id) == Some(pages[i])
  {
  }

  /** An updater that never changes which page it is applied to. */
  ghost predicate KeepsId(f: ValidPage -> ValidPage) {
    forall p: ValidPage :: f(p).id == p.id
  }

  /** Apply `f` to every page carrying `id`, leaving the others alone. */
  function UpdatePageById(pages: seq<ValidPage>, id: string, f: ValidPage -> ValidPage): (r: seq<ValidPage>)
    ensures |r| == |pages|
    ensures forall i :: 0 <= i < |pages| && pages[i].id != id ==> r[i] == pages[i]
    ensures forall i :: 0 <= i < |pages| && pages[i].id == id ==> r[i] == f(pages[i])
  {
    seq(|pages|, i requires 0 <= i < |pages| => if pages[i].id == id then f(pages[i]) else pages[i])
  }

  /** Updating an id no page carries changes nothing: a completion that
      arrives for a deleted page is silently dropped. */
  lemma UpdateMissingIsNoOp(pages: seq<ValidPage>, id: string, f: ValidPage -> ValidPage)
    requires !HasPage(pages, id)
    ensures UpdatePageById(pages, id, f) == pages
  {
  }

  /** An id-preserving update keeps every page's id in place. */
  lemma UpdateKeepsIds(pages: seq<ValidPage>, id: string, f: ValidPage -> ValidPage)
    requires KeepsId(f)
    ensures forall i :: 0 <= i < |pages| ==> UpdatePageById(pages, id, f)[i].id == pages[i].id
  {
  }

  /** Apply `f` to the active page; nothing happens when no (truthy) id is active. */
  function UpdateActivePage(ws: Workspace, f: ValidPage -> ValidPage): (r: Workspace)
    ensures r.activePageId == ws.activePageId && r.settings == ws.settings
    ensures |r.pages| == |ws.pages|
    ensures ws.activePageId.None? ==> r == ws
  {
    if ws.activePageId.None? || ws.activePageId.value == "" then ws
    else ws.(pages := UpdatePageById(ws.pages, ws.activePageId.value, f))
  }

  /** Under the invariant, an id-preserving update of the active page turns
      the active page `p` into `f(p)` and leaves every other page alone. */
  lemma UpdateActivePageEffect(ws: Workspace, f: ValidPage -> ValidPage)
    requires Inv(ws) && ws.activePageId.Some? && KeepsId(f)
    ensures ActivePage(ws).Some?
    ensures ActivePage(UpdateActivePage(ws, f)) == Some(f(ActivePage(ws).value))
    ensures forall i :: 0 <= i < |ws.pages| && ws.pages[i].id != ws.activePageId.value ==>
      UpdateActivePage(ws, f).pages[i] == ws.pages[i]
    ensures Inv(UpdateActivePage(ws, f))
  {
    var a := ws.activePageId.value;
    var i :| 0 <= i < |ws.pages| && ws.pages[i].id == a;
    FindUnique(ws.pages, i);
    var r := UpdateActivePage(ws, f);
    UpdateActiveKeepsInv(ws, f);
    assert r.pages[i] == f(ws.pages[i]);
    FindUnique(r.pages, i);
  }

  /** An id-preserving update of the active page keeps the invariant. */
  lemma UpdateActiveKeepsInv(ws: Workspace, f: ValidPage -> ValidPage)
    requires Inv(ws) && KeepsId(f)
    ensures Inv(UpdateActivePage(ws, f))
  {
    if ws.activePageId.Some? && ws.activePageId.value != "" {
      var a := ws.activePageId.value;
      var r := UpdateActivePage(ws, f);
      UpdateKeepsIds(ws.pages, a, f);
      forall i, j | 0 <= i < j < |r.pages| ensures r.pages[i].id != r.pages[j].id {
        assert r.pages[i].id == ws.pages[i].id && r.pages[j].id == ws.pages[j].id;
      }
      var i :| 0 <= i < |ws.pages| && ws.pages[i].id == a;
      assert r.pages[i].id == a;
    }
  }

  /** The editor's list replaced wholesale (`handleTranslationChange`): the page
      carrying the active id gets the new list, every other page is kept. */
  function ChangeTranslations(ws: Workspace, items: Snapshot): (r: Workspace)
    ensures r.activePageId == ws.activePageId && r.settings == ws.settings
    ensures |r.pages| == |ws.pages|
    ensures forall i :: 0 <= i < |ws.pages| ==>
      r.pages[i] == (if ws.pages[i].id != "" && ws.activePageId == Some(ws.pages[i].id)
                     then SetTranslations(ws.pages[i], items) else ws.pages[i])
  {
    UpdateActivePage(ws, (p: ValidPage) => SetTranslations(p, items))
  }

  /** `handleHistoryCommit`: the page carrying the active id is committed. */
  function CommitActive(ws: Workspace): (r: Workspace)
    ensures r.activePageId == ws.activePageId && r.settings == ws.settings
    ensures |r.pages| == |ws.pages|
    ensures forall i :: 0 <= i < |ws.pages| ==>
      r.pages[i] == (if ws.pages[i].id != "" && ws.activePageId == Some(ws.pages[i].id)
                     then Commit(ws.pages[i]) else ws.pages[i])
  {
    UpdateActivePage(ws, Commit)
  }

  /** `handleUndo`: the page carrying the active id steps back. */
  function UndoActive(ws: Workspace): (r: Workspace)
    ensures r.activePageId == ws.activePageId && r.settings == ws.settings
    ensures |r.pages| == |ws.pages|
    ensures forall i :: 0 <= i < |ws.pages| ==>
      r.pages[i] == (if ws.pages[i].id != "" && ws.activePageId == Some(ws.pages[i].id)
                     then Undo(ws.pages[i]) else ws.pages[i])
  {
    UpdateActivePage(ws, Undo)
  }

  /** `handleRedo`: the page carrying the active id steps forward. */
  function RedoActive(ws: Workspace): (r: Workspace)
    ensures r.activePageId == ws.activePageId && r.settings == ws.settings
    ensures |r.pages| == |ws.pages|
    ensures forall i :: 0 <= i < |ws.pages| ==>
      r.pages[i] == (if ws.pages[i].id != "" && ws.activePageId == Some(ws.pages[i].id)
                     then Redo(ws.pages[i]) else ws.pages[i])
  {
    UpdateActivePage(ws, Redo)
  }

  /** The application's wiring of the history operations acts on the active
      page exactly as the page-level operations do. */
  lemma HistoryHandlersActOnActivePage(ws: Workspace, items: Snapshot)
    requires Inv(ws) && ws.activePageId.Some?
    ensures ActivePage(ws).Some?
    ensures ActivePage(ChangeTranslations(ws, items)) == Some(SetTranslations(ActivePage(ws).value, items))
    ensures ActivePage(CommitActive(ws)) == Some(Commit(ActivePage(ws).value))
    ensures ActivePage(UndoActive(ws)) == Some(Undo(ActivePage(ws).value))
    ensures ActivePage(RedoActive(ws)) == Some(Redo(ActivePage(ws).value))
  {
    UpdateActivePageEffect(ws, (p: ValidPage) => SetTranslations(p, items));
    UpdateActivePageEffect(ws, Commit);
    UpdateActivePageEffect(ws, Undo);
    UpdateActivePageEffect(ws, Redo);
  }

  /** A freshly uploaded page: analysing, empty list, history holding the
      empty list. */
  function NewPage(id: string, fileName: string, imageUrl: string): (p: ValidPage)
    ensures p.isAnalyzing && p.translations == [] && Committed(p)
    ensures p.history == [[]] && p.historyIndex == 0
    ensures p.id == id && p.fileName == fileName && p.imageUrl == imageUrl
  {
    Page(id, imageUrl, fileName, [], true, [[]], 0)
  }

  /** Upload: append the new page and make it active. */
  function AddPage(ws: Workspace, id: string, fileName: string, imageUrl: string): (r: Workspace)
    ensures r.pages == ws.pages + [NewPage(id, fileName, imageUrl)]
    ensures r.activePageId == Some(id) && r.settings == ws.settings
  {
    ws.(pages := ws.pages + [NewPage(id, fileName, imageUrl)], activePageId := Some(id))
  }

  /** With a fresh, non-empty id, uploading keeps the invariant and the new
      page is the one shown. */
  lemma AddPageKeepsInv(ws: Workspace, id: string, fileName: string, imageUrl: string)
    requires Inv(ws) && id != "" && !HasPage(ws.pages, id)
    ensures Inv(AddPage(ws, id, fileName, imageUrl))
    ensures ActivePage(AddPage(ws, id, fileName, imageUrl)) == Some(NewPage(id, fileName, imageUrl))
  {
    var r := AddPage(ws, id, fileName, imageUrl);
    assert r.pages[|ws.pages|].id == id;
    FindUnique(r.pages, |ws.pages|);
  }

  /** The page as a successful analysis leaves it: the result becomes the
      list and the only history entry. */
  function Analyzed(p: ValidPage, items: Snapshot): (r: ValidPage)
    ensures !r.isAnalyzing && r.translations == items
    ensures r.history == [items] && r.historyIndex == 0 && Committed(r)
    ensures r.id == p.id && r.fileName == p.fileName && r.imageUrl == p.imageUrl
  {
    p.(translations := items, isAnalyzing := false, history := [items], historyIndex := 0)
  }

  /** The page as a failed analysis leaves it: only the flag clears. */
  function AnalysisFailed(p: ValidPage): (r: ValidPage)
    ensures !r.isAnalyzing && r == p.(isAnalyzing := false)
  {
    p.(isAnalyzing := false)
  }

  /** The analysis of page `id` resolved with `outcome`. */
  function CompleteAnalysis(ws: Workspace, id: string, outcome: Result<Snapshot, AnalysisError>): (r: Workspace)
    ensures r.activePageId == ws.activePageId && r.settings == ws.settings
    ensures |r.pages| == |ws.pages|
    ensures forall i :: 0 <= i < |ws.pages| && ws.pages[i].id != id ==> r.pages[i] == ws.pages[i]
    ensures forall i :: 0 <= i < |ws.pages| && ws.pages[i].id == id ==>
      r.pages[i] == (if outcome.Success? then Analyzed(ws.pages[i], outcome.value)
                     else AnalysisFailed(ws.pages[i]))
  {
    match outcome
    case Success(items) => ws.(pages := UpdatePageById(ws.pages, id, (p: ValidPage) => Analyzed(p, items)))
    case Failure(_) => ws.(pages := UpdatePageById(ws.pages, id, AnalysisFailed))
  }

  lemma CompleteAnalysisKeepsInv(ws: Workspace, id: string, outcome: Result<Snapshot, AnalysisError>)
    requires Inv(ws)
    ensures Inv(CompleteAnalysis(ws, id, outcome))
  {
    var r := CompleteAnalysis(ws, id, outcome);
    assert forall i :: 0 <= i < |ws.pages| ==> r.pages[i].id == ws.pages[i].id;
    if ws.activePageId.Some? {
      var i :| 0 <= i < |ws.pages| && ws.pages[i].id == ws.activePageId.value;
      assert r.pages[i].id == ws.activePageId.value;
    }
  }

  /** A failed analysis of a new page leaves it at the empty placeholder,
      no longer analysing, and touches no other page. */
  lemma FailedAnalysisIsIsolated(ws: Workspace, id: string, fileName: string, imageUrl: string, e: AnalysisError)
    requires Inv(ws) && id != "" && !HasPage(ws.pages, id)
    ensures var r := CompleteAnalysis(AddPage(ws, id, fileName, imageUrl), id, Failure(e));
      && r.pages[..|ws.pages|] == ws.pages
      && r.pages[|ws.pages|] == NewPage(id, fileName, imageUrl).(isAnalyzing := false)
      && r.pages[|ws.pages|].translations == [] && r.pages[|ws.pages|].history == [[]]
  {
    var a := AddPage(ws, id, fileName, imageUrl);
    var r := CompleteAnalysis(a, id, Failure(e));
    assert forall i :: 0 <= i < |ws.pages| ==> a.pages[i] == ws.pages[i] && r.pages[i] == ws.pages[i];
  }

  /** Keeps the pages whose id is not `id`. */
  function OtherThan(id: string): ValidPage -> bool {
    (p: ValidPage) => p.id != id
  }

  /** After filtering out `id`, no page carries it. */
  lemma FilterRemovesId(pages: seq<ValidPage>, id: string)
    ensures !HasPage(Filter(pages, OtherThan(id)), id)
  {
    var remaining := Filter(pages, OtherThan(id));
    forall i | 0 <= i < |remaining| ensures remaining[i].id != id {
      assert remaining[i] in remaining;
      assert OtherThan(id)(remaining[i]);
    }
  }

  /** Delete page `id`. If it was active and pages remain, the last one
      becomes active; if none remain, none is active; otherwise the
      pointer is kept. */
  function DeletePage(ws: Workspace, id: string): (r: Workspace)
    ensures r.pages == Filter(ws.pages, OtherThan(id))
    ensures !HasPage(r.pages, id)
    ensures r.settings == ws.settings
    ensures ws.activePageId == Some(id) && |r.pages| > 0 ==>
      r.activePageId == Some(r.pages[|r.pages| - 1].id)
    ensures |r.pages| == 0 ==> r.activePageId.None?
    ensures ws.activePageId != Some(id) && |r.pages| > 0 ==> r.activePageId == ws.activePageId
  {
    var remaining := Filter(ws.pages, OtherThan(id));
    FilterRemovesId(ws.pages, id);
    var active :=
      if ws.activePageId == Some(id) && |remaining| > 0 then Some(remaining[|remaining| - 1].id)
      else if |remaining| == 0 then None
      else ws.activePageId;
    ws.(pages := remaining, activePageId := active)
  }

  /** Removing pages from a list with unique ids keeps them unique. */
  lemma {:induction false} FilterKeepsIdsUnique(pages: seq<ValidPage>, keep: ValidPage -> bool)
    requires IdsUnique(pages)
    ensures IdsUnique(Filter(pages, keep))
  {
    if |pages| > 0 {
      var tail := pages[1..];
      assert IdsUnique(tail) by {
        forall i, j | 0 <= i < j < |tail| ensures tail[i].id != tail[j].id {
          assert tail[i] == pages[i + 1] && tail[j] == pages[j + 1];
        }
      }
      FilterKeepsIdsUnique(tail, keep);
      var rest := Filter(tail, keep);
      if keep(pages[0]) {
        var r := [pages[0]] + rest;
        forall i, j | 0 <= i < j < |r| ensures r[i].id != r[j].id {
          if i == 0 {
            assert r[j] in tail;
            var k :| 0 <= k < |tail| && tail[k] == r[j];
            assert pages[k + 1] == r[j];
          }
        }
      }
    }
  }

  lemma DeletePageKeepsInv(ws: Workspace, id: string)
    requires Inv(ws)
    ensures Inv(DeletePage(ws, id))
  {
    var r := DeletePage(ws, id);
    FilterKeepsIdsUnique(ws.pages, OtherThan(id));
    forall i | 0 <= i < |r.pages| ensures r.pages[i].id != "" {
      assert r.pages[i] in ws.pages;
    }
    if r.activePageId.Some? {
      if ws.activePageId == Some(id) {
        assert r.pages[|r.pages| - 1].id == r.activePageId.value;
      } else {
        var a := ws.activePageId.value;
        var i :| 0 <= i < |ws.pages| && ws.pages[i].id == a;
        assert ws.pages[i] in r.pages;
      }
    }
  }

  /** Three pages, the third active: deleting it activates the second;
      deleting the remaining two leaves nothing active. */
  lemma DeleteActiveScenario(p1: ValidPage, p2: ValidPage, p3: ValidPage, s: Settings)
    requires p1.id != p2.id && p1.id != p3.id && p2.id != p3.id
    ensures DeletePage(Workspace([p1, p2, p3], Some(p3.id), s), p3.id).activePageId == Some(p2.id)
    ensures DeletePage(DeletePage(DeletePage(Workspace([p1, p2, p3], Some(p3.id), s), p3.id), p2.id), p1.id).activePageId.None?
  {
    var k3, k2, k1 := OtherThan(p3.id), OtherThan(p2.id), OtherThan(p1.id);
    assert Filter([p3], k3) == [] by { assert [p3][1..] == []; }
    assert Filter([p2, p3], k3) == [p2] by { assert [p2, p3][1..] == [p3]; }
    assert Filter([p1, p2, p3], k3) == [p1, p2] by { assert [p1, p2, p3][1..] == [p2, p3]; }
    assert Filter([p2], k2) == [] by { assert [p2][1..] == []; }
    assert Filter([p1, p2], k2) == [p1] by { assert [p1, p2][1..] == [p2]; }
    assert Filter([p1], k1) == [] by { assert [p1][1..] == []; }
  }

  /** A completion that arrives after its page was deleted changes nothing. */
  lemma CompletionAfterDeleteIsNoOp(ws: Workspace, id: string, outcome: Result<Snapshot, AnalysisError>)
    ensures CompleteAnalysis(DeletePage(ws, id), id, outcome) == DeletePage(ws, id)
  {
    var d := DeletePage(ws, id);
    var r := CompleteAnalysis(d, id, outcome);
    assert r.pages == d.pages;
  }

  /** Make page `id` active. The page navigator only offers ids of
      existing pages; no check is made here. */
  function SelectPage(ws: Workspace, id: string): (r: Workspace)
    ensures r.activePageId == Some(id) && r.pages == ws.pages && r.settings == ws.settings
  {
    ws.(activePageId := Some(id))
  }

  lemma SelectPageKeepsInv(ws: Workspace, id: string)
    requires Inv(ws) && HasPage(ws.pages, id)
    ensures Inv(SelectPage(ws, id))
    ensures ActivePage(SelectPage(ws, id)).Some? && ActivePage(SelectPage(ws, id)).value.id == id
  {
  }

  /** The page rebuilt from a persisted record: no image, the record's list
      as the list and the only history entry, not analysing. */
  function RestoredPage(rec: HistoryItem, id: string): (p: ValidPage)
    ensures p.id == id && p.imageUrl == "" && p.fileName == rec.fileName
    ensures !p.isAnalyzing && p.translations == rec.translations
    ensures p.history == [rec.translations] && p.historyIndex == 0 && Committed(p)
  {
    Page(id, "", rec.fileName, rec.translations, false, [rec.translations], 0)
  }

  /** Restore a persisted record as a new active page and adopt its genre. */
  function RestoreRecord(ws: Workspace, rec: HistoryItem, id: string): (r: Workspace)
    ensures r.pages == ws.pages + [RestoredPage(rec, id)]
    ensures r.activePageId == Some(id)
    ensures r.settings == ws.settings.(genre := rec.genre)
  {
    Workspace(ws.pages + [RestoredPage(rec, id)], Some(id), ws.settings.(genre := rec.genre))
  }

  lemma RestoreRecordKeepsInv(ws: Workspace, rec: HistoryItem, id: string)
    requires Inv(ws) && id != "" && !HasPage(ws.pages, id)
    ensures Inv(RestoreRecord(ws, rec, id))
    ensures ActivePage(RestoreRecord(ws, rec, id)) == Some(RestoredPage(rec, id))
  {
    var r := RestoreRecord(ws, rec, id);
    assert r.pages[|ws.pages|].id == id;
    FindUnique(r.pages, |ws.pages|);
  }
}
