/** The per-page linear undo/redo log. A page's `history` is a list of full
    snapshots of its translation list and `historyIndex` is the cursor.
    Commit checkpoints the current list (dropping any redo branch and
    evicting the oldest snapshot beyond 50); undo and redo move the cursor
    and replace the whole list with the snapshot under it. */
module PageHistory {
  import opened Types
  import opened Seqs

  /** The visible list equals the snapshot under the cursor. */
  predicate Committed(p: ValidPage) {
    p.translations == p.history[p.historyIndex]
  }

  /** What enables the undo button and shortcut. */
  predicate CanUndo(p: ValidPage) {
    p.historyIndex > 0
  }

  /** What enables the redo button and shortcut. */
  predicate CanRedo(p: ValidPage) {
    p.historyIndex < |p.history| - 1
  }

  /** Checkpoint the current list. */
  function Commit(p: ValidPage): (r: ValidPage)
    // only the log changes; the list is kept and now sits under the cursor
    ensures r == p.(history := r.history, historyIndex := r.historyIndex)
    ensures Committed(r)
    // an unchanged list records nothing
    ensures Committed(p) ==> r == p
    // otherwise the new snapshot is the tail, the redo branch is gone, and
    // what precedes it is the most recent part of the history up to the cursor
    ensures !Committed(p) ==>
      && r.historyIndex == |r.history| - 1
      && |r.history| == Min(p.historyIndex + 2, MaxHistory)
      && IsSuffix(r.history[..r.historyIndex], p.history[..p.historyIndex + 1])
      && r.history == LastN(p.history[..p.historyIndex + 1] + [p.translations], MaxHistory)
  {
    if p.translations == p.history[p.historyIndex] then p
    else
      var kept := p.history[..p.historyIndex + 1];
      var appended := kept + [p.translations];
      var capped := if |appended| > MaxHistory then appended[1..] else appended;
      assert capped == LastN(appended, MaxHistory);
      assert capped[..|capped| - 1] == (if |appended| > MaxHistory then kept[1..] else kept);
      p.(history := capped, historyIndex := |capped| - 1)
  }

  /** Step the cursor back, showing the previous snapshot. */
  function Undo(p: ValidPage): (r: ValidPage)
    ensures r.history == p.history
    ensures r == p.(historyIndex := r.historyIndex, translations := r.translations)
    ensures !CanUndo(p) ==> r == p
    ensures CanUndo(p) ==> r.historyIndex == p.historyIndex - 1 && Committed(r)
  {
    if p.historyIndex <= 0 then p
    else
      var newIndex := p.historyIndex - 1;
      p.(historyIndex := newIndex, translations := p.history[newIndex])
  }

  /** Step the cursor forward, showing the next snapshot. */
  function Redo(p: ValidPage): (r: ValidPage)
    ensures r.history == p.history
    ensures r == p.(historyIndex := r.historyIndex, translations := r.translations)
    ensures !CanRedo(p) ==> r == p
    ensures CanRedo(p) ==> r.historyIndex == p.historyIndex + 1 && Committed(r)
  {
    if p.historyIndex >= |p.history| - 1 then p
    else
      var newIndex := p.historyIndex + 1;
      p.(historyIndex := newIndex, translations := p.history[newIndex])
  }

  /** Replace the visible list without touching the log (a keystroke). */
  function SetTranslations(p: ValidPage, items: Snapshot): (r: ValidPage)
    ensures r.translations == items
    ensures r.history == p.history && r.historyIndex == p.historyIndex
    ensures r == p.(translations := items)
  {
    p.(translations := items)
  }

  /** Committing twice in a row records at most one snapshot. */
  lemma CommitIdempotent(p: ValidPage)
    ensures Commit(Commit(p)) == Commit(p)
    ensures |Commit(Commit(p)).history| == |Commit(p).history|
  {
  }

  /** A commit that records something leaves nothing to redo. */
  lemma RedoAfterCommitIsNoOp(p: ValidPage)
    requires !Committed(p)
    ensures !CanRedo(Commit(p))
    ensures Redo(Commit(p)) == Commit(p)
  {
  }

  /** Undo then redo comes back to the same cursor and snapshot; on a
      committed page it is the identity. */
  lemma UndoThenRedo(p: ValidPage)
    requires CanUndo(p)
    ensures Redo(Undo(p)).historyIndex == p.historyIndex
    ensures Redo(Undo(p)).translations == p.history[p.historyIndex]
    ensures Committed(p) ==> Redo(Undo(p)) == p
  {
  }

  /** Redo then undo comes back to the same cursor and snapshot; on a
      committed page it is the identity. */
  lemma RedoThenUndo(p: ValidPage)
    requires CanRedo(p)
    ensures Undo(Redo(p)).historyIndex == p.historyIndex
    ensures Undo(Redo(p)).translations == p.history[p.historyIndex]
    ensures Committed(p) ==> Undo(Redo(p)) == p
  {
  }

  /** Undo right after a commit that recorded something shows the snapshot
      that was under the cursor before the change. */
  lemma UndoAfterCommit(p: ValidPage)
    requires !Committed(p)
    ensures CanUndo(Commit(p))
    ensures Undo(Commit(p)).translations == p.history[p.historyIndex]
  {
    var r := Commit(p);
    assert r.history[r.historyIndex - 1] == p.history[p.historyIndex];
  }

  /** With history `h` (cursor at the tail), undoing and then committing a
      new list `d` replaces the last snapshot by `d`: the undone branch is
      discarded and cannot be redone. */
  lemma RedoBranchDiscarded(p: ValidPage, d: Snapshot)
    requires Committed(p) && p.historyIndex == |p.history| - 1 && CanUndo(p)
    requires d != p.history[p.historyIndex - 1]
    ensures Commit(SetTranslations(Undo(p), d)).history == p.history[..|p.history| - 1] + [d]
    ensures Commit(SetTranslations(Undo(p), d)).historyIndex == |p.history| - 1
    ensures Redo(Commit(SetTranslations(Undo(p), d))) == Commit(SetTranslations(Undo(p), d))
  {
    var u := SetTranslations(Undo(p), d);
    assert u.history[..u.historyIndex + 1] == p.history[..|p.history| - 1];
  }

  /** Type a list in and commit it, for each list in order. */
  function EditAndCommitAll(p: ValidPage, lists: seq<Snapshot>): (r: ValidPage)
    ensures r.id == p.id && r.fileName == p.fileName && r.isAnalyzing == p.isAnalyzing
    ensures |lists| > 0 ==> r.translations == lists[|lists| - 1]
    decreases |lists|
  {
    if |lists| == 0 then p
    else EditAndCommitAll(Commit(SetTranslations(p, lists[0])), lists[1..])
  }

  /** Each list differs from the one visible just before it. */
  predicate ChangesEachTime(first: Snapshot, lists: seq<Snapshot>) {
    && (|lists| > 0 ==> lists[0] != first)
    && forall i :: 0 < i < |lists| ==> lists[i] != lists[i - 1]
  }

  /** One changed list committed at the tail extends the history by it,
      evicting the oldest snapshot beyond the cap. */
  lemma CommitAtTail(p: ValidPage, d: Snapshot)
    requires Committed(p) && p.historyIndex == |p.history| - 1
    requires d != p.translations
    ensures Commit(SetTranslations(p, d)).history == LastN(p.history + [d], MaxHistory)
    ensures Commit(SetTranslations(p, d)).historyIndex == |Commit(SetTranslations(p, d)).history| - 1
    ensures Committed(Commit(SetTranslations(p, d)))
  {
    var q0 := SetTranslations(p, d);
    assert q0.history[..q0.historyIndex + 1] == p.history;
  }

  /** The capacity law: committing a run of changed lists onto a page whose
      cursor is at the tail keeps exactly the most recent 50 snapshots, in
      order, with the cursor on the newest. */
  lemma {:induction false} CommitRunKeepsNewest(p: ValidPage, lists: seq<Snapshot>)
    requires Committed(p) && p.historyIndex == |p.history| - 1
    requires ChangesEachTime(p.translations, lists)
    ensures EditAndCommitAll(p, lists).history == LastN(p.history + lists, MaxHistory)
    ensures EditAndCommitAll(p, lists).historyIndex == |EditAndCommitAll(p, lists).history| - 1
    decreases |lists|
  {
    if |lists| == 0 {
      assert p.history + lists == p.history;
    } else {
      var q := Commit(SetTranslations(p, lists[0]));
      var rest := lists[1..];
      CommitAtTail(p, lists[0]);
      ChangesEachTimeTail(p.translations, lists);
      CommitRunKeepsNewest(q, rest);
      assert EditAndCommitAll(p, lists) == EditAndCommitAll(q, rest);
      KeepNewestStep(p.history, lists, q.history, EditAndCommitAll(q, rest).history);
    }
  }

  /** Capping after each appended snapshot is capping once at the end. */
  lemma KeepNewestStep(h: seq<Snapshot>, lists: seq<Snapshot>, q: seq<Snapshot>, f: seq<Snapshot>)
    requires |lists| > 0
    requires q == LastN(h + [lists[0]], MaxHistory)
    requires f == LastN(q + lists[1..], MaxHistory)
    ensures f == LastN(h + lists, MaxHistory)
  {
    LastNAppend(h + [lists[0]], lists[1..], MaxHistory);
    assert h + [lists[0]] + lists[1..] == h + lists;
  }

  /** After the first list, the rest still changes each time. */
  lemma ChangesEachTimeTail(first: Snapshot, lists: seq<Snapshot>)
    requires |lists| > 0 && ChangesEachTime(first, lists)
    ensures ChangesEachTime(lists[0], lists[1..])
  {
    var rest := lists[1..];
    forall i | 0 < i < |rest| ensures rest[i] != rest[i - 1] {
      assert rest[i] == lists[i + 1] && rest[i - 1] == lists[i];
    }
  }

  /** Sixty distinct edits on a freshly analysed page leave exactly fifty
      snapshots: the newest fifty, in order. */
  lemma SixtyCommitsKeepFifty(p: ValidPage, lists: seq<Snapshot>)
    requires |p.history| == 1 && Committed(p)
    requires |lists| == 60 && ChangesEachTime(p.translations, lists)
    ensures |EditAndCommitAll(p, lists).history| == 50
    ensures EditAndCommitAll(p, lists).history == lists[10..]
  {
    CommitRunKeepsNewest(p, lists);
    var all := p.history + lists;
    assert |all| == 61;
    assert LastN(all, MaxHistory) == all[11..];
    assert all[11..] == lists[10..];
  }
}
