/** The translation editor: per-item edits addressed by item id, the two
    commit policies (typing changes the list only and is checkpointed when
    the field loses focus; a tone change or a deletion is checkpointed at
    once), and the undo/redo keyboard shortcut decision. */
module Editor {
  import opened Wrappers
  import opened Types
  import opened Seqs
  import opened PageHistory

  /** Every item carrying `id` gets translated text `text`. */
  function SetText(items: Snapshot, id: int, text: string): (r: Snapshot)
    ensures |r| == |items|
    ensures forall i :: 0 <= i < |items| ==>
      && r[i].id == items[i].id && r[i].originalText == items[i].originalText
      && r[i].kind == items[i].kind && r[i].tone == items[i].tone && r[i].notes == items[i].notes
      && r[i].translatedText == (if items[i].id == id then text else items[i].translatedText)
  {
    seq(|items|, i requires 0 <= i < |items| =>
      if items[i].id == id then items[i].(translatedText := text) else items[i])
  }

  /** Every item carrying `id` gets tone `tone`. */
  function SetTone(items: Snapshot, id: int, tone: ToneType): (r: Snapshot)
    ensures |r| == |items|
    ensures forall i :: 0 <= i < |items| ==>
      && r[i].id == items[i].id && r[i].originalText == items[i].originalText
      && r[i].kind == items[i].kind && r[i].translatedText == items[i].translatedText
      && r[i].notes == items[i].notes
      && r[i].tone == (if items[i].id == id then tone else items[i].tone)
  {
    seq(|items|, i requires 0 <= i < |items| =>
      if items[i].id == id then items[i].(tone := tone) else items[i])
  }

  /** Drop every item carrying `id`, keeping the others in order; the
      result may be empty. */
  function RemoveItem(items: Snapshot, id: int): (r: Snapshot)
    ensures forall x :: x in r <==> x in items && x.id != id
    ensures IsSubsequence(r, items)
    ensures forall x: Item :: x.id != id ==> multiset(r)[x] == multiset(items)[x]
  {
    Filter(items, (x: Item) => x.id != id)
  }

  /** A keystroke in an item's text field: the list changes, the history
      does not. */
  function TypeText(p: ValidPage, id: int, text: string): (r: ValidPage)
    ensures r.history == p.history && r.historyIndex == p.historyIndex
    ensures r.translations == SetText(p.translations, id, text)
    ensures r == p.(translations := r.translations)
  {
    SetTranslations(p, SetText(p.translations, id, text))
  }

  /** The text field loses focus: checkpoint whatever was typed. */
  function Blur(p: ValidPage): (r: ValidPage)
    ensures r.translations == p.translations
    ensures r == p.(translations := r.translations, history := r.history, historyIndex := r.historyIndex)
    ensures Committed(r)
    // a list equal to the snapshot under the cursor records nothing
    ensures r.translations == p.history[p.historyIndex] ==>
      r.history == p.history && r.historyIndex == p.historyIndex
    // otherwise the redo branch is dropped, the list appended, and the
    // newest 50 snapshots kept, with the cursor on the new one
    ensures r.translations != p.history[p.historyIndex] ==>
      && r.history == LastN(p.history[..p.historyIndex + 1] + [r.translations], MaxHistory)
      && r.historyIndex == |r.history| - 1
  {
    Commit(p)
  }

  /** A tone change is applied and checkpointed in one step. */
  function ChangeTone(p: ValidPage, id: int, tone: ToneType): (r: ValidPage)
    ensures r.translations == SetTone(p.translations, id, tone)
    ensures r == p.(translations := r.translations, history := r.history, historyIndex := r.historyIndex)
    ensures Committed(r)
    // a list equal to the snapshot under the cursor records nothing
    ensures r.translations == p.history[p.historyIndex] ==>
      r.history == p.history && r.historyIndex == p.historyIndex
    // otherwise the redo branch is dropped, the list appended, and the
    // newest 50 snapshots kept, with the cursor on the new one
    ensures r.translations != p.history[p.historyIndex] ==>
      && r.history == LastN(p.history[..p.historyIndex + 1] + [r.translations], MaxHistory)
      && r.historyIndex == |r.history| - 1
  {
    Commit(SetTranslations(p, SetTone(p.translations, id, tone)))
  }

  /** A deletion is applied and checkpointed in one step. */
  function DeleteItem(p: ValidPage, id: int): (r: ValidPage)
    ensures r.translations == RemoveItem(p.translations, id)
    ensures r == p.(translations := r.translations, history := r.history, historyIndex := r.historyIndex)
    ensures Committed(r)
    // a list equal to the snapshot under the cursor records nothing
    ensures r.translations == p.history[p.historyIndex] ==>
      r.history == p.history && r.historyIndex == p.historyIndex
    // otherwise the redo branch is dropped, the list appended, and the
    // newest 50 snapshots kept, with the cursor on the new one
    ensures r.translations != p.history[p.historyIndex] ==>
      && r.history == LastN(p.history[..p.historyIndex + 1] + [r.translations], MaxHistory)
      && r.historyIndex == |r.history| - 1
  {
    Commit(SetTranslations(p, RemoveItem(p.translations, id)))
  }

  /** Typing never records history, however many keystrokes; only the blur
      that ends the session may record, and then exactly one snapshot: the
      final text, after the snapshots up to the cursor. With the cursor at
      the tail and room left, that is the old history plus the final text. */
  lemma TypingCommitsOnlyOnBlur(p: ValidPage, id: int, texts: seq<string>)
    ensures TypeAll(p, id, texts).history == p.history
    ensures TypeAll(p, id, texts).historyIndex == p.historyIndex
    ensures var t := TypeAll(p, id, texts); var b := Blur(t);
      && (t.translations == p.history[p.historyIndex] ==>
            b.history == p.history && b.historyIndex == p.historyIndex)
      && (t.translations != p.history[p.historyIndex] ==>
            b.history == LastN(p.history[..p.historyIndex + 1] + [t.translations], MaxHistory)
            && b.historyIndex == |b.history| - 1)
    ensures p.historyIndex == |p.history| - 1 && |p.history| < MaxHistory ==>
      var b := Blur(TypeAll(p, id, texts));
      b.history == p.history || b.history == p.history + [TypeAll(p, id, texts).translations]
  {
    TypeAllKeepsHistory(p, id, texts);
    var t := TypeAll(p, id, texts);
    if p.historyIndex == |p.history| - 1 {
      assert t.history[..t.historyIndex + 1] == p.history;
    }
  }

  /** A run of keystrokes into one field. */
  function TypeAll(p: ValidPage, id: int, texts: seq<string>): ValidPage
    decreases |texts|
  {
    if |texts| == 0 then p else TypeAll(TypeText(p, id, texts[0]), id, texts[1..])
  }

  lemma {:induction false} TypeAllKeepsHistory(p: ValidPage, id: int, texts: seq<string>)
    ensures TypeAll(p, id, texts).history == p.history
    ensures TypeAll(p, id, texts).historyIndex == p.historyIndex
    decreases |texts|
  {
    if |texts| > 0 {
      TypeAllKeepsHistory(TypeText(p, id, texts[0]), id, texts[1..]);
    }
  }

  /** A tone change that alters the list is independently undoable: undo
      brings back exactly the list before the change. */
  lemma ToneChangeIsUndoable(p: ValidPage, id: int, tone: ToneType)
    requires Committed(p) && SetTone(p.translations, id, tone) != p.translations
    ensures CanUndo(ChangeTone(p, id, tone))
    ensures Undo(ChangeTone(p, id, tone)).translations == p.translations
  {
    UndoAfterCommit(SetTranslations(p, SetTone(p.translations, id, tone)));
  }

  /** Deleting an item that is present is independently undoable. */
  lemma DeleteIsUndoable(p: ValidPage, id: int)
    requires Committed(p) && exists i :: 0 <= i < |p.translations| && p.translations[i].id == id
    ensures CanUndo(DeleteItem(p, id))
    ensures Undo(DeleteItem(p, id)).translations == p.translations
  {
    var i :| 0 <= i < |p.translations| && p.translations[i].id == id;
    assert p.translations[i] !in RemoveItem(p.translations, id);
    UndoAfterCommit(SetTranslations(p, RemoveItem(p.translations, id)));
  }

  datatype Shortcut = UndoShortcut | RedoShortcut | NoShortcut

  /** What a key press leads to: an action and whether the browser's own
      handling is suppressed. */
  datatype KeyOutcome = KeyOutcome(action: Shortcut, preventDefault: bool)

  datatype KeyPress = KeyPress(key: string, ctrl: bool, meta: bool, shift: bool)

  /** Text fields keep the browser's native undo. */
  predicate InTextField(focusedTag: Option<string>) {
    focusedTag == Some("TEXTAREA") || focusedTag == Some("INPUT")
  }

  /** Ctrl/Cmd+Z undoes, Ctrl/Cmd+Shift+Z and Ctrl/Cmd+Y redo, each only
      when enabled, and never while a text field has focus. `lower` is the
      platform's lower-casing of the key name. */
  function DecideShortcut(e: KeyPress, lower: string -> string, focusedTag: Option<string>,
                          canUndo: bool, canRedo: bool): (r: KeyOutcome)
    ensures r.action == UndoShortcut <==>
      (e.ctrl || e.meta) && lower(e.key) == "z" && !InTextField(focusedTag) && !e.shift && canUndo
    ensures r.action == RedoShortcut <==>
      && (e.ctrl || e.meta) && !InTextField(focusedTag) && canRedo
      && ((lower(e.key) == "z" && e.shift) || lower(e.key) == "y")
    ensures r.preventDefault <==>
      (e.ctrl || e.meta) && (lower(e.key) == "z" || lower(e.key) == "y") && !InTextField(focusedTag)
  {
    var modifier := e.ctrl || e.meta;
    var key := lower(e.key);
    if modifier && key == "z" then
      if InTextField(focusedTag) then KeyOutcome(NoShortcut, false)
      else if e.shift then KeyOutcome(if canRedo then RedoShortcut else NoShortcut, true)
      else KeyOutcome(if canUndo then UndoShortcut else NoShortcut, true)
    else if modifier && key == "y" then
      if InTextField(focusedTag) then KeyOutcome(NoShortcut, false)
      else KeyOutcome(if canRedo then RedoShortcut else NoShortcut, true)
    else KeyOutcome(NoShortcut, false)
  }

  /** A key press on the editor of page `p`: the decided undo moves back one
      snapshot, the decided redo forward one, and anything else leaves the
      page as it is. */
  function HandleKey(p: ValidPage, e: KeyPress, lower: string -> string, focusedTag: Option<string>): (r: ValidPage)
    ensures InTextField(focusedTag) ==> r == p
    ensures r.history == p.history
    ensures r == p.(historyIndex := r.historyIndex, translations := r.translations)
    ensures var a := DecideShortcut(e, lower, focusedTag, CanUndo(p), CanRedo(p)).action;
      && (a == UndoShortcut ==>
            r.historyIndex == p.historyIndex - 1 && r.translations == p.history[p.historyIndex - 1])
      && (a == RedoShortcut ==>
            r.historyIndex == p.historyIndex + 1 && r.translations == p.history[p.historyIndex + 1])
      && (a == NoShortcut ==> r == p)
  {
    match DecideShortcut(e, lower, focusedTag, CanUndo(p), CanRedo(p)).action
    case UndoShortcut => Undo(p)
    case RedoShortcut => Redo(p)
    case NoShortcut => p
  }

  /** A shortcut that fires moves the cursor by exactly one, in the
      direction of its key: back for Z without Shift, forward for Shift+Z
      and for Y. The list shown is then the snapshot under the cursor. */
  lemma ShortcutNeverIdle(p: ValidPage, e: KeyPress, lower: string -> string, focusedTag: Option<string>)
    requires DecideShortcut(e, lower, focusedTag, CanUndo(p), CanRedo(p)).action != NoShortcut
    ensures lower(e.key) == "z" && !e.shift ==>
      HandleKey(p, e, lower, focusedTag).historyIndex == p.historyIndex - 1
    ensures lower(e.key) == "y" || (lower(e.key) == "z" && e.shift) ==>
      HandleKey(p, e, lower, focusedTag).historyIndex == p.historyIndex + 1
    ensures Committed(HandleKey(p, e, lower, focusedTag))
  {
  }
}
