# ManhuaMate AI: page-editing state, in Dafny

ManhuaMate AI is a browser app for translating manhua (comic) pages. A user
uploads page images. A remote model proposes a list of translation items per
page: speech bubbles, thoughts, sound effects and narration. The user then
edits the list, with per-page undo and redo, and exports all pages to a Word
document. The work is auto-saved into a bounded list of records in browser
storage. A history panel restores, deletes and lists those records.

This project models that behaviour as immutable datatypes and pure functions:

- `types.dfy` (module `Types`) holds the records and enumerations:
  - translation items, glossary entries, project settings, saved records and pages;
  - `ValidPage`, a page whose history is non-empty, holds at most 50
    snapshots, and has its cursor in range.
- `history.dfy` (module `PageHistory`) is the per-page linear undo/redo log:
  commit, undo and redo, with the 50-snapshot cap.
- `workspace.dfy` (module `Workspace`) holds the page collection and the
  active-page pointer. It covers:
  - the updaters that route an edit to one page;
  - upload, then analysis completion or failure;
  - restore from a record, select, and delete.
- `editor.dfy` (module `Editor`) covers:
  - per-item edits: text, tone, delete;
  - the two commit policies: typing is checkpointed on blur, while tone
    changes and deletions are checkpointed at once;
  - the Ctrl/Cmd+Z, Ctrl/Cmd+Shift+Z and Ctrl/Cmd+Y shortcut decision.
- `settings.dfy` (module `Settings`) covers:
  - glossary add, remove and search;
  - the genre selector;
  - the API-key field;
  - the rule for which key an analysis uses.
- `autosave.dfy` (module `AutoSave`) covers the save guard, the bounded
  upsert into the record list, and the two-second debounce. The debounce runs
  as a state machine on a logical clock.
- `historypanel.dfy` (module `HistoryPanel`) covers the history panel's
  load, delete and write-back, its newest-first display order, and restore.
- `export.dfy` (module `Export`) gives the export document as an abstract
  paragraph sequence, plus the name of the downloaded file.
- `seqs.dfy` and `wrappers.dfy` are shared helpers:
  - `Filter` mirrors JavaScript's `Array.prototype.filter`;
  - `LastN` gives the last n elements;
  - `Contains` mirrors `String.prototype.includes`;
  - `Concat` lays blocks end to end. The export's page layout is built with it;
  - `Option` and `Result` types.

Some inputs come from outside and become parameters of the model:

- the clock, the random generator, object URLs and analysis results;
- JSON encoding and decoding of the stored record list (`encode`, `parse`);
- `String.prototype.toLowerCase` (`lower`);
- which element has focus.

Browser storage is represented by its value. For the record list that is the
decoded list in the auto-saver, and the encoded string in the history panel.
In the app both are the same storage key. The panel keeps the list it read
when it opened and writes that copy back on delete. So a record that
auto-save writes while the panel is open is lost at the panel's next delete.
`HistoryPanel.DeleteDropsLaterSave` states this overwrite.

Points where the model follows the code:

- `Workspace.SelectPage` sets the active id without checking that a page
  carries it. The navigator only offers ids that exist, so the invariant
  lemma takes that as a precondition.
- `Workspace.DeletePage` does not release the deleted page's object URL. The
  code does not do so either.
- `Workspace.UpdateActivePage` does nothing when the active id is missing or
  is the empty string. This is JavaScript truthiness.
- The history panel sorts its own list in place while rendering, with
  `Array.prototype.sort`. So the list that a later delete filters and writes
  back is the sorted one. `HistoryPanel.Render` models this, and
  `HistoryPanel.DeleteAfterRenderPersistsSorted` states the consequence.
- Undo replaces the visible list with the snapshot under the new cursor.
  Typing that was never committed is therefore lost. "Undo then redo gives
  the list back" holds for a committed page; for any other page, undo then
  redo gives back the snapshot at the cursor (`PageHistory.UndoThenRedo`).
- Auto-save parses the stored list without a guard. A stored value that does
  not parse makes the timed save throw, so it is not recovered as an empty
  list. The model keeps the decoded list only (see Left out).

## Model

| member | source | states |
|---|---|---|
| Types.AllTranslationTypes | types.ts:2-8 | An item kind is exactly one of five distinct values. |
| Types.AllTones | types.ts:10-15 | A tone is exactly one of four distinct values. These are the tone selector's options. |
| Types.AllGenres | types.ts:17-27 | A genre is exactly one of nine distinct values. |
| PageHistory.Commit | App.tsx:128-148 | After a commit the visible list is the snapshot under the cursor, and nothing but the log moves. If the list already equals the current snapshot, the page is unchanged. Otherwise the redo branch is dropped and the list appended. At most the last 50 snapshots are kept, the oldest evicted first, and the cursor is on the newest. |
| PageHistory.Undo | App.tsx:150-160 | At the first snapshot nothing changes. Otherwise the cursor moves back by one and the list becomes that snapshot. The log itself is unchanged. |
| PageHistory.Redo | App.tsx:162-172 | At the last snapshot nothing changes. Otherwise the cursor moves forward by one and the list becomes that snapshot. The log itself is unchanged. |
| PageHistory.SetTranslations | App.tsx:121-126 | Replacing the list leaves the log and the cursor untouched. |
| PageHistory.CommitIdempotent | App.tsx:129-134 | A second commit in a row changes nothing, so the history length stays the same. |
| PageHistory.RedoAfterCommitIsNoOp | App.tsx:136-145 | After a commit that records something, redo is disabled and does nothing. |
| PageHistory.UndoAfterCommit | App.tsx:128-160 | Right after a commit that records something, undo is enabled and brings back the snapshot that was under the cursor before the change. |
| PageHistory.UndoThenRedo | App.tsx:150-172 | Undo then redo returns to the same cursor and the snapshot under it. On a committed page this is the identity. |
| PageHistory.RedoThenUndo | App.tsx:150-172 | Redo then undo returns to the same cursor and the snapshot under it. On a committed page this is the identity. |
| PageHistory.RedoBranchDiscarded | App.tsx:136-146 | Take history [..., B, C] with the cursor on C. Undo, then commit D: the history is [..., B, D], the cursor is on D, and redo does nothing. |
| PageHistory.EditAndCommitAll | App.tsx:121-148 | After a run of edits, each committed, the page shows the last list and keeps its identity. |
| PageHistory.CommitAtTail | App.tsx:136-146 | With the cursor at the tail, committing a changed list gives the last 50 of the old history plus that list. |
| PageHistory.CommitRunKeepsNewest | App.tsx:136-146 | Commit any run of lists, each differing from the one before. The history is then exactly the newest 50 of the old history followed by the run, in order, with the cursor on the newest. |
| PageHistory.SixtyCommitsKeepFifty | App.tsx:139-140 | Sixty distinct commits on a freshly analysed page leave exactly the last fifty lists. |
| Workspace.FindPage | App.tsx:106 | The lookup finds a page iff some page carries the id, and what it returns is such a page. |
| Workspace.FindUnique | App.tsx:106 | With unique ids, looking up page i's id returns page i. |
| Workspace.ActivePage | App.tsx:106 | A page is active iff an active id is set and some page carries it. The active page is then one of the pages and carries that id. |
| Workspace.UpdatePageById | App.tsx:114-117 | Pages carrying the id are replaced by the updater's result. Every other page and the order are kept. |
| Workspace.UpdateMissingIsNoOp | App.tsx:115-116 | Updating an id that no page carries changes nothing. |
| Workspace.UpdateKeepsIds | App.tsx:115-116 | An update that keeps ids keeps every page's id in its position. |
| Workspace.UpdateActivePage | App.tsx:109-112 | With no active id, nothing happens. The active pointer, the settings and the page count never change. |
| Workspace.UpdateActivePageEffect | App.tsx:109-112 | Under the collection invariant, the active page p becomes f(p). Every other page is unchanged and the invariant still holds. |
| Workspace.UpdateActiveKeepsInv | App.tsx:109-117 | An update of the active page that keeps page ids keeps the ids unique and non-empty and the active pointer on an existing page. |
| Workspace.ChangeTranslations | App.tsx:121-126 | The page carrying the non-empty active id gets the new list. Every other page, the active pointer and the settings are kept. `Workspace.HistoryHandlersActOnActivePage` states the effect on the active page. |
| Workspace.CommitActive | App.tsx:128-148 | The page carrying the non-empty active id is committed. Every other page, the active pointer and the settings are kept. |
| Workspace.UndoActive | App.tsx:150-160 | The page carrying the non-empty active id steps back one snapshot. Every other page, the active pointer and the settings are kept. |
| Workspace.RedoActive | App.tsx:162-172 | The page carrying the non-empty active id steps forward one snapshot. Every other page, the active pointer and the settings are kept. |
| Workspace.HistoryHandlersActOnActivePage | App.tsx:121-172 | The app's change, commit, undo and redo handlers each apply the page-level operation to the active page. |
| Workspace.NewPage | App.tsx:219-227 | A new page is analysing, its list is empty, and its history holds only the empty list. |
| Workspace.AddPage | App.tsx:229-231 | The new page is appended last and becomes the active page. |
| Workspace.AddPageKeepsInv | App.tsx:215-231 | A fresh, non-empty id keeps the invariant, and the shown page is the new one. |
| Workspace.Analyzed | App.tsx:239-245 | On success the result becomes the list and the only history entry, with the cursor at 0. The page is no longer analysing, and its identity is kept. |
| Workspace.AnalysisFailed | App.tsx:246-248 | On failure only the analysing flag clears. |
| Workspace.CompleteAnalysis | App.tsx:237-248 | The completion changes only pages carrying the id: the success result on success, the cleared flag on failure. |
| Workspace.CompleteAnalysisKeepsInv | App.tsx:237-248 | Completing an analysis keeps the collection invariant. |
| Workspace.FailedAnalysisIsIsolated | App.tsx:246-248 | After an upload whose analysis fails, the earlier pages are unchanged. The new page is the empty placeholder, no longer analysing. |
| Workspace.DeletePage | App.tsx:372-382 | Delete removes every page with the id and keeps the order of the rest. If the active page was deleted and pages remain, the last remaining page becomes active. If no pages remain, none is active. Otherwise the pointer is kept. |
| Workspace.FilterKeepsIdsUnique | App.tsx:374 | Removing pages keeps ids unique. |
| Workspace.DeletePageKeepsInv | App.tsx:372-382 | Deleting keeps the collection invariant. |
| Workspace.DeleteActiveScenario | App.tsx:372-382 | Take three pages with the third active. Deleting the third activates the second. Deleting the rest leaves nothing active. |
| Workspace.CompletionAfterDeleteIsNoOp | App.tsx:115-116 | An analysis that completes after its page was deleted changes nothing. |
| Workspace.SelectPage | App.tsx:455 | Selecting sets the active id and touches nothing else. |
| Workspace.SelectPageKeepsInv | App.tsx:455 | Selecting an existing page keeps the invariant and shows that page. |
| Workspace.RestoredPage | App.tsx:356-364 | A restored page has no image and is not analysing. Its list, and its only history entry, are the record's list, with the record's file name. |
| Workspace.RestoreRecord | App.tsx:352-370 | The restored page is appended and made active, and the genre becomes the record's genre. |
| Workspace.RestoreRecordKeepsInv | App.tsx:352-370 | A fresh id keeps the invariant, and the shown page is the restored one. |
| Editor.SetText | components/Editor.tsx:65-68 | Only translatedText of items with the id changes. The length, the order and every other field are kept. |
| Editor.SetTone | components/Editor.tsx:70-72 | Only the tone of items with the id changes. The length, the order and every other field are kept. |
| Editor.RemoveItem | components/Editor.tsx:77-79 | Exactly the items with the id are removed, each other item remains as often as before and in order, and the result may be empty. |
| Editor.TypeText | components/Editor.tsx:65-68 | A keystroke changes the list as SetText does and leaves the history and cursor alone. |
| Editor.Blur | components/Editor.tsx:156 | Leaving a text field checkpoints the list as it is. The page's id, name, image and analysing flag are kept. If the list equals the snapshot under the cursor, the log and cursor are unchanged. Otherwise the redo branch is dropped, the list appended, the newest 50 snapshots kept, and the cursor put on the new one. |
| Editor.ChangeTone | components/Editor.tsx:70-75 | The tone of the id's items changes, and the new list is committed. The page's id, name, image and analysing flag are kept. If the list equals the snapshot under the cursor, the log and cursor are unchanged. Otherwise the redo branch is dropped, the list appended, the newest 50 snapshots kept, and the cursor put on the new one. |
| Editor.DeleteItem | components/Editor.tsx:77-82 | The id's items are removed, and the new list is committed. The page's id, name, image and analysing flag are kept. If the list equals the snapshot under the cursor, the log and cursor are unchanged. Otherwise the redo branch is dropped, the list appended, the newest 50 snapshots kept, and the cursor put on the new one. |
| Editor.TypingCommitsOnlyOnBlur | components/Editor.tsx:152-156 | Any number of keystrokes leaves the history and cursor untouched. The blur that follows records nothing if the final text equals the snapshot under the cursor. Otherwise it keeps the newest 50 of the snapshots up to the cursor plus the final text, with the cursor on it. With the cursor at the tail and fewer than 50 snapshots, this is the old history plus the final text. |
| Editor.TypeAllKeepsHistory | components/Editor.tsx:155 | A run of keystrokes never moves the history or the cursor. |
| Editor.ToneChangeIsUndoable | components/Editor.tsx:70-75 | From a committed page, a tone change that alters the list can be undone, and undo gives back the list from before it. Choosing a tone blurs any text field first, so the page is committed whenever the control is used. |
| Editor.DeleteIsUndoable | components/Editor.tsx:77-82 | From a committed page, deleting a present item can be undone, and undo gives back the list from before it. Clicking delete blurs any text field first, so the page is committed whenever the control is used. |
| Editor.DecideShortcut | components/Editor.tsx:38-58 | Undo fires iff Ctrl or Cmd plus "z", without Shift, outside a text field, with undo enabled. Redo fires iff Ctrl or Cmd plus Shift+"z" or "y", outside a text field, with redo enabled. The browser default is suppressed iff the combination is z or y and no text field has focus. |
| Editor.HandleKey | components/Editor.tsx:38-58 | A decided undo moves the cursor back one and shows that snapshot. A decided redo moves it forward one and shows that snapshot. No shortcut leaves the page as it is, as does a focused text field. A key press never changes the log, and only the cursor and the visible list can change. |
| Editor.ShortcutNeverIdle | components/Editor.tsx:44-57 | A shortcut that fires moves the cursor by exactly one: back for Z without Shift, forward for Shift+Z and for Y. The page then shows the snapshot under the cursor. |
| Seqs.Contains | components/SettingsPanel.tsx:72-75 | A substring test holds iff the query occurs at some position. |
| Settings.Trim | components/SettingsPanel.tsx:43-48 | The result is the part between two all-whitespace margins, using ECMAScript whitespace and line terminators, and begins and ends with a non-space. It is empty iff the input is all whitespace. |
| Settings.TrimIdempotent | components/SettingsPanel.tsx:43-48 | Trimming twice is trimming once. |
| Settings.AddGlossary | components/SettingsPanel.tsx:42-58 | A blank term or translation after trimming changes nothing. Otherwise exactly one entry with the trimmed texts is appended, earlier entries and other settings are kept, and both fields clear. |
| Settings.AddedEntryIsTrimmed | components/SettingsPanel.tsx:45-49 | An added entry has no surrounding whitespace and its term is not empty. |
| Settings.RemoveGlossary | components/SettingsPanel.tsx:60-65 | Remove drops exactly the entries with the id. Every other entry keeps its order and its number of copies. The genre and the model are kept. |
| Settings.ChangeGenre | components/SettingsPanel.tsx:67-69 | Only the genre changes. |
| Settings.SearchGlossary | components/SettingsPanel.tsx:72-75 | An entry is shown iff its lower-cased term contains the lower-cased query, or its translation contains the query as typed. Shown entries keep glossary order and their number of copies. |
| Settings.EmptySearchShowsAll | components/SettingsPanel.tsx:72-75 | An empty query shows the whole glossary. |
| Settings.OpenKeyField | components/SettingsPanel.tsx:21-27 | A non-empty stored key fills the field and shows the saved badge. Otherwise the field is empty and no badge shows. |
| Settings.EditKey | components/SettingsPanel.tsx:97-100 | Typing in the key field hides the saved badge. |
| Settings.SaveKey | components/SettingsPanel.tsx:29-34 | The trimmed key is stored only when it is non-empty, and then the badge shows. |
| Settings.ClearKey | components/SettingsPanel.tsx:36-40 | Clearing forgets the stored key, empties the field and hides the badge. |
| Settings.ResolveApiKey | services/geminiService.ts:113-117 | The user's non-empty key wins, else the environment key. The call fails with a missing-key error iff neither is present. |
| Settings.SavedKeyIsUsed | components/SettingsPanel.tsx:29-40 | After a save the analysis uses the saved trimmed key. After a clear it falls back to the environment key. |
| AutoSave.RecordOf | App.tsx:186-192 | A record carries the page's id, name and list, the genre, and the save time. |
| AutoSave.RemoveRecord | App.tsx:197-198 | Exactly the records with the id are dropped. Every other record keeps its order and its number of copies. |
| AutoSave.Upsert | App.tsx:194-204 | The new record heads the list, and no other record carries its id. The list holds at most 20 records. The rest are the older records without that id, in order, cut to fit. |
| AutoSave.RemoveHead | App.tsx:197-200 | In a list headed by the only record with an id, removing that id removes exactly the head. |
| AutoSave.UpsertReplaces | App.tsx:197-200 | Saving a page twice gives the same list as saving it once with the second record. |
| AutoSave.UpsertKeepsIdsUnique | App.tsx:194-204 | Upserting keeps record ids unique. |
| AutoSave.RemovePreservesUnique | App.tsx:197-198 | Removing records keeps ids unique. |
| AutoSave.SaveGuard | App.tsx:177 | Under the page invariant, a save is scheduled iff the page carrying the active id is not analysing and has items. With no active id, nothing is scheduled. |
| AutoSave.Observe | App.tsx:177-185 | Every observed change cancels the pending save. A new save is armed, due 2000 ms later for the page and genre as observed, iff the active page exists, is not analysing and has items. |
| AutoSave.Tick | App.tsx:185-207 | Before the due time nothing happens. At or after it, the observed record is upserted, stamped with the time, the save time is set and nothing is pending. |
| AutoSave.BurstWritesNothing | App.tsx:177-185 | A burst is a trace of changes and clock readings in which every reading comes before the save armed by the latest change ahead of it is due. Any number of readings may follow one change. During a burst nothing is written, and the saver is exactly as the latest change left it. |
| AutoSave.BurstSavesOnce | App.tsx:177-211 | After a burst, one clock reading at or after the latest change's due time writes exactly one record, of the state that change showed, and leaves nothing pending. |
| HistoryPanel.Load | components/HistoryPanel.tsx:14-23 | A missing, empty or unparsable stored value gives the empty list. Otherwise the list is the parsed one. |
| HistoryPanel.Delete | components/HistoryPanel.tsx:25-29 | Exactly the records with the id are dropped. Every other record keeps its order and its number of copies. The stored value becomes the encoding of the new list. |
| HistoryPanel.DeleteDropsLaterSave | components/HistoryPanel.tsx:14-29 | Suppose auto-save upserts a record into storage after the panel loaded its list. Storage then holds the record, but after the panel's next delete a reload no longer finds it. |
| HistoryPanel.DeleteThenReload | components/HistoryPanel.tsx:14-29 | Once a record is deleted, reloading gives exactly the list shown, with no record carrying that id. |
| HistoryPanel.Insert | components/HistoryPanel.tsx:66 | Inserting into a newest-first list keeps it newest first and adds exactly that record. |
| HistoryPanel.SortNewestFirst | components/HistoryPanel.tsx:66 | The displayed order is newest first and contains each loaded record as often as it was loaded. |
| HistoryPanel.InsertKeepsTies | components/HistoryPanel.tsx:66 | An inserted record goes ahead of the records saved at its own time, and those keep their order. |
| HistoryPanel.SortIsStable | components/HistoryPanel.tsx:66 | The sort is stable: records saved at the same time keep their relative order. |
| HistoryPanel.NewestFirstIsPairwise | components/HistoryPanel.tsx:66 | When each record is at least as new as its successor, every earlier record is at least as new as every later one. |
| HistoryPanel.DisplayOrder | components/HistoryPanel.tsx:66 | The display is a permutation of the loaded list with non-increasing timestamps. |
| HistoryPanel.SortKeepsOrderedList | components/HistoryPanel.tsx:66 | A list already newest first is shown unchanged, so records with equal timestamps keep their order. |
| HistoryPanel.UpsertKeepsNewestFirst | App.tsx:194-204 | If the clock never runs backwards, auto-save keeps the stored list newest first, so the panel shows it as stored. |
| HistoryPanel.RemoveKeepsNewestFirst | components/HistoryPanel.tsx:26 | Deleting from a newest-first list keeps it newest first. The record now first is no newer than the one that was first. |
| HistoryPanel.Render | components/HistoryPanel.tsx:66 | Rendering leaves the panel's own list newest first, as a permutation, with records of equal time in their stored order. A list already newest first is left as it is. The stored value is untouched. |
| HistoryPanel.DeleteAfterRenderPersistsSorted | components/HistoryPanel.tsx:25-28 | A delete after rendering persists a newest-first list. |
| HistoryPanel.RestoreHandsOverRecord | components/HistoryPanel.tsx:98-99 | The restored page shows the chosen record's list and name, and the genre becomes the record's genre. |
| Export.ItemParagraphs | utils/exportUtils.ts:23-39 | Each item, in list order, yields its translated text and then a spacer. |
| Export.PageParagraphs | utils/exportUtils.ts:11-39 | One page gives its title (its file name, with the given page-break flag), a spacer, and then two paragraphs per item. |
| Export.DocChildren | utils/exportUtils.ts:42-55 | The signature footer is the last paragraph. |
| Export.LayoutLength | utils/exportUtils.ts:9-40 | The page part has two paragraphs per page and two per item. |
| Export.LayoutHasNoFooter | utils/exportUtils.ts:9-40 | The page part holds no footer. |
| Export.DocChildrenCount | utils/exportUtils.ts:9-55 | There are 2·pages + 2·items + 1 paragraphs, and the footer appears only last. |
| Export.PageBlock | utils/exportUtils.ts:9-39 | One page's paragraphs are its title, a spacer, and a text and spacer per item. |
| Export.LayoutPosition | utils/exportUtils.ts:9-40 | Page k's paragraphs sit, whole and in order, right after those of all earlier pages: two per earlier page plus two per earlier item. Its title breaks to a new page iff k > 0. |
| Export.DocChildrenPosition | utils/exportUtils.ts:9-55 | In the document, page k's paragraphs start after the earlier pages' paragraphs and are followed by the footer. Its title carries the file name and breaks to a new page iff k > 0. |
| Export.BeforeFirstDot | utils/exportUtils.ts:73 | The stem is the longest prefix of the name without '.', i.e. the first piece of split('.'). |
| Export.NatToString | utils/exportUtils.ts:74 | A timestamp prints as decimal digits without a leading zero. |
| Export.DecimalRoundTrip | utils/exportUtils.ts:74 | The printed timestamp reads back as the timestamp. |
| Export.ExportFileName | utils/exportUtils.ts:72-74 | The name ends in ".docx". For one page it starts with "Translation_" followed by a part without dots. Otherwise it starts with "Manhua_Translations_". |
| Export.FileNameChoice | utils/exportUtils.ts:72-74 | For one page the name is "Translation_" + its name's stem + ".docx". Otherwise it is "Manhua_Translations_" + the export time in decimal + ".docx". |
| Export.HandleExport | App.tsx:346-350 | Without pages nothing is exported. Otherwise all pages are exported in order, under the chosen name. |
| Export.ExportOpensWithFirstTitle | utils/exportUtils.ts:9-20 | The document opens with the first page's title, without a page break, and a spacer. |

## Left out

- Rendering, CSS, tabs, modals, alerts and the header's save-time text. They are presentation only.
- The Ctrl+E and Ctrl+S tab shortcuts in App.tsx. They only switch the visible tab.
- The default glossary's contents and the initial settings values. They are data, not behaviour.
- Clipboard paste, drag-and-drop and the file input. These are browser I/O; the model receives a file name and image URL.
- The remote analysis in services/geminiService.ts: prompts, the network, base64 reading and response parsing. The outcome is a `Result` input. Only the key-precedence rule is modelled.
- components/PageNavigator.tsx and components/WordPreview.tsx. They are presentation; selection and deletion through the navigator are modelled as `SelectPage` and `DeletePage`.
- The binary Word document and the file-saver call. Fonts, sizes, colours and alignment are not modelled either.
- JSON encoding and decoding. These are the parameters `encode` and `parse`.
- `Intl.DateTimeFormat` in the history panel, and the enumerations' display strings.
- One shared storage value for the record list. The panel's stored string and the auto-saver's list are separate values, and no operation links them. The lost update that this sharing allows is stated by `HistoryPanel.DeleteDropsLaterSave`. There, the panel's stored value is the encoding of an auto-save upsert into the list the panel loaded.
- Workspace.FindPage: does not state that the first page carrying the id is returned. Under the invariant ids are unique, so only one page can match (`Workspace.FindUnique`).
- Auto-save with a stored record list that does not parse. The code's timed save throws in that case. The model's store is always a decoded list.
- Workspace.SelectPageKeepsInv: requires that a page carries the id, which the code does not check. The navigator only offers existing ids.
- PageHistory.Commit: compares lists with structural equality. The code compares their JSON encodings, which differ only for key order and undefined fields. The app never produces such pairs.
- AutoSave.Observe: a change event stands for a change of the effect's dependencies: the active page's list reference, its id, and the genre. When such a change is reported is up to the caller.
- Ids and timestamps from `Date.now` and `Math.random`, and the timer. These are parameters, and ids are assumed fresh where a lemma needs it.
- Export.ExportFileName: the export time is a natural-number parameter in milliseconds.
