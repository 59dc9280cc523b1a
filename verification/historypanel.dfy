/** The saved-history panel: it loads the persisted record list once,
    deletes records by id and writes the list back, shows the records newest
    first, and hands a chosen record to the restore handler. The storage
    value is a string; `parse` and `encode` stand for the JSON conversion,
    with `parse` answering None where parsing throws. The display order is
    produced by sorting the panel's own list in place while rendering, so
    the list a later delete filters is the sorted one. */
module HistoryPanel {
  import opened Wrappers
  import opened Types
  import opened Seqs
  import opened Workspace
  import opened AutoSave

  /** The records the panel starts with: a missing or empty stored value,
      or one that does not parse, leaves the initial empty list. */
  function Load(saved: Option<string>, parse: string -> Option<seq<HistoryItem>>): (r: seq<HistoryItem>)
    ensures saved.None? || saved == Some("") ==> r == []
    ensures saved.Some? && saved.value != "" && parse(saved.value).None? ==> r == []
    ensures saved.Some? && saved.value != "" && parse(saved.value).Some? ==> r == parse(saved.value).value
  {
    match saved
    case None => []
    case Some(text) =>
      if text == "" then []
      else
        match parse(text)
        case None => []
        case Some(records) => records
  }

  /** The codec laws the storage relies on: what was encoded parses back,
      and an encoding is never the empty string. */
  predicate RoundTrips(encode: seq<HistoryItem> -> string, parse: string -> Option<seq<HistoryItem>>, records: seq<HistoryItem>) {
    parse(encode(records)) == Some(records) && encode(records) != ""
  }

  /** The panel's in-memory list and the persisted value. */
  datatype Panel = Panel(records: seq<HistoryItem>, stored: Option<string>)

  /** Delete every record carrying `id`, keep the others in order, and
      persist the new list. */
  function Delete(p: Panel, id: string, encode: seq<HistoryItem> -> string): (r: Panel)
    ensures forall x :: x in r.records <==> x in p.records && x.id != id
    ensures forall x: HistoryItem :: x.id != id ==> multiset(r.records)[x] == multiset(p.records)[x]
    ensures IsSubsequence(r.records, p.records)
    ensures r.stored == Some(encode(r.records))
  {
    var kept := RemoveRecord(p.records, id);
    Panel(kept, Some(encode(kept)))
  }

  /** After a delete, reopening the panel loads exactly the list it shows. */
  lemma DeleteThenReload(p: Panel, id: string, encode: seq<HistoryItem> -> string,
                         parse: string -> Option<seq<HistoryItem>>)
    requires RoundTrips(encode, parse, RemoveRecord(p.records, id))
    ensures Load(Delete(p, id, encode).stored, parse) == Delete(p, id, encode).records
    ensures forall x :: x in Load(Delete(p, id, encode).stored, parse) ==> x.id != id
  {
  }

  /** The panel and the auto-saver write the same stored list, but the
      panel writes back the copy it loaded when it opened. When the
      auto-saver has since upserted `item` into that list, storage holds the
      record until the panel's next delete, which loses it. */
  lemma DeleteDropsLaterSave(p: Panel, id: string, item: HistoryItem,
                             encode: seq<HistoryItem> -> string,
                             parse: string -> Option<seq<HistoryItem>>)
    requires item !in p.records
    requires p.stored == Some(encode(Upsert(p.records, item)))
    requires RoundTrips(encode, parse, Upsert(p.records, item))
    requires RoundTrips(encode, parse, RemoveRecord(p.records, id))
    ensures item in Load(p.stored, parse)
    ensures item !in Load(Delete(p, id, encode).stored, parse)
  {
    assert Upsert(p.records, item)[0] == item;
  }

  /** Newest first, stated on neighbours. */
  predicate NewestFirst(s: seq<HistoryItem>) {
    forall i :: 0 < i < |s| ==> s[i - 1].timestamp >= s[i].timestamp
  }

  /** Newest first, stated on every pair. */
  predicate NewestFirstPairwise(s: seq<HistoryItem>) {
    forall i, j :: 0 <= i < j < |s| ==> s[i].timestamp >= s[j].timestamp
  }

  /** Put `x` in front of the first record that is not newer than it. */
  function Insert(x: HistoryItem, s: seq<HistoryItem>): (r: seq<HistoryItem>)
    requires NewestFirst(s)
    ensures NewestFirst(r)
    ensures multiset(r) == multiset(s) + multiset{x}
    ensures |r| == |s| + 1
    ensures r[0] == x || (|s| > 0 && r[0] == s[0])
  {
    if |s| == 0 || s[0].timestamp <= x.timestamp then [x] + s
    else
      var rest := Insert(x, s[1..]);
      assert s == [s[0]] + s[1..];
      [s[0]] + rest
  }

  /** The render-time order: a stable sort by descending timestamp (the
      comparator `b.timestamp - a.timestamp`), built by insertion. */
  function SortNewestFirst(s: seq<HistoryItem>): (r: seq<HistoryItem>)
    ensures NewestFirst(r)
    ensures multiset(r) == multiset(s)
    decreases |s|
  {
    if |s| == 0 then []
    else
      assert s == [s[0]] + s[1..];
      Insert(s[0], SortNewestFirst(s[1..]))
  }

  /** Ordered neighbours give an ordered list. */
  lemma {:induction false} NewestFirstIsPairwise(s: seq<HistoryItem>)
    requires NewestFirst(s)
    ensures NewestFirstPairwise(s)
    decreases |s|
  {
    if |s| > 1 {
      var tail := s[1..];
      NewestFirstTail(s);
      NewestFirstIsPairwise(tail);
      forall i, j | 0 <= i < j < |s| ensures s[i].timestamp >= s[j].timestamp {
        if i > 0 {
          assert s[i] == tail[i - 1] && s[j] == tail[j - 1];
        } else if j > 1 {
          assert s[1] == tail[0] && s[j] == tail[j - 1];
        }
      }
    }
  }

  /** The display order: the loaded records, each exactly as often as
      loaded, with every earlier one at least as recent as every later one. */
  lemma DisplayOrder(records: seq<HistoryItem>)
    ensures multiset(SortNewestFirst(records)) == multiset(records)
    ensures NewestFirstPairwise(SortNewestFirst(records))
  {
    NewestFirstIsPairwise(SortNewestFirst(records));
  }

  /** A list already newest first is displayed as it is: sorting keeps
      records with equal timestamps in their order. */
  lemma {:induction false} SortKeepsOrderedList(s: seq<HistoryItem>)
    requires NewestFirst(s)
    ensures SortNewestFirst(s) == s
    decreases |s|
  {
    if |s| > 0 {
      var tail := s[1..];
      NewestFirstTail(s);
      SortKeepsOrderedList(tail);
      assert s == [s[0]] + tail;
    }
  }

  /** Keep a record iff it was saved at time `t`. */
  function SavedAt(t: int): HistoryItem -> bool {
    (h: HistoryItem) => h.timestamp == t
  }

  /** Inserting `x` puts it ahead of every record saved at its own time and
      leaves the order among the others alone. */
  lemma {:induction false} InsertKeepsTies(x: HistoryItem, s: seq<HistoryItem>, t: int)
    requires NewestFirst(s)
    ensures x.timestamp == t ==> Filter(Insert(x, s), SavedAt(t)) == [x] + Filter(s, SavedAt(t))
    ensures x.timestamp != t ==> Filter(Insert(x, s), SavedAt(t)) == Filter(s, SavedAt(t))
    decreases |s|
  {
    var keep := SavedAt(t);
    assert keep(x) == (x.timestamp == t);
    if |s| == 0 || s[0].timestamp <= x.timestamp {
      assert Insert(x, s) == [x] + s;
      FilterCons(x, s, keep);
    } else {
      var tail := s[1..];
      NewestFirstTail(s);
      InsertKeepsTies(x, tail, t);
      var rest := Insert(x, tail);
      assert Insert(x, s) == [s[0]] + rest;
      assert s == [s[0]] + tail;
      assert keep(s[0]) == (s[0].timestamp == t);
      FilterCons(s[0], rest, keep);
      FilterCons(s[0], tail, keep);
      if x.timestamp == t {
        assert !keep(s[0]);
      } else if keep(s[0]) {
        assert Filter(Insert(x, s), keep) == [s[0]] + Filter(tail, keep);
      }
    }
  }

  /** The sort is stable: records saved at the same time keep their relative
      order, as the in-place `Array.prototype.sort` guarantees. */
  lemma {:induction false} SortIsStable(s: seq<HistoryItem>, t: int)
    ensures Filter(SortNewestFirst(s), SavedAt(t)) == Filter(s, SavedAt(t))
    decreases |s|
  {
    if |s| > 0 {
      var tail := s[1..];
      var sorted := SortNewestFirst(tail);
      SortIsStable(tail, t);
      assert SortNewestFirst(s) == Insert(s[0], sorted);
      StableStep(s[0], tail, sorted, t);
      assert s == [s[0]] + tail;
    }
  }

  /** One insertion step of the sort keeps the records saved at time `t` in
      the order of the unsorted list. */
  lemma StableStep(x: HistoryItem, tail: seq<HistoryItem>, sorted: seq<HistoryItem>, t: int)
    requires NewestFirst(sorted)
    requires Filter(sorted, SavedAt(t)) == Filter(tail, SavedAt(t))
    ensures Filter(Insert(x, sorted), SavedAt(t)) == Filter([x] + tail, SavedAt(t))
  {
    InsertKeepsTies(x, sorted, t);
    FilterCons(x, tail, SavedAt(t));
    assert SavedAt(t)(x) == (x.timestamp == t);
  }

  /** Dropping the newest record keeps a list newest first. */
  lemma NewestFirstTail(s: seq<HistoryItem>)
    requires NewestFirst(s) && |s| > 0
    ensures NewestFirst(s[1..])
  {
    var tail := s[1..];
    forall i | 0 < i < |tail| ensures tail[i - 1].timestamp >= tail[i].timestamp {
      assert tail[i - 1] == s[i] && tail[i] == s[i + 1];
    }
  }

  /** Auto-save keeps the store newest first as long as the clock does not
      run backwards, so the panel's sort leaves it as stored. */
  lemma UpsertKeepsNewestFirst(records: seq<HistoryItem>, item: HistoryItem)
    requires NewestFirst(records)
    requires forall i :: 0 <= i < |records| ==> records[i].timestamp <= item.timestamp
    ensures NewestFirst(Upsert(records, item))
    ensures SortNewestFirst(Upsert(records, item)) == Upsert(records, item)
  {
    var others := RemoveRecord(records, item.id);
    RemoveKeepsNewestFirst(records, item.id);
    var u := Upsert(records, item);
    forall i | 0 < i < |u| ensures u[i - 1].timestamp >= u[i].timestamp {
      assert u[i] == others[i - 1];
      if i > 1 {
        assert u[i - 1] == others[i - 2];
      }
    }
    SortKeepsOrderedList(u);
  }

  /** Deleting records keeps a list newest first, and what remains first is
      no newer than what was first. */
  lemma {:induction false} RemoveKeepsNewestFirst(records: seq<HistoryItem>, id: string)
    requires NewestFirst(records)
    ensures NewestFirst(RemoveRecord(records, id))
    ensures |RemoveRecord(records, id)| > 0 ==>
      RemoveRecord(records, id)[0].timestamp <= records[0].timestamp
    decreases |records|
  {
    if |records| > 0 {
      var tail := records[1..];
      NewestFirstTail(records);
      RemoveKeepsNewestFirst(tail, id);
      var rest := RemoveRecord(tail, id);
      assert records == [records[0]] + tail;
      if records[0].id != id {
        assert RemoveRecord(records, id) == [records[0]] + rest;
        NewestFirstCons(records[0], rest);
      } else {
        assert RemoveRecord(records, id) == rest;
      }
    }
  }

  /** A record no older than the head of a newest-first list can go in front. */
  lemma NewestFirstCons(x: HistoryItem, rest: seq<HistoryItem>)
    requires NewestFirst(rest)
    requires |rest| > 0 ==> rest[0].timestamp <= x.timestamp
    ensures NewestFirst([x] + rest)
  {
    var s := [x] + rest;
    forall i | 0 < i < |s| ensures s[i - 1].timestamp >= s[i].timestamp {
      assert s[i] == rest[i - 1];
      if i > 1 {
        assert s[i - 1] == rest[i - 2];
      }
    }
  }

  /** The panel after it has been rendered: its own list is now sorted. */
  function Render(p: Panel): (r: Panel)
    ensures r.stored == p.stored
    ensures NewestFirst(r.records) && multiset(r.records) == multiset(p.records)
    ensures forall t :: Filter(r.records, SavedAt(t)) == Filter(p.records, SavedAt(t))
    ensures NewestFirst(p.records) ==> r.records == p.records
  {
    assert forall t :: Filter(SortNewestFirst(p.records), SavedAt(t)) == Filter(p.records, SavedAt(t)) by {
      forall t ensures Filter(SortNewestFirst(p.records), SavedAt(t)) == Filter(p.records, SavedAt(t)) {
        SortIsStable(p.records, t);
      }
    }
    if NewestFirst(p.records) then
      SortKeepsOrderedList(p.records);
      p.(records := SortNewestFirst(p.records))
    else p.(records := SortNewestFirst(p.records))
  }

  /** Deleting from the shown list persists it in display order: what a
      reload then shows needs no further sorting. */
  lemma DeleteAfterRenderPersistsSorted(p: Panel, id: string, encode: seq<HistoryItem> -> string,
                                        parse: string -> Option<seq<HistoryItem>>)
    requires RoundTrips(encode, parse, RemoveRecord(Render(p).records, id))
    ensures NewestFirst(Load(Delete(Render(p), id, encode).stored, parse))
  {
    RemoveKeepsNewestFirst(Render(p).records, id);
  }

  /** The restore button hands over the record as displayed; restoring it
      makes a new active page with that record's name and list. */
  lemma RestoreHandsOverRecord(ws: Workspace, p: Panel, i: nat, id: string)
    requires Inv(ws) && id != "" && !HasPage(ws.pages, id)
    requires i < |Render(p).records|
    ensures var rec := Render(p).records[i];
      && rec in p.records
      && ActivePage(RestoreRecord(ws, rec, id)).Some?
      && ActivePage(RestoreRecord(ws, rec, id)).value.translations == rec.translations
      && ActivePage(RestoreRecord(ws, rec, id)).value.fileName == rec.fileName
      && RestoreRecord(ws, rec, id).settings.genre == rec.genre
  {
    var rec := Render(p).records[i];
    assert rec in multiset(Render(p).records);
    RestoreRecordKeepsInv(ws, rec, id);
  }
}
