/** Auto-save of the active page into the persisted history list. A change
    of the observed state (active page id, its list, the genre) cancels any
    pending save and, when the active page is saveable, arms a new one two
    seconds later; when a pending save comes due, a record of the page as it
    was observed is upserted into the list (replace by id, newest first, at
    most 20). Time is a logical clock in milliseconds supplied by the
    caller. */
module AutoSave {
  import opened Wrappers
  import opened Types
  import opened Seqs
  import opened Workspace

  const SaveDelay: nat := 2000
  const MaxRecords: nat := 20

  /** A save is armed only for an existing, analysed page with some text. */
  predicate ShouldSave(ws: Workspace) {
    match ActivePage(ws)
    case None => false
    case Some(p) => !p.isAnalyzing && |p.translations| > 0
  }

  /** Under the invariant the guard reads the page carrying the active id:
      it holds iff that page is analysed and its list is non-empty, and it
      fails when no page is active. */
  lemma SaveGuard(ws: Workspace)
    requires Inv(ws)
    ensures ws.activePageId.None? ==> !ShouldSave(ws)
    ensures forall i :: 0 <= i < |ws.pages| && ws.activePageId == Some(ws.pages[i].id) ==>
      (ShouldSave(ws) <==> !ws.pages[i].isAnalyzing && |ws.pages[i].translations| > 0)
  {
    forall i | 0 <= i < |ws.pages| && ws.activePageId == Some(ws.pages[i].id)
      ensures ShouldSave(ws) <==> !ws.pages[i].isAnalyzing && |ws.pages[i].translations| > 0
    {
      FindUnique(ws.pages, i);
    }
  }

  /** The record written for page `p`. */
  function RecordOf(p: Page, genre: ManhuaGenre, now: int): (r: HistoryItem)
    ensures r.id == p.id && r.fileName == p.fileName && r.timestamp == now
    ensures r.genre == genre && r.translations == p.translations
  {
    HistoryItem(p.id, p.fileName, now, genre, p.translations)
  }

  /** Keep a record unless it carries `id`. */
  function NotRecord(id: string): HistoryItem -> bool {
    (h: HistoryItem) => h.id != id
  }

  /** Records other than those carrying `id`, in order. */
  function RemoveRecord(records: seq<HistoryItem>, id: string): (r: seq<HistoryItem>)
    ensures forall x :: x in r <==> x in records && x.id != id
    ensures forall x: HistoryItem :: x.id != id ==> multiset(r)[x] == multiset(records)[x]
    ensures IsSubsequence(r, records)
  {
    Filter(records, NotRecord(id))
  }

  /** Put `item` first, drop any older record with its id, keep at most 20. */
  function Upsert(records: seq<HistoryItem>, item: HistoryItem): (r: seq<HistoryItem>)
    ensures 0 < |r| <= MaxRecords && r[0] == item
    ensures forall i :: 1 <= i < |r| ==> r[i].id != item.id
    ensures r[1..] <= RemoveRecord(records, item.id)
    ensures |r| == Min(MaxRecords, 1 + |RemoveRecord(records, item.id)|)
  {
    var others := RemoveRecord(records, item.id);
    RemovedIdsDiffer(records, item.id);
    var kept := others[..Min(MaxRecords - 1, |others|)];
    var r := [item] + kept;
    assert r[1..] == kept;
    r
  }

  /** No record left after removing `id` carries it. */
  lemma RemovedIdsDiffer(records: seq<HistoryItem>, id: string)
    ensures forall i :: 0 <= i < |RemoveRecord(records, id)| ==> RemoveRecord(records, id)[i].id != id
  {
    var others := RemoveRecord(records, id);
    forall i | 0 <= i < |others| ensures others[i].id != id {
      assert others[i] in others;
    }
  }

  predicate IdsUniqueRecords(records: seq<HistoryItem>) {
    forall i, j :: 0 <= i < j < |records| ==> records[i].id != records[j].id
  }

  /** A list headed by the only record carrying `id` loses exactly its head. */
  lemma RemoveHead(u: seq<HistoryItem>, id: string)
    requires |u| > 0 && u[0].id == id
    requires forall i :: 1 <= i < |u| ==> u[i].id != id
    ensures RemoveRecord(u, id) == u[1..]
  {
    assert u == [u[0]] + u[1..];
    assert Filter(u, NotRecord(id)) == Filter(u[1..], NotRecord(id));
    FilterAllKept(u[1..], NotRecord(id));
  }

  /** Re-saving a page replaces its record: upserting two records with the
      same id in a row is the same as upserting only the second. */
  lemma UpsertReplaces(records: seq<HistoryItem>, a: HistoryItem, b: HistoryItem)
    requires a.id == b.id
    ensures Upsert(Upsert(records, a), b) == Upsert(records, b)
  {
    var others := RemoveRecord(records, a.id);
    var u := Upsert(records, a);
    RemoveHead(u, a.id);
    var lhs := Upsert(u, b);
    var rhs := Upsert(records, b);
    assert lhs == [b] + u[1..];
    assert |lhs| == |rhs|;
    forall i | 1 <= i < |lhs| ensures lhs[i] == rhs[i] {
      assert lhs[i] == u[i] == others[i - 1];
    }
  }

  /** Upserting keeps record ids unique. */
  lemma UpsertKeepsIdsUnique(records: seq<HistoryItem>, item: HistoryItem)
    requires IdsUniqueRecords(records)
    ensures IdsUniqueRecords(Upsert(records, item))
  {
    var others := RemoveRecord(records, item.id);
    RemovePreservesUnique(records, item.id);
    var r := Upsert(records, item);
    var kept := r[1..];
    UniquePrefix(kept, others);
    forall y | y in kept ensures y.id != item.id {
      var k :| 0 <= k < |kept| && kept[k] == y;
      assert r[k + 1] == y;
    }
    UniqueCons(item, kept);
    assert r == [item] + kept;
  }

  /** A prefix of a list with unique ids has unique ids. */
  lemma UniquePrefix(a: seq<HistoryItem>, b: seq<HistoryItem>)
    requires a <= b && IdsUniqueRecords(b)
    ensures IdsUniqueRecords(a)
  {
    forall i, j | 0 <= i < j < |a| ensures a[i].id != a[j].id {
      assert a[i] == b[i] && a[j] == b[j];
    }
  }

  /** Unique ids survive removing the head, and the head's id recurs nowhere. */
  lemma UniqueUncons(records: seq<HistoryItem>)
    requires |records| > 0 && IdsUniqueRecords(records)
    ensures IdsUniqueRecords(records[1..])
    ensures forall y :: y in records[1..] ==> y.id != records[0].id
  {
    var tail := records[1..];
    forall i, j | 0 <= i < j < |tail| ensures tail[i].id != tail[j].id {
      assert tail[i] == records[i + 1] && tail[j] == records[j + 1];
    }
    forall y | y in tail ensures y.id != records[0].id {
      var k :| 0 <= k < |tail| && tail[k] == y;
      assert records[k + 1] == y;
    }
  }

  /** A record whose id is new can head a list with unique ids. */
  lemma UniqueCons(x: HistoryItem, rest: seq<HistoryItem>)
    requires IdsUniqueRecords(rest)
    requires forall y :: y in rest ==> y.id != x.id
    ensures IdsUniqueRecords([x] + rest)
  {
    var r := [x] + rest;
    forall i, j | 0 <= i < j < |r| ensures r[i].id != r[j].id {
      assert r[j] == rest[j - 1];
      if i > 0 {
        assert r[i] == rest[i - 1];
      } else {
        assert rest[j - 1] in rest;
      }
    }
  }

  lemma {:induction false} RemovePreservesUnique(records: seq<HistoryItem>, id: string)
    requires IdsUniqueRecords(records)
    ensures IdsUniqueRecords(RemoveRecord(records, id))
  {
    if |records| > 0 {
      var tail := records[1..];
      UniqueUncons(records);
      RemovePreservesUnique(tail, id);
      var rest := RemoveRecord(tail, id);
      assert records == [records[0]] + tail;
      if records[0].id != id {
        assert RemoveRecord(records, id) == [records[0]] + rest;
        UniqueCons(records[0], rest);
      } else {
        assert RemoveRecord(records, id) == rest;
      }
    }
  }

  /** A save waiting on the clock: when it is due, and what was observed. */
  datatype PendingSave = PendingSave(due: int, page: Page, genre: ManhuaGenre)

  /** The saver: at most one pending save, the persisted list, and the time
      of the last save (shown in the header). */
  datatype Saver = Saver(pending: Option<PendingSave>, store: seq<HistoryItem>, lastSaveTime: Option<int>)

  /** The observed state changed at time `now`: cancel, then re-arm if the
      active page is saveable. */
  function Observe(s: Saver, ws: Workspace, now: int): (r: Saver)
    ensures r.store == s.store && r.lastSaveTime == s.lastSaveTime
    ensures r.pending.Some? <==> ShouldSave(ws)
    ensures ShouldSave(ws) ==>
      r.pending == Some(PendingSave(now + SaveDelay, ActivePage(ws).value, ws.settings.genre))
  {
    if ShouldSave(ws) then
      s.(pending := Some(PendingSave(now + SaveDelay, ActivePage(ws).value, ws.settings.genre)))
    else s.(pending := None)
  }

  /** The clock reads `now`: a due save is written and cleared. */
  function Tick(s: Saver, now: int): (r: Saver)
    ensures s.pending.None? || now < s.pending.value.due ==> r == s
    ensures s.pending.Some? && now >= s.pending.value.due ==>
      && r.pending.None? && r.lastSaveTime == Some(now)
      && r.store == Upsert(s.store, RecordOf(s.pending.value.page, s.pending.value.genre, now))
  {
    match s.pending
    case None => s
    case Some(w) =>
      if now < w.due then s
      else Saver(None, Upsert(s.store, RecordOf(w.page, w.genre, now)), Some(now))
  }

  /** One event seen by the saver. */
  datatype Event = Change(ws: Workspace, at: int) | Clock(at: int)

  function Step(s: Saver, e: Event): Saver {
    match e
    case Change(ws, t) => Observe(s, ws, t)
    case Clock(t) => Tick(s, t)
  }

  /** The saver after a trace of events, oldest first. */
  function Run(s: Saver, events: seq<Event>): Saver
    decreases |events|
  {
    if |events| == 0 then s else Step(Run(s, events[..|events| - 1]), events[|events| - 1])
  }

  /** The position of the latest change at or before position `i`. */
  function LastChange(events: seq<Event>, i: nat): (j: nat)
    requires i < |events| && events[0].Change?
    ensures j <= i && events[j].Change?
    ensures forall k :: j < k <= i ==> events[k].Clock?
  {
    if events[i].Change? then i else LastChange(events, i - 1)
  }

  /** The latest change is found the same way in any prefix that reaches it. */
  lemma {:induction false} LastChangePrefix(events: seq<Event>, n: nat, i: nat)
    requires i < n <= |events| && events[0].Change?
    ensures LastChange(events[..n], i) == LastChange(events, i)
    decreases i
  {
    if events[i].Clock? {
      LastChangePrefix(events, n, i - 1);
    }
  }

  /** A burst: it starts with a change, and every clock reading comes before
      the save armed by the latest change ahead of it is due. Any number of
      early readings may follow a change. */
  predicate Burst(events: seq<Event>) {
    && |events| > 0 && events[0].Change?
    && forall i :: 0 < i < |events| && events[i].Clock? ==>
         events[i].at < events[LastChange(events, i)].at + SaveDelay
  }

  /** Dropping the last event of a longer burst leaves a burst. */
  lemma BurstPrefix(events: seq<Event>)
    requires Burst(events) && |events| > 1
    ensures Burst(events[..|events| - 1])
  {
    var prefix := events[..|events| - 1];
    forall i | 0 < i < |prefix| && prefix[i].Clock?
      ensures prefix[i].at < prefix[LastChange(prefix, i)].at + SaveDelay
    {
      LastChangePrefix(events, |events| - 1, i);
      assert prefix[i] == events[i];
    }
  }

  /** A clock reading before the armed save is due does nothing. */
  lemma EarlyReadingIsIdle(prev: Saver, ws: Workspace, at: int, now: int)
    requires now < at + SaveDelay
    ensures Tick(Observe(prev, ws, at), now) == Observe(prev, ws, at)
  {
  }

  /** During a burst nothing is written, and the saver is as the latest
      change left it: early clock readings do nothing. */
  lemma {:induction false} BurstWritesNothing(s: Saver, events: seq<Event>)
    requires Burst(events)
    ensures Run(s, events).store == s.store
    ensures var j := LastChange(events, |events| - 1);
      Run(s, events) == Observe(Run(s, events[..j]), events[j].ws, events[j].at)
    decreases |events|
  {
    var n := |events|;
    if n == 1 {
      assert events[..0] == [];
    } else {
      var prefix := events[..n - 1];
      var last := events[n - 1];
      BurstPrefix(events);
      BurstWritesNothing(s, prefix);
      assert Run(s, events) == Step(Run(s, prefix), last);
      if last.Change? {
        assert LastChange(events, n - 1) == n - 1;
        assert events[..n - 1] == prefix;
      } else {
        var j := LastChange(events, n - 1);
        LastChangePrefix(events, n - 1, n - 2);
        assert |prefix| - 1 == n - 2;
        assert j == LastChange(prefix, |prefix| - 1);
        assert Run(s, prefix) == Observe(Run(s, prefix[..j]), prefix[j].ws, prefix[j].at);
        assert prefix[..j] == events[..j] && prefix[j] == events[j];
        var x := Run(s, events[..j]);
        assert Run(s, prefix) == Observe(x, events[j].ws, events[j].at);
        assert last.at < events[j].at + SaveDelay;
        EarlyReadingIsIdle(x, events[j].ws, events[j].at, last.at);
        assert Run(s, events) == Tick(Run(s, prefix), last.at);
      }
    }
  }

  /** Debounce coalescing: after a burst of changes, one clock reading at or
      after the latest change's due time writes exactly one record, for the
      state that change showed, stamped with that reading. */
  lemma BurstSavesOnce(s: Saver, events: seq<Event>, now: int)
    requires Burst(events)
    requires ShouldSave(events[LastChange(events, |events| - 1)].ws)
    requires now >= events[LastChange(events, |events| - 1)].at + SaveDelay
    ensures var last := events[LastChange(events, |events| - 1)];
      Run(s, events + [Clock(now)]).store
        == Upsert(s.store, RecordOf(ActivePage(last.ws).value, last.ws.settings.genre, now))
    ensures Run(s, events + [Clock(now)]).pending.None?
  {
    BurstWritesNothing(s, events);
    assert (events + [Clock(now)])[..|events|] == events;
  }
}
