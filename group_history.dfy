/** The history of a group: the rows of its completed sessions' told items,
    grouped by session in the order the sessions first appear, each
    session's items kept in row order. */
module GroupHistory {
  import opened Schema
  import RitualEvents

  /** What a history row says about one told item. `waitedDays` is the
      query's day count, carried through as it comes. */
  datatype HistoryItem = HistoryItem(position: nat, authorNickname: string, kind: ThingType,
                                     weight: EmotionalWeight, waitedDays: Option<int>, text: string)

  /** One row of the history query; `date` is the session's completion
      time as the query returns it. */
  datatype HistoryRow = HistoryRow(sessionId: SessionId, date: int, item: HistoryItem)

  /** One entry of the `sessions` array of the reply. */
  datatype SessionEntry = SessionEntry(sessionId: SessionId, date: int, items: seq<HistoryItem>)

  // ---------------------------------------------------------------------
  // The grouping, one row at a time

  /** The index of the entry for session `id`, or -1. */
  function IndexOfSession(entries: seq<SessionEntry>, id: SessionId): (r: int)
    ensures -1 <= r < |entries|
    ensures r >= 0 ==> entries[r].sessionId == id
    ensures r >= 0 ==> forall k :: 0 <= k < r ==> entries[k].sessionId != id
    ensures r < 0 ==> forall k :: 0 <= k < |entries| ==> entries[k].sessionId != id
  {
    if |entries| == 0 then -1
    else if entries[0].sessionId == id then 0
    else
      var r := IndexOfSession(entries[1..], id);
      if r < 0 then -1 else r + 1
  }

  /** The loop body: a row of a session seen before joins that session's
      items; a row of a new session starts a new entry at the end. */
  function AddRow(entries: seq<SessionEntry>, row: HistoryRow): seq<SessionEntry>
  {
    var k := IndexOfSession(entries, row.sessionId);
    if k < 0 then entries + [SessionEntry(row.sessionId, row.date, [row.item])]
    else entries[k := entries[k].(items := entries[k].items + [row.item])]
  }

  /** The loop over all rows. */
  function Grouped(rows: seq<HistoryRow>): seq<SessionEntry>
  {
    if |rows| == 0 then [] else AddRow(Grouped(rows[..|rows| - 1]), rows[|rows| - 1])
  }

  // ---------------------------------------------------------------------
  // The grouping, described per session

  /** The distinct session ids of the rows, in order of first appearance. */
  function SessionIds(rows: seq<HistoryRow>): (r: seq<SessionId>)
    ensures forall a, b :: 0 <= a < b < |r| ==> r[a] != r[b]
    ensures forall id :: id in r <==> exists i :: 0 <= i < |rows| && rows[i].sessionId == id
  {
    if |rows| == 0 then []
    else
      var prefix := SessionIds(rows[..|rows| - 1]);
      var id := rows[|rows| - 1].sessionId;
      assert forall i :: 0 <= i < |rows| - 1 ==> rows[..|rows| - 1][i] == rows[i];
      if id in prefix then prefix else prefix + [id]
  }

  /** The index of the first row of session `id`. */
  function FirstRow(rows: seq<HistoryRow>, id: SessionId): (r: nat)
    requires id in SessionIds(rows)
    ensures r < |rows| && rows[r].sessionId == id
    ensures forall i :: 0 <= i < r ==> rows[i].sessionId != id
  {
    var prefix := rows[..|rows| - 1];
    assert forall i :: 0 <= i < |rows| - 1 ==> prefix[i] == rows[i];
    if id in SessionIds(prefix) then FirstRow(prefix, id) else |rows| - 1
  }

  /** The items of the rows of session `id`, in row order. */
  function ItemsFor(rows: seq<HistoryRow>, id: SessionId): seq<HistoryItem>
  {
    if |rows| == 0 then []
    else ItemsFor(rows[..|rows| - 1], id) + (if rows[|rows| - 1].sessionId == id then [rows[|rows| - 1].item] else [])
  }

  /** The entry of each session: its id, the date of its first row, and
      its items. */
  function Expected(rows: seq<HistoryRow>): (r: seq<SessionEntry>)
    ensures |r| == |SessionIds(rows)|
  {
    var ids := SessionIds(rows);
    seq(|ids|, i requires 0 <= i < |ids| =>
      SessionEntry(ids[i], rows[FirstRow(rows, ids[i])].date, ItemsFor(rows, ids[i])))
  }

  /** The sum of the item counts of the entries. */
  function TotalItems(entries: seq<SessionEntry>): nat
  {
    if |entries| == 0 then 0 else TotalItems(entries[..|entries| - 1]) + |entries[|entries| - 1].items|
  }

  // ---------------------------------------------------------------------
  // The loop does what the description says

  /** A session with no row has no items. */
  lemma {:induction false} ItemsForAbsent(rows: seq<HistoryRow>, id: SessionId)
    requires id !in SessionIds(rows)
    ensures ItemsFor(rows, id) == []
  {
    if |rows| > 0 {
      var prefix := rows[..|rows| - 1];
      assert forall i :: 0 <= i < |prefix| ==> prefix[i] == rows[i];
      ItemsForAbsent(prefix, id);
    }
  }

  /** What an extra row at the end does to the description's parts. */
  lemma SnocParts(rows: seq<HistoryRow>)
    requires |rows| > 0
    ensures var prefix, x := rows[..|rows| - 1], rows[|rows| - 1];
      && (forall id :: id in SessionIds(prefix) ==> FirstRow(rows, id) == FirstRow(prefix, id))
      && (forall id :: id in SessionIds(prefix) ==> rows[FirstRow(rows, id)] == prefix[FirstRow(prefix, id)])
      && (forall id :: ItemsFor(rows, id) == ItemsFor(prefix, id) + (if x.sessionId == id then [x.item] else []))
  {
  }

  /** A row of a session already seen adds its item to that entry. */
  lemma ExpectedSnocKnown(rows: seq<HistoryRow>)
    requires |rows| > 0
    requires rows[|rows| - 1].sessionId in SessionIds(rows[..|rows| - 1])
    ensures AddRow(Expected(rows[..|rows| - 1]), rows[|rows| - 1]) == Expected(rows)
  {
    var prefix, x := rows[..|rows| - 1], rows[|rows| - 1];
    var e, ids := Expected(prefix), SessionIds(prefix);
    SnocParts(rows);
    assert SessionIds(rows) == ids;
    var j :| 0 <= j < |ids| && ids[j] == x.sessionId;
    assert e[j].sessionId == x.sessionId;
    var k := IndexOfSession(e, x.sessionId);
    assert k == j;
    var r := AddRow(e, x);
    var want := Expected(rows);
    assert |r| == |want|;
    forall i | 0 <= i < |ids|
      ensures r[i] == want[i]
    {
      assert e[i] == SessionEntry(ids[i], prefix[FirstRow(prefix, ids[i])].date, ItemsFor(prefix, ids[i]));
      assert want[i] == SessionEntry(ids[i], rows[FirstRow(rows, ids[i])].date, ItemsFor(rows, ids[i]));
    }
  }

  /** A row of a new session adds an entry at the end. */
  lemma ExpectedSnocNew(rows: seq<HistoryRow>)
    requires |rows| > 0
    requires rows[|rows| - 1].sessionId !in SessionIds(rows[..|rows| - 1])
    ensures AddRow(Expected(rows[..|rows| - 1]), rows[|rows| - 1]) == Expected(rows)
  {
    var prefix, x := rows[..|rows| - 1], rows[|rows| - 1];
    var e, ids := Expected(prefix), SessionIds(prefix);
    SnocParts(rows);
    ItemsForAbsent(prefix, x.sessionId);
    assert SessionIds(rows) == ids + [x.sessionId];
    var r := AddRow(e, x);
    var want := Expected(rows);
    assert |r| == |want|;
    forall i | 0 <= i < |ids|
      ensures r[i] == want[i]
    {
      assert e[i] == SessionEntry(ids[i], prefix[FirstRow(prefix, ids[i])].date, ItemsFor(prefix, ids[i]));
      assert want[i] == SessionEntry(ids[i], rows[FirstRow(rows, ids[i])].date, ItemsFor(rows, ids[i]));
    }
    assert r[|ids|] == want[|ids|];
  }

  /** The loop builds exactly the per-session description. */
  lemma {:induction false} GroupedIsExpected(rows: seq<HistoryRow>)
    ensures Grouped(rows) == Expected(rows)
  {
    if |rows| > 0 {
      GroupedIsExpected(rows[..|rows| - 1]);
      if rows[|rows| - 1].sessionId in SessionIds(rows[..|rows| - 1]) {
        ExpectedSnocKnown(rows);
      } else {
        ExpectedSnocNew(rows);
      }
    }
  }

  /** The sessions are listed in the order of their first rows. */
  lemma {:induction false} FirstAppearanceOrder(rows: seq<HistoryRow>)
    ensures var ids := SessionIds(rows);
      forall a, b :: 0 <= a < b < |ids| ==> FirstRow(rows, ids[a]) < FirstRow(rows, ids[b])
  {
    if |rows| > 0 {
      var prefix := rows[..|rows| - 1];
      FirstAppearanceOrder(prefix);
      SnocParts(rows);
      var pids, ids := SessionIds(prefix), SessionIds(rows);
      var x := rows[|rows| - 1].sessionId;
      assert ids == if x in pids then pids else pids + [x];
      forall a, b | 0 <= a < b < |ids|
        ensures FirstRow(rows, ids[a]) < FirstRow(rows, ids[b])
      {
        assert ids[a] == pids[a];
        if b < |pids| {
          assert ids[b] == pids[b];
          assert FirstRow(prefix, pids[a]) < FirstRow(prefix, pids[b]);
        } else {
          assert ids[b] == x && x !in pids;
          assert FirstRow(rows, x) == |rows| - 1;
          assert FirstRow(prefix, pids[a]) < |prefix|;
        }
      }
    }
  }

  lemma {:induction false} TotalItemsUpdate(entries: seq<SessionEntry>, k: nat, e: SessionEntry)
    requires k < |entries|
    ensures TotalItems(entries[k := e]) + |entries[k].items| == TotalItems(entries) + |e.items|
    decreases |entries|
  {
    var n := |entries|;
    var u := entries[k := e];
    assert u[..n - 1] == if k < n - 1 then entries[..n - 1][k := e] else entries[..n - 1];
    if k < n - 1 {
      TotalItemsUpdate(entries[..n - 1], k, e);
    }
  }

  /** Every row becomes exactly one item. */
  lemma {:induction false} EveryRowOneItem(rows: seq<HistoryRow>)
    ensures TotalItems(Grouped(rows)) == |rows|
  {
    if |rows| > 0 {
      var prefix, x := rows[..|rows| - 1], rows[|rows| - 1];
      EveryRowOneItem(prefix);
      var e := Grouped(prefix);
      var k := IndexOfSession(e, x.sessionId);
      if k < 0 {
        assert (e + [SessionEntry(x.sessionId, x.date, [x.item])])[..|e|] == e;
      } else {
        TotalItemsUpdate(e, k, e[k].(items := e[k].items + [x.item]));
      }
    }
  }

  /** What groupHistory promises: one entry per distinct session, in order
      of first appearance, each with the date of its first row and the
      items of its rows in row order; every row lands in exactly one
      entry. */
  lemma HistoryGrouping(rows: seq<HistoryRow>)
    ensures var gs, ids := Grouped(rows), SessionIds(rows);
      && |gs| == |ids|
      && (forall i :: 0 <= i < |gs| ==> gs[i].sessionId == ids[i])
      && (forall a, b :: 0 <= a < b < |gs| ==> gs[a].sessionId != gs[b].sessionId)
      && (forall a, b :: 0 <= a < b < |gs| ==> FirstRow(rows, ids[a]) < FirstRow(rows, ids[b]))
      && (forall i :: 0 <= i < |rows| ==> exists j :: 0 <= j < |gs| && gs[j].sessionId == rows[i].sessionId)
      && (forall i :: 0 <= i < |gs| ==>
            gs[i].items == ItemsFor(rows, ids[i]) && gs[i].date == rows[FirstRow(rows, ids[i])].date)
      && TotalItems(gs) == |rows|
  {
    GroupedIsExpected(rows);
    FirstAppearanceOrder(rows);
    EveryRowOneItem(rows);
    var gs, ids := Grouped(rows), SessionIds(rows);
    forall i | 0 <= i < |rows|
      ensures exists j :: 0 <= j < |gs| && gs[j].sessionId == rows[i].sessionId
    {
      assert rows[i].sessionId in ids;
      var j :| 0 <= j < |ids| && ids[j] == rows[i].sessionId;
      assert gs[j].sessionId == rows[i].sessionId;
    }
  }

  // ---------------------------------------------------------------------
  // The loop as the handler runs it

  /** A row whose key the index does not hold starts a new entry. */
  lemma NewSessionRow(before: seq<SessionEntry>, row: HistoryRow, byId: map<string, nat>)
    requires forall j :: 0 <= j < |before| ==> RitualEvents.IntText(before[j].sessionId) in byId
    requires RitualEvents.IntText(row.sessionId) !in byId
    ensures AddRow(before, row) == before + [SessionEntry(row.sessionId, row.date, [row.item])]
  {
    assert IndexOfSession(before, row.sessionId) < 0;
  }

  /** A row whose key names entry `j` joins that entry: the text of a
      session id determines the id. */
  lemma KnownSessionRow(before: seq<SessionEntry>, row: HistoryRow, j: nat)
    requires j < |before|
    requires forall a, b :: 0 <= a < b < |before| ==> before[a].sessionId != before[b].sessionId
    requires RitualEvents.IntText(before[j].sessionId) == RitualEvents.IntText(row.sessionId)
    ensures AddRow(before, row) == before[j := before[j].(items := before[j].items + [row.item])]
  {
    RitualEvents.IntTextValue(row.sessionId);
    RitualEvents.IntTextValue(before[j].sessionId);
    assert before[j].sessionId == row.sessionId;
    assert IndexOfSession(before, row.sessionId) == j;
  }

  /** `byId` indexes `sessions`: the entries have distinct session ids,
      and the text of each entry's id maps to that entry's index. */
  predicate Indexes(byId: map<string, nat>, sessions: seq<SessionEntry>)
  {
    && (forall a, b :: 0 <= a < b < |sessions| ==> sessions[a].sessionId != sessions[b].sessionId)
    && (forall key :: key in byId ==>
          byId[key] < |sessions| && RitualEvents.IntText(sessions[byId[key]].sessionId) == key)
    && (forall j :: 0 <= j < |sessions| ==> RitualEvents.IntText(sessions[j].sessionId) in byId)
  }

  /** The loop body of groupHistory for one row. */
  method PlaceRow(sessions: seq<SessionEntry>, byId: map<string, nat>, row: HistoryRow)
    returns (sessions': seq<SessionEntry>, byId': map<string, nat>)
    requires Indexes(byId, sessions)
    ensures Indexes(byId', sessions')
    ensures sessions' == AddRow(sessions, row)
  {
    sessions', byId' := sessions, byId;
    var key := RitualEvents.IntText(row.sessionId);
    if key !in byId' {
      NewSessionRow(sessions, row, byId);
      byId' := byId'[key := |sessions'|];
      sessions' := sessions' + [SessionEntry(row.sessionId, row.date, [])];
    } else {
      KnownSessionRow(sessions, row, byId[key]);
    }
    var k := byId'[key];
    sessions' := sessions'[k := sessions'[k].(items := sessions'[k].items + [row.item])];
    assert [] + [row.item] == [row.item];
  }

  /** The rows' grouping as groupHistory builds it: `sessions` in order of
      creation, and `byId` from the text of a session id to the index of its
      entry in `sessions`. */
  method GroupRows(rows: seq<HistoryRow>) returns (sessions: seq<SessionEntry>)
    ensures sessions == Grouped(rows)
  {
    sessions := [];
    var byId: map<string, nat> := map[];
    for i := 0 to |rows|
      invariant sessions == Grouped(rows[..i])
      invariant Indexes(byId, sessions)
    {
      assert rows[..i + 1][..i] == rows[..i];
      sessions, byId := PlaceRow(sessions, byId, rows[i]);
    }
    assert rows[..|rows|] == rows;
  }
}
