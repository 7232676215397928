/**
 The message table (backend/sqlite_store.go) as a table of rows in insertion order. A
 row's id is its position plus one, as rows are never deleted, so id 0 stands for "not
 stored". A time is the text the table stores for it, "" for the zero time.
 */
module MessageStore {
  import opened Common
  import opened TextOrder

  type Time = string

  datatype Direction = In | Out

  datatype Status = Queued | Sent | Delivered | Unconfirmed | Failed | ReceivedStatus

  datatype Reception = Reception(at: Time, snr: int, pathLen: nat, rttMs: nat)

  datatype Row = Row(
    dir: Direction, kind: string, peer: string, channel: string, text: string, timestamp: Time, read: bool,
    status: Status, ackCode: string, ackedAt: Time, receptions: seq<Reception>)

  function Inserted(rows: seq<Row>, rec: Row, now: Time): seq<Row> {
    rows + [if rec.timestamp == "" then rec.(timestamp := now) else rec]
  }

  function WithStatus(rows: seq<Row>, id: nat, status: Status, ackCode: string): seq<Row> {
    if 1 <= id <= |rows| then
      var row := rows[id - 1].(status := status);
      rows[id - 1 := if ackCode == "" then row else row.(ackCode := ackCode)]
    else rows
  }

  predicate SameMessage(row: Row, rec: Row) {
    row.dir.In? && row.peer == rec.peer && row.text == rec.text && row.timestamp == rec.timestamp
  }

  /** An incoming row that the message was recorded as before. */
  ghost predicate Repeats(rec: Row, row: Row) {
    row.dir == In && (row.peer, row.text, row.timestamp) == (rec.peer, rec.text, rec.timestamp)
  }

  /** The first row that is the same message, or the number of rows. */
  function Find(rows: seq<Row>, rec: Row): (k: nat)
    ensures k <= |rows| && (k < |rows| ==> SameMessage(rows[k], rec))
    ensures forall i | 0 <= i < k :: !SameMessage(rows[i], rec)
  {
    if rows == [] then 0
    else if SameMessage(rows[0], rec) then 0
    else 1 + Find(rows[1..], rec)
  }

  function Heard(rows: seq<Row>, rec: Row, hearing: Reception, now: Time): seq<Row> {
    var k := Find(rows, rec);
    if k < |rows| then rows[k := rows[k].(receptions := rows[k].receptions + [hearing])]
    else Inserted(rows, rec.(receptions := [hearing]), now)
  }

  predicate AckMatches(row: Row, code: string) {
    row.dir.Out? && row.ackCode == code
  }

  function AckRow(row: Row, code: string, ack: Reception): Row {
    if AckMatches(row, code) then
      row.(status := Delivered, ackedAt := if row.ackedAt == "" then ack.at else row.ackedAt,
           receptions := row.receptions + [ack])
    else row
  }

  function Acked(rows: seq<Row>, code: string, ack: Reception): (r: seq<Row>)
    ensures |r| == |rows|
    ensures forall i | 0 <= i < |rows| :: r[i] == if code == "" then rows[i] else AckRow(rows[i], code, ack)
  {
    if code == "" then rows
    else seq(|rows|, i requires 0 <= i < |rows| => AckRow(rows[i], code, ack))
  }

  function TimeoutRow(row: Row, code: string): Row {
    if AckMatches(row, code) && row.status.Sent? then row.(status := Unconfirmed) else row
  }

  function TimedOut(rows: seq<Row>, code: string): (r: seq<Row>)
    ensures |r| == |rows|
    ensures forall i | 0 <= i < |rows| :: r[i] == if code == "" then rows[i] else TimeoutRow(rows[i], code)
  {
    if code == "" then rows
    else seq(|rows|, i requires 0 <= i < |rows| => TimeoutRow(rows[i], code))
  }

  /** The two orders of an ack and of the end of its window agree: an ack overrides an
      unconfirmed status, and a delivered row is never unconfirmed again. */
  lemma AckOverridesTimeout(rows: seq<Row>, code: string, ack: Reception)
    ensures Acked(TimedOut(rows, code), code, ack) == Acked(rows, code, ack)
    ensures TimedOut(Acked(rows, code, ack), code) == Acked(rows, code, ack)
  {
  }

  // ---------------------------------------------------------------------------
  // Queries
  // ---------------------------------------------------------------------------

  /** What narrows a query; "" and None stand for any. */
  datatype Filter = Filter(
    dir: Option<Direction>, kind: string, peer: string, channel: string, unreadOnly: bool, limit: int)

  predicate Selected(row: Row, f: Filter) {
    && (f.dir.Some? ==> row.dir == f.dir.value)
    && (f.kind != "" ==> row.kind == f.kind)
    && (f.peer != "" ==> row.peer == f.peer)
    && (f.channel != "" ==> row.channel == f.channel)
    && (f.unreadOnly ==> !row.read)
  }

  predicate Ids(rows: seq<Row>, ids: seq<nat>) {
    forall i | 0 <= i < |ids| :: 1 <= ids[i] <= |rows|
  }

  /** By the text of the timestamp, then by id. */
  predicate Before(rows: seq<Row>, a: nat, b: nat)
    requires 1 <= a <= |rows| && 1 <= b <= |rows|
  {
    var ta, tb := rows[a - 1].timestamp, rows[b - 1].timestamp;
    Less(ta, tb) || (ta == tb && a < b)
  }

  predicate InOrder(rows: seq<Row>, ids: seq<nat>) {
    Ids(rows, ids) && forall i, j | 0 <= i < j < |ids| :: Before(rows, ids[i], ids[j])
  }

  function InsertId(rows: seq<Row>, ids: seq<nat>, id: nat): (r: seq<nat>)
    requires Ids(rows, ids) && 1 <= id <= |rows|
    ensures Ids(rows, r) && forall x :: x in r <==> x == id || x in ids
  {
    if ids == [] then [id]
    else if Before(rows, id, ids[0]) then [id] + ids
    else
      assert forall x :: x in ids <==> x == ids[0] || x in ids[1..];
      [ids[0]] + InsertId(rows, ids[1..], id)
  }

  /** The ids of the selected rows among the first `n`, in order. */
  function SelectIds(rows: seq<Row>, f: Filter, n: nat): (ids: seq<nat>)
    requires n <= |rows|
    ensures Ids(rows, ids) && forall id :: id in ids <==> 1 <= id <= n && Selected(rows[id - 1], f)
  {
    if n == 0 then []
    else
      var earlier := SelectIds(rows, f, n - 1);
      if Selected(rows[n - 1], f) then InsertId(rows, earlier, n) else earlier
  }

  lemma BeforeTotal(rows: seq<Row>, a: nat, b: nat)
    requires 1 <= a <= |rows| && 1 <= b <= |rows| && a != b
    ensures Before(rows, a, b) || Before(rows, b, a)
  {
    LessTotal(rows[a - 1].timestamp, rows[b - 1].timestamp);
  }

  lemma BeforeTransitive(rows: seq<Row>, a: nat, b: nat, c: nat)
    requires 1 <= a <= |rows| && 1 <= b <= |rows| && 1 <= c <= |rows| && Before(rows, a, b) && Before(rows, b, c)
    ensures Before(rows, a, c)
  {
    var ta, tb, tc := rows[a - 1].timestamp, rows[b - 1].timestamp, rows[c - 1].timestamp;
    if Less(ta, tb) && Less(tb, tc) {
      LessTransitive(ta, tb, tc);
    }
  }

  lemma {:induction false} InsertKeepsOrder(rows: seq<Row>, ids: seq<nat>, id: nat)
    requires InOrder(rows, ids) && 1 <= id <= |rows| && id !in ids
    ensures InOrder(rows, InsertId(rows, ids, id))
  {
    if ids != [] {
      if Before(rows, id, ids[0]) {
        forall j | 0 <= j < |ids|
          ensures Before(rows, id, ids[j])
        {
          if j > 0 {
            BeforeTransitive(rows, id, ids[0], ids[j]);
          }
        }
      } else {
        var tail := InsertId(rows, ids[1..], id);
        InsertKeepsOrder(rows, ids[1..], id);
        BeforeTotal(rows, id, ids[0]);
        forall j | 0 <= j < |tail|
          ensures Before(rows, ids[0], tail[j])
        {
          assert tail[j] in tail;
        }
      }
    }
  }

  /** A query lists the selected rows by timestamp text and id, each once. */
  lemma {:induction false} SelectInOrder(rows: seq<Row>, f: Filter, n: nat)
    requires n <= |rows|
    ensures InOrder(rows, SelectIds(rows, f, n))
  {
    if n > 0 {
      SelectInOrder(rows, f, n - 1);
      InsertKeepsOrder(rows, SelectIds(rows, f, n - 1), n);
    }
  }

  /** Each id once. */
  lemma InOrderIsDistinct(rows: seq<Row>, ids: seq<nat>)
    requires InOrder(rows, ids)
    ensures forall i, j | 0 <= i < j < |ids| :: ids[i] != ids[j]
  {
    forall i, j | 0 <= i < j < |ids|
      ensures ids[i] != ids[j]
    {
      LessIrreflexive(rows[ids[i] - 1].timestamp);
    }
  }

  function Limited(ids: seq<nat>, limit: int): seq<nat> {
    if 0 < limit < |ids| then ids[..limit] else ids
  }

  /** The rows a filter asks for, by their fields: each condition that is given must hold. */
  ghost function Wanted(rows: seq<Row>, f: Filter): set<nat> {
    set id: nat | 1 <= id <= |rows| && Meets(rows, id, f)
  }

  ghost predicate Meets(rows: seq<Row>, id: nat, f: Filter)
    requires 1 <= id <= |rows|
  {
    var row := rows[id - 1];
    match f
    case Filter(dir, kind, peer, channel, unreadOnly, _) =>
      && (dir == None || dir == Some(row.dir)) && kind in {"", row.kind} && peer in {"", row.peer}
      && channel in {"", row.channel} && !(unreadOnly && row.read)
  }

  /** By the text of the timestamp, then by id. */
  ghost predicate Earlier(rows: seq<Row>, a: nat, b: nat) {
    && 1 <= a <= |rows| && 1 <= b <= |rows|
    && (rows[a - 1].timestamp == rows[b - 1].timestamp ==> a < b)
    && (rows[a - 1].timestamp != rows[b - 1].timestamp ==> Less(rows[a - 1].timestamp, rows[b - 1].timestamp))
  }

  lemma EarlierIff(rows: seq<Row>, a: nat, b: nat)
    requires 1 <= a <= |rows| && 1 <= b <= |rows|
    ensures Before(rows, a, b) <==> Earlier(rows, a, b)
  {
    LessIrreflexive(rows[a - 1].timestamp);
  }

  ghost function SetOf(ids: seq<nat>): set<nat> {
    set id | id in ids
  }

  lemma {:induction false} CountDistinct(ids: seq<nat>)
    requires forall i, j | 0 <= i < j < |ids| :: ids[i] != ids[j]
    ensures |SetOf(ids)| == |ids|
  {
    if ids == [] {
      assert SetOf(ids) == {};
    } else {
      var n := |ids| - 1;
      CountDistinct(ids[..n]);
      assert forall id :: id in ids <==> id in ids[..n] || id == ids[n];
      assert SetOf(ids) == SetOf(ids[..n]) + {ids[n]};
      assert ids[n] !in SetOf(ids[..n]);
    }
  }

  lemma SelectWanted(rows: seq<Row>, f: Filter)
    ensures var all := SelectIds(rows, f, |rows|);
            && (forall id :: id in all <==> id in Wanted(rows, f)) && |all| == |Wanted(rows, f)|
            && forall i, j | 0 <= i < j < |all| :: Earlier(rows, all[i], all[j])
  {
    var all := SelectIds(rows, f, |rows|);
    assert forall id: nat | 1 <= id <= |rows| :: Meets(rows, id, f) <==> Selected(rows[id - 1], f);
    SelectInOrder(rows, f, |rows|);
    InOrderIsDistinct(rows, all);
    CountDistinct(all);
    assert SetOf(all) == Wanted(rows, f);
    forall i, j | 0 <= i < j < |all|
      ensures Earlier(rows, all[i], all[j])
    {
      EarlierIff(rows, all[i], all[j]);
    }
  }

  lemma LimitExact(rows: seq<Row>, f: Filter)
    ensures var ids := Limited(SelectIds(rows, f, |rows|), f.limit);
            && (forall id | id in ids :: id in Wanted(rows, f))
            && |ids| == (if 0 < f.limit < |Wanted(rows, f)| then f.limit else |Wanted(rows, f)|)
            && (f.limit <= 0 ==> forall id | id in Wanted(rows, f) :: id in ids)
            && (forall i, j | 0 <= i < j < |ids| :: Earlier(rows, ids[i], ids[j]))
            && (forall id, x | id in Wanted(rows, f) && id !in ids && x in ids :: Earlier(rows, x, id))
  {
    SelectWanted(rows, f);
    var all := SelectIds(rows, f, |rows|);
    var ids := Limited(all, f.limit);
    forall id, x | id in Wanted(rows, f) && id !in ids && x in ids
      ensures Earlier(rows, x, id)
    {
      var i :| 0 <= i < |all| && all[i] == id;
      var j :| 0 <= j < |ids| && ids[j] == x;
      assert forall m | 0 <= m < |ids| :: ids[m] == all[m] && ids[m] in ids;
    }
  }

  /** What the inbox asks for. */
  const Inbox := Filter(Some(In), "", "", "", true, 0)

  function UnreadIds(rows: seq<Row>): (ids: seq<nat>)
    ensures forall id :: id in ids <==> 1 <= id <= |rows| && rows[id - 1].dir.In? && !rows[id - 1].read
  {
    SelectIds(rows, Inbox, |rows|)
  }

  function MarkedRead(rows: seq<Row>, ids: seq<nat>): (r: seq<Row>)
    ensures |r| == |rows|
    ensures forall i | 0 <= i < |rows| :: r[i] == if i + 1 in ids then rows[i].(read := true) else rows[i]
  {
    seq(|rows|, i requires 0 <= i < |rows| => if i + 1 in ids then rows[i].(read := true) else rows[i])
  }

  class Store {
    var rows: seq<Row>

    constructor ()
      ensures rows == []
    {
      rows := [];
    }

    method InsertMessage(rec: Row, now: Time) returns (id: nat)
      modifies this
      ensures rows == Inserted(old(rows), rec, now) && id == |rows|
      ensures |rows| == |old(rows)| + 1 && rows[..|old(rows)|] == old(rows)
      ensures rows[id - 1] == if rec.timestamp == "" then rec.(timestamp := now) else rec
    {
      var stored := rec;
      if stored.timestamp == "" {
        stored := stored.(timestamp := now);
      }
      rows := rows + [stored];
      id := |rows|;
    }

    method SetMessageStatus(id: nat, status: Status, ackCode: string)
      modifies this
      ensures rows == WithStatus(old(rows), id, status, ackCode)
      ensures |rows| == |old(rows)|
      ensures forall i | 0 <= i < |rows| ::
                if i + 1 != id then rows[i] == old(rows)[i]
                else if ackCode == "" then rows[i] == old(rows)[i].(status := status)
                else rows[i] == old(rows)[i].(status := status, ackCode := ackCode)
    {
      if 1 <= id <= |rows| {
        if ackCode == "" {
          rows := rows[id - 1 := rows[id - 1].(status := status)];
        } else {
          rows := rows[id - 1 := rows[id - 1].(status := status, ackCode := ackCode)];
        }
      }
    }

    method RecordReceivedMessage(rec: Row, hearing: Reception, now: Time) returns (inserted: bool)
      modifies this
      ensures rows == Heard(old(rows), rec, hearing.(at := if hearing.at == "" then now else hearing.at), now)
      ensures inserted <==> forall i | 0 <= i < |old(rows)| :: !Repeats(rec, old(rows)[i])
      ensures var h := if hearing.at == "" then hearing.(at := now) else hearing;
              if inserted then
                && |rows| == |old(rows)| + 1 && rows[..|old(rows)|] == old(rows)
                && rows[|old(rows)|] == rec.(
                     receptions := [h], timestamp := if rec.timestamp == "" then now else rec.timestamp)
              else
                exists k | 0 <= k < |old(rows)| ::
                  && Repeats(rec, old(rows)[k]) && (forall i | 0 <= i < k :: !Repeats(rec, old(rows)[i]))
                  && rows == old(rows)[k := old(rows)[k].(receptions := old(rows)[k].receptions + [h])]
    {
      var h := hearing;
      if h.at == "" {
        h := h.(at := now);
      }
      var k := Find(rows, rec);
      if k == |rows| {
        var id := InsertMessage(rec.(receptions := [h]), now);
        return true;
      }
      rows := rows[k := rows[k].(receptions := rows[k].receptions + [h])];
      return false;
    }

    /** First collects an update for every matching row, then writes them. */
    method AppendAck(code: string, ack: Reception)
      modifies this
      ensures rows == Acked(old(rows), code, ack)
      ensures |rows| == |old(rows)|
      ensures forall i | 0 <= i < |rows| ::
                if code != "" && old(rows)[i].dir.Out? && old(rows)[i].ackCode == code
                then rows[i] == old(rows)[i].(
                       status := Delivered, receptions := old(rows)[i].receptions + [ack],
                       ackedAt := if old(rows)[i].ackedAt == "" then ack.at else old(rows)[i].ackedAt)
                else rows[i] == old(rows)[i]
    {
      if code == "" {
        return;
      }
      var updates: seq<(nat, Row)> := [];
      for i := 0 to |rows|
        invariant forall u | u in updates ::
            u.0 < i && AckMatches(rows[u.0], code) && u.1 == AckRow(rows[u.0], code, ack)
        invariant forall j | 0 <= j < i && AckMatches(rows[j], code) :: exists u | u in updates :: u.0 == j
      {
        if AckMatches(rows[i], code) {
          var ackedAt := if rows[i].ackedAt == "" then ack.at else rows[i].ackedAt;
          var updated := rows[i].(status := Delivered, ackedAt := ackedAt, receptions := rows[i].receptions + [ack]);
          assert (i, updated) in updates + [(i, updated)];
          updates := updates + [(i, updated)];
        }
      }
      for k := 0 to |updates|
        invariant |rows| == |old(rows)|
        invariant forall j | 0 <= j < |rows| ::
            rows[j] == if exists u | u in updates[..k] :: u.0 == j
                       then AckRow(old(rows)[j], code, ack) else old(rows)[j]
      {
        var (j, updated) := updates[k];
        assert updates[..k + 1] == updates[..k] + [updates[k]];
        rows := rows[j := updated];
      }
      assert updates[..|updates|] == updates;
    }

    /** The sent rows of that code, and no others, become unconfirmed. */
    method MarkUnconfirmed(code: string)
      modifies this
      ensures |rows| == |old(rows)|
      ensures forall i | 0 <= i < |rows| ::
                if code != "" && old(rows)[i].dir.Out? && old(rows)[i].ackCode == code && old(rows)[i].status.Sent?
                then rows[i] == old(rows)[i].(status := Unconfirmed) else rows[i] == old(rows)[i]
      ensures rows == TimedOut(old(rows), code)
    {
      if code == "" {
        return;
      }
      for k := 0 to |rows|
        invariant |rows| == |old(rows)|
        invariant forall i | 0 <= i < k :: rows[i] == TimeoutRow(old(rows)[i], code)
        invariant forall i | k <= i < |rows| :: rows[i] == old(rows)[i]
      {
        if rows[k].dir.Out? && rows[k].ackCode == code && rows[k].status.Sent? {
          rows := rows[k := rows[k].(status := Unconfirmed)];
        }
      }
    }

    /** The ids of the rows that meet every condition of the filter, by timestamp text and
        then id; with a limit, the first so many of them. */
    method Messages(f: Filter) returns (ids: seq<nat>)
      ensures ids == Limited(SelectIds(rows, f, |rows|), f.limit)
      ensures forall id | id in ids :: id in Wanted(rows, f)
      ensures |ids| == if 0 < f.limit < |Wanted(rows, f)| then f.limit else |Wanted(rows, f)|
      ensures f.limit <= 0 ==> forall id | id in Wanted(rows, f) :: id in ids
      ensures forall i, j | 0 <= i < j < |ids| :: Earlier(rows, ids[i], ids[j])
      ensures forall id, x | id in Wanted(rows, f) && id !in ids && x in ids :: Earlier(rows, x, id)
    {
      ids := [];
      for n := 0 to |rows|
        invariant ids == SelectIds(rows, f, n)
      {
        if Selected(rows[n], f) {
          ids := InsertId(rows, ids, n + 1);
        }
      }
      LimitExact(rows, f);
      if 0 < f.limit < |ids| {
        ids := ids[..f.limit];
      }
    }

    method MarkMessagesRead(ids: seq<nat>)
      modifies this
      ensures rows == MarkedRead(old(rows), ids)
    {
      for k := 0 to |ids|
        invariant rows == MarkedRead(old(rows), ids[..k])
      {
        var id := ids[k];
        assert ids[..k + 1] == ids[..k] + [id];
        if 1 <= id <= |rows| {
          rows := rows[id - 1 := rows[id - 1].(read := true)];
        }
      }
      assert ids[..|ids|] == ids;
    }
  }
}
