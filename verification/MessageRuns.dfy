/**
 What the session does to its message table over time: sending (backend/server.go),
 acknowledgements, hearings and the unread hand-out (backend/messages.go). Every store
 call is one action, so an action may fall between any two store calls of an operation.
 */
module MessageRuns {
  import opened Common
  import opened AckCode
  import opened MessageStore

  /** Who a message is to or from, and what it says. */
  datatype Letter = Letter(kind: string, peer: string, channel: string, text: string)

  datatype CallState = Open | Committed | MarkFailed

  /** A call of storedInbox: what it handed out, and the fate of its mark. */
  datatype Call = Call(ids: seq<nat>, state: CallState)

  /** `pending` are the rows whose send is under way, `codes` the ack codes stored with
      rows, `hearings` how many hearings were recorded. */
  datatype State = State(rows: seq<Row>, pending: set<nat>, codes: map<nat, uint32>, calls: seq<Call>, hearings: nat)

  const Init := State([], {}, map[], [], 0)

  datatype Action =
    | BeginSend(m: Letter, now: Time)
    | SendFailed(id: nat)
    | SendOk(id: nat, code: uint32)
    | ChannelSendOk(id: nat)
    | StatusLost(id: nat)
    | Ack(code: uint32, at: Time, rttMs: nat)
    | AckWindowOver(code: uint32)
    | Hear(m: Letter, timestamp: Time, hearing: Reception, now: Time)
    | Query
    | Mark(c: nat, ok: bool)

  predicate Enabled(s: State, a: Action) {
    match a
    case BeginSend(_, now) => now != ""
    case SendFailed(id) => id in s.pending
    case SendOk(id, _) => id in s.pending
    case ChannelSendOk(id) => id in s.pending
    case StatusLost(id) => id in s.pending
    case Ack(_, at, _) => at != ""
    case AckWindowOver(_) => true
    case Hear(_, _, hearing, now) => now != ""
    case Query => true
    case Mark(c, _) => c < |s.calls| && s.calls[c].state.Open?
  }

  function Outgoing(m: Letter, now: Time): Row {
    Row(Out, m.kind, m.peer, m.channel, m.text, now, true, Queued, "", "", [])
  }

  function Incoming(m: Letter, timestamp: Time): Row {
    Row(In, m.kind, m.peer, m.channel, m.text, timestamp, false, ReceivedStatus, "", "", [])
  }

  function Apply(s: State, a: Action): State
    requires Enabled(s, a)
  {
    match a
    case BeginSend(m, now) =>
      s.(rows := Inserted(s.rows, Outgoing(m, now), now), pending := s.pending + {|s.rows| + 1})
    case SendFailed(id) =>
      s.(rows := WithStatus(s.rows, id, Failed, ""), pending := s.pending - {id})
    case SendOk(id, code) =>
      s.(rows := WithStatus(s.rows, id, Sent, ReceiptID(code)), pending := s.pending - {id},
         codes := s.codes[id := code])
    case ChannelSendOk(id) =>
      s.(rows := WithStatus(s.rows, id, Sent, ""), pending := s.pending - {id})
    case StatusLost(id) => s.(pending := s.pending - {id})
    case Ack(code, at, rttMs) => s.(rows := Acked(s.rows, LowDigits(code, 8), Reception(at, 0, 0, rttMs)))
    case AckWindowOver(code) => s.(rows := TimedOut(s.rows, ReceiptID(code)))
    case Hear(m, timestamp, hearing, now) =>
      s.(rows := Heard(s.rows, Incoming(m, timestamp), hearing, now), hearings := s.hearings + 1)
    case Query => s.(calls := s.calls + [Call(UnreadIds(s.rows), Open)])
    case Mark(c, ok) =>
      s.(rows := if ok then MarkedRead(s.rows, s.calls[c].ids) else s.rows,
         calls := s.calls[c := s.calls[c].(state := if ok then Committed else MarkFailed)])
  }

  function After(acts: seq<Action>): Option<State> {
    if acts == [] then Some(Init)
    else
      match After(acts[..|acts| - 1])
      case None => None
      case Some(s) =>
        if Enabled(s, acts[|acts| - 1]) then Some(Apply(s, acts[|acts| - 1])) else None
  }

  // ---------------------------------------------------------------------------
  // Delivery status
  // ---------------------------------------------------------------------------

  /** What is always true of the row with an id. */
  predicate RowInv(row: Row, id: nat, pending: set<nat>, codes: map<nat, uint32>) {
    && row.timestamp != ""
    && (row.dir.In? ==>
          row.status.ReceivedStatus? && row.ackCode == "" && row.receptions != [] && id !in pending && id !in codes)
    && (row.dir.Out? ==>
          && (id in pending ==> row.status.Queued?)
          && (row.status.Delivered? <==> row.ackedAt != "")
          && (row.status.Delivered? <==> row.receptions != [])
          && (row.status.Delivered? ==> row.ackedAt == row.receptions[0].at)
          && (if id in codes then
                && row.ackCode == ReceiptID(codes[id])
                && (row.status.Sent? || row.status.Unconfirmed? || row.status.Delivered?)
              else
                row.ackCode == "" && (row.status.Queued? || row.status.Sent? || row.status.Failed?)))
  }

  ghost predicate RowsInv(s: State) {
    && (forall id | id in s.pending || id in s.codes :: 1 <= id <= |s.rows|)
    && (forall i | 0 <= i < |s.rows| :: RowInv(s.rows[i], i + 1, s.pending, s.codes))
  }

  lemma CodeTexts(code: uint32, code': uint32)
    ensures ReceiptID(code) != "" && LowDigits(code, 8) != ""
    ensures LowDigits(code, 8) == ReceiptID(code') <==> code == code'
    ensures ReceiptID(code) == ReceiptID(code') <==> code == code'
  {
    FormatsAgree(code);
    FormatsAgree(code');
    TextsMatchIffCodesDo(code, code');
  }

  lemma StepKeepsRow(s: State, a: Action, i: nat)
    requires RowsInv(s) && Enabled(s, a) && i < |s.rows|
    ensures i < |Apply(s, a).rows| && RowInv(Apply(s, a).rows[i], i + 1, Apply(s, a).pending, Apply(s, a).codes)
  {
    assert RowInv(s.rows[i], i + 1, s.pending, s.codes);
    assert i + 1 in s.pending ==> s.rows[i].dir.Out?;
    if a.Ack? || a.AckWindowOver? {
      AckKeepsRow(s, a, i);
    } else if a.Hear? {
      HearKeepsRow(s, a, i);
    } else if a.SendOk? || a.SendFailed? {
      OutcomeKeepsRow(s, a, i);
    }
  }

  lemma OutcomeKeepsRow(s: State, a: Action, i: nat)
    requires Enabled(s, a) && (a.SendOk? || a.SendFailed?)
    requires i < |s.rows| && RowInv(s.rows[i], i + 1, s.pending, s.codes)
    ensures i < |Apply(s, a).rows| && RowInv(Apply(s, a).rows[i], i + 1, Apply(s, a).pending, Apply(s, a).codes)
  {
    if a.SendOk? {
      CodeTexts(a.code, a.code);
    }
  }

  lemma HearKeepsRow(s: State, a: Action, i: nat)
    requires Enabled(s, a) && a.Hear?
    requires i < |s.rows| && RowInv(s.rows[i], i + 1, s.pending, s.codes)
    ensures i < |Apply(s, a).rows| && RowInv(Apply(s, a).rows[i], i + 1, Apply(s, a).pending, Apply(s, a).codes)
  {
  }

  lemma AckKeepsRow(s: State, a: Action, i: nat)
    requires Enabled(s, a) && (a.Ack? || a.AckWindowOver?)
    requires i < |s.rows| && RowInv(s.rows[i], i + 1, s.pending, s.codes)
    ensures i < |Apply(s, a).rows| && RowInv(Apply(s, a).rows[i], i + 1, Apply(s, a).pending, Apply(s, a).codes)
  {
    CodeTexts(a.code, if i + 1 in s.codes then s.codes[i + 1] else a.code);
  }

  lemma StepKeepsRows(s: State, a: Action)
    requires RowsInv(s) && Enabled(s, a)
    ensures RowsInv(Apply(s, a))
  {
    forall i | 0 <= i < |Apply(s, a).rows|
      ensures RowInv(Apply(s, a).rows[i], i + 1, Apply(s, a).pending, Apply(s, a).codes)
    {
      if i < |s.rows| {
        StepKeepsRow(s, a, i);
      }
    }
  }

  lemma {:induction false} RunKeepsRows(acts: seq<Action>)
    requires After(acts).Some?
    ensures RowsInv(After(acts).value)
  {
    if acts != [] {
      RunKeepsRows(acts[..|acts| - 1]);
      StepKeepsRows(After(acts[..|acts| - 1]).value, acts[|acts| - 1]);
    }
  }

  /** One legal status change of an outgoing row. */
  predicate Advances(st: Status, st': Status) {
    || st == st'
    || (st.Queued? && (st'.Sent? || st'.Failed?))
    || (st.Sent? && (st'.Unconfirmed? || st'.Delivered?))
    || (st.Unconfirmed? && st'.Delivered?)
  }

  /** Any number of them. */
  predicate Later(st: Status, st': Status) {
    || st == st'
    || (st.Queued? && (st'.Sent? || st'.Failed? || st'.Unconfirmed? || st'.Delivered?))
    || (st.Sent? && (st'.Unconfirmed? || st'.Delivered?))
    || (st.Unconfirmed? && st'.Delivered?)
  }

  /** What never changes or is only added to. */
  predicate Extends(row: Row, row': Row) {
    && row'.dir == row.dir && row'.kind == row.kind && row'.peer == row.peer && row'.channel == row.channel
    && row'.text == row.text && row'.timestamp == row.timestamp
    && (row.read ==> row'.read)
    && (row.ackCode != "" ==> row'.ackCode == row.ackCode)
    && (row.ackedAt != "" ==> row'.ackedAt == row.ackedAt)
    && row.receptions <= row'.receptions
  }

  predicate Forward(row: Row, row': Row) {
    Extends(row, row') && Later(row.status, row'.status)
  }

  /** The action acknowledges the row with this id. */
  predicate Acks(s: State, a: Action, id: nat) {
    a.Ack? && id in s.codes && s.codes[id] == a.code
  }

  predicate RowStep(row: Row, row': Row, acked: bool, ack: Reception) {
    && Extends(row, row') && Advances(row.status, row'.status)
    && (row.dir.Out? ==>
          && row'.receptions == row.receptions + (if acked then [ack] else [])
          && (acked ==> row'.status.Delivered?))
  }

  function AckOf(a: Action): Reception {
    if a.Ack? then Reception(a.at, 0, 0, a.rttMs) else Reception("", 0, 0, 0)
  }

  /** In every reachable state, one action advances a row's status by at most one legal
      change; an outgoing row gains a reception, and is then delivered, exactly when the
      action is an ack whose 32-bit code is the one stored with the row. */
  lemma StatusStep(acts: seq<Action>, a: Action, id: nat)
    requires After(acts).Some? && Enabled(After(acts).value, a) && 1 <= id <= |After(acts).value.rows|
    ensures var s := After(acts).value;
            && id <= |Apply(s, a).rows|
            && RowStep(s.rows[id - 1], Apply(s, a).rows[id - 1], Acks(s, a, id), AckOf(a))
  {
    RunKeepsRows(acts);
    var s := After(acts).value;
    assert RowInv(s.rows[id - 1], id, s.pending, s.codes);
    if a.Ack? {
      AckStep(s, a, id);
    } else {
      OtherStep(s, a, id);
    }
  }

  lemma AckStep(s: State, a: Action, id: nat)
    requires Enabled(s, a) && a.Ack? && 1 <= id <= |s.rows| && RowInv(s.rows[id - 1], id, s.pending, s.codes)
    ensures id <= |Apply(s, a).rows|
    ensures RowStep(s.rows[id - 1], Apply(s, a).rows[id - 1], Acks(s, a, id), AckOf(a))
  {
    CodeTexts(a.code, if id in s.codes then s.codes[id] else a.code);
  }

  lemma OtherStep(s: State, a: Action, id: nat)
    requires Enabled(s, a) && !a.Ack? && 1 <= id <= |s.rows| && RowInv(s.rows[id - 1], id, s.pending, s.codes)
    ensures id <= |Apply(s, a).rows|
    ensures RowStep(s.rows[id - 1], Apply(s, a).rows[id - 1], false, AckOf(a))
  {
    if a.SendFailed? || a.SendOk? || a.ChannelSendOk? {
      OutcomeStep(s, a, id);
    } else {
      var row, row' := s.rows[id - 1], Apply(s, a).rows[id - 1];
      RowUnchanged(row, AckOf(a));
      if row' != row {
        match a
        case AckWindowOver(_) => RowTimedOut(row, AckOf(a));
        case Hear(_, _, hearing, _) => RowHeard(row, hearing, AckOf(a));
        case Mark(_, _) => RowRead(row, AckOf(a));
      }
    }
  }

  lemma OutcomeStep(s: State, a: Action, id: nat)
    requires Enabled(s, a) && (a.SendFailed? || a.SendOk? || a.ChannelSendOk?)
    requires 1 <= id <= |s.rows| && RowInv(s.rows[id - 1], id, s.pending, s.codes)
    ensures id <= |Apply(s, a).rows|
    ensures RowStep(s.rows[id - 1], Apply(s, a).rows[id - 1], false, AckOf(a))
  {
    var row := s.rows[id - 1];
    OutcomeRow(s, a, id);
    if a.id == id {
      PendingIsQueued(row, id, s.pending, s.codes);
      RowSent(row, if a.SendFailed? then Failed else Sent, if a.SendOk? then ReceiptID(a.code) else "", AckOf(a));
    } else {
      RowUnchanged(row, AckOf(a));
    }
  }

  lemma PendingIsQueued(row: Row, id: nat, pending: set<nat>, codes: map<nat, uint32>)
    requires RowInv(row, id, pending, codes) && id in pending
    ensures row.status.Queued? && row.ackCode == ""
  {
  }

  lemma OutcomeRow(s: State, a: Action, id: nat)
    requires Enabled(s, a) && (a.SendFailed? || a.SendOk? || a.ChannelSendOk?) && 1 <= id <= |s.rows|
    ensures id <= |Apply(s, a).rows|
    ensures var row, row' := s.rows[id - 1], Apply(s, a).rows[id - 1];
            var st, code := if a.SendFailed? then Failed else Sent, if a.SendOk? then ReceiptID(a.code) else "";
            if a.id != id then row' == row
            else row' == row.(status := st, ackCode := code) || (code == "" && row' == row.(status := st))
  {
  }

  lemma RowUnchanged(row: Row, ack: Reception)
    ensures RowStep(row, row, false, ack)
  {
  }

  lemma RowSent(row: Row, st: Status, code: string, ack: Reception)
    requires row.status.Queued? && row.ackCode == "" && (st.Sent? || st.Failed?)
    ensures RowStep(row, row.(status := st), false, ack)
    ensures RowStep(row, row.(status := st, ackCode := code), false, ack)
  {
  }

  lemma RowTimedOut(row: Row, ack: Reception)
    requires row.status.Sent?
    ensures RowStep(row, row.(status := Unconfirmed), false, ack)
  {
  }

  lemma RowHeard(row: Row, hearing: Reception, ack: Reception)
    requires row.dir.In?
    ensures RowStep(row, row.(receptions := row.receptions + [hearing]), false, ack)
  {
  }

  lemma RowRead(row: Row, ack: Reception)
    ensures RowStep(row, row.(read := true), false, ack)
  {
  }

  lemma ForwardStep(row: Row, mid: Row, row': Row, acked: bool, ack: Reception)
    requires Forward(row, mid) && RowStep(mid, row', acked, ack)
    ensures Forward(row, row')
  {
  }

  lemma {:induction false} RunMovesForward(acts: seq<Action>, more: seq<Action>, id: nat)
    requires After(acts).Some? && After(acts + more).Some? && 1 <= id <= |After(acts).value.rows|
    ensures id <= |After(acts + more).value.rows|
    ensures Forward(After(acts).value.rows[id - 1], After(acts + more).value.rows[id - 1])
    decreases |more|
  {
    if more == [] {
      assert acts + more == acts;
    } else {
      var n := |more| - 1;
      assert (acts + more)[..|acts + more| - 1] == acts + more[..n];
      RunMovesForward(acts, more[..n], id);
      StatusStep(acts + more[..n], more[n], id);
      var s := After(acts + more[..n]).value;
      ForwardStep(After(acts).value.rows[id - 1], s.rows[id - 1], Apply(s, more[n]).rows[id - 1],
                  Acks(s, more[n], id), AckOf(more[n]));
    }
  }

  /** Over any stretch of a run a row only moves forward: delivered and failed are final,
      the ack time and the stored code never change once set, receptions accumulate, and
      a sent row that never gets a code stays sent. */
  lemma StatusOnlyMovesForward(acts: seq<Action>, more: seq<Action>, id: nat)
    requires After(acts).Some? && After(acts + more).Some? && 1 <= id <= |After(acts).value.rows|
    ensures id <= |After(acts + more).value.rows|
    ensures var row, row' := After(acts).value.rows[id - 1], After(acts + more).value.rows[id - 1];
            && Extends(row, row') && Later(row.status, row'.status)
            && (row.dir.Out? && row'.ackCode == "" && row.status.Sent? ==> row'.status.Sent?)
  {
    RunMovesForward(acts, more, id);
    RunKeepsRows(acts + more);
    var s := After(acts + more).value;
    assert RowInv(s.rows[id - 1], id, s.pending, s.codes);
  }

  /** In every reachable state an outgoing row is delivered exactly when it has been
      acknowledged, and its ack time is the first acknowledgement's. */
  lemma DeliveredIffAcked(acts: seq<Action>, id: nat)
    requires After(acts).Some? && 1 <= id <= |After(acts).value.rows| && After(acts).value.rows[id - 1].dir.Out?
    ensures var row := After(acts).value.rows[id - 1];
            && (row.status.Delivered? <==> row.receptions != [])
            && (row.status.Delivered? ==> row.ackedAt == row.receptions[0].at)
            && (!row.status.Delivered? ==> row.ackedAt == "")
            && (row.ackCode == "" ==> row.status.Queued? || row.status.Sent? || row.status.Failed?)
  {
    RunKeepsRows(acts);
    var s := After(acts).value;
    assert RowInv(s.rows[id - 1], id, s.pending, s.codes);
  }

  /** The acks of one code among the actions, in order. */
  function AcksOf(acts: seq<Action>, code: uint32): seq<Reception> {
    if acts == [] then []
    else
      var n := |acts| - 1;
      AcksOf(acts[..n], code) + (if acts[n].Ack? && acts[n].code == code then [AckOf(acts[n])] else [])
  }

  lemma AcksOfNext(acts: seq<Action>, a: Action, code: uint32)
    ensures AcksOf(acts + [a], code)
         == AcksOf(acts, code) + (if a.Ack? && a.code == code then [AckOf(a)] else [])
  {
    assert (acts + [a])[..|acts|] == acts;
  }

  /** A stored code stays: no send of a row succeeds twice. */
  lemma CodeStays(s: State, a: Action, id: nat)
    requires RowsInv(s) && Enabled(s, a) && id in s.codes
    ensures id in Apply(s, a).codes && Apply(s, a).codes[id] == s.codes[id]
  {
    assert RowInv(s.rows[id - 1], id, s.pending, s.codes);
  }

  lemma SendOkStores(s: State, id: nat, code: uint32)
    requires RowsInv(s) && Enabled(s, SendOk(id, code))
    ensures var s' := Apply(s, SendOk(id, code));
            && id in s'.codes && s'.codes[id] == code
            && 1 <= id <= |s'.rows| && s'.rows[id - 1].dir.Out? && s'.rows[id - 1].receptions == []
  {
    assert RowInv(s.rows[id - 1], id, s.pending, s.codes);
  }

  lemma LastOfTail(acts: seq<Action>, n: nat)
    requires n < |acts|
    ensures acts[n..] == acts[..|acts| - 1][n..] + [acts[|acts| - 1]]
  {
  }

  /** One reception per ack: the receptions of an outgoing row are, in order, exactly the
      acks of its 32-bit code since that code was stored with it. */
  lemma {:induction false} ReceptionsAreAcks(acts: seq<Action>, n: nat, id: nat, code: uint32)
    requires After(acts).Some? && n < |acts| && acts[n] == SendOk(id, code)
    ensures var s := After(acts).value;
            && 1 <= id <= |s.rows| && s.rows[id - 1].dir.Out? && id in s.codes && s.codes[id] == code
            && s.rows[id - 1].receptions == AcksOf(acts[n + 1..], code)
    decreases |acts|
  {
    var m := |acts| - 1;
    var s, a := After(acts[..m]).value, acts[m];
    RunKeepsRows(acts[..m]);
    if n == m {
      SendOkStores(s, id, code);
    } else {
      ReceptionsAreAcks(acts[..m], n, id, code);
      CodeStays(s, a, id);
      StatusStep(acts[..m], a, id);
      AcksOfNext(acts[..m][n + 1..], a, code);
      LastOfTail(acts, n + 1);
    }
  }

  /** The row a send begins with, and the row of a first hearing. */
  lemma NewRows(s: State, a: Action)
    requires Enabled(s, a) && |Apply(s, a).rows| > |s.rows|
    ensures a.BeginSend? || a.Hear?
    ensures var row := Apply(s, a).rows[|s.rows|];
            && (row.kind, row.peer, row.channel, row.text) == (a.m.kind, a.m.peer, a.m.channel, a.m.text)
            && row.ackCode == "" && row.ackedAt == ""
            && (a.BeginSend? ==>
                  row.dir.Out? && row.status.Queued? && row.read && row.timestamp == a.now && row.receptions == [])
            && (a.Hear? ==>
                  && row.dir.In? && row.status.ReceivedStatus? && !row.read && row.receptions == [a.hearing]
                  && row.timestamp == if a.timestamp == "" then a.now else a.timestamp)
  {
  }

  // ---------------------------------------------------------------------------
  // Hearings
  // ---------------------------------------------------------------------------

  predicate UniqueKeys(rows: seq<Row>) {
    forall i, j | 0 <= i < j < |rows| && rows[j].dir.In? :: !SameMessage(rows[i], rows[j])
  }

  /** Receptions over all incoming rows. */
  function Total(rows: seq<Row>): nat {
    if rows == [] then 0
    else Total(rows[..|rows| - 1]) + (if rows[|rows| - 1].dir.In? then |rows[|rows| - 1].receptions| else 0)
  }

  /** Recording a hearing keeps the messages distinct exactly when it carries a time, or
      no row already has the time at which it would be stored. */
  lemma HearingKeepsUniqueIff(rows: seq<Row>, rec: Row, hearing: Reception, now: Time)
    requires UniqueKeys(rows) && rec.dir.In? && now != ""
    requires forall i | 0 <= i < |rows| :: rows[i].timestamp != ""
    ensures UniqueKeys(Heard(rows, rec, hearing, now))
       <==> rec.timestamp != "" || forall i | 0 <= i < |rows| :: !SameMessage(rows[i], rec.(timestamp := now))
  {
    var rows' := Heard(rows, rec, hearing, now);
    var k := Find(rows, rec);
    if k == |rows| && rec.timestamp == "" {
      assert rows'[|rows|].timestamp == now;
      if i :| 0 <= i < |rows| && SameMessage(rows[i], rec.(timestamp := now)) {
        assert SameMessage(rows'[i], rows'[|rows|]);
      }
    }
  }

  /** Two hearings without a time, stored in the same instant, become two rows. */
  lemma TimelessHearingsDuplicate(m: Letter, hearing: Reception, now: Time)
    requires now != ""
    ensures var rec := Incoming(m, "");
            !UniqueKeys(Heard(Heard([], rec, hearing, now), rec, hearing, now))
  {
    var rec := Incoming(m, "");
    var one := Heard([], rec, hearing, now);
    assert one == [rec.(timestamp := now, receptions := [hearing])];
    var two := Heard(one, rec, hearing, now);
    assert two == one + one;
    assert SameMessage(two[0], two[1]);
  }

  lemma {:induction false} TotalSame(rows: seq<Row>, rows': seq<Row>)
    requires |rows'| == |rows|
    requires forall i | 0 <= i < |rows| ::
               rows'[i].dir == rows[i].dir && (rows[i].dir.In? ==> |rows'[i].receptions| == |rows[i].receptions|)
    ensures Total(rows') == Total(rows)
  {
    if rows != [] {
      var n := |rows| - 1;
      TotalSame(rows[..n], rows'[..n]);
    }
  }

  lemma {:induction false} TotalUpdate(rows: seq<Row>, k: nat, row: Row)
    requires k < |rows| && rows[k].dir.In? && row.dir.In? && |row.receptions| == |rows[k].receptions| + 1
    ensures Total(rows[k := row]) == Total(rows) + 1
  {
    var n := |rows| - 1;
    var rows' := rows[k := row];
    if k == n {
      assert rows'[..n] == rows[..n];
    } else {
      TotalUpdate(rows[..n], k, row);
      assert rows'[..n] == rows[..n][k := row];
    }
  }

  lemma TotalInsert(rows: seq<Row>, rec: Row, now: Time)
    ensures Total(Inserted(rows, rec, now)) == Total(rows) + (if rec.dir.In? then |rec.receptions| else 0)
  {
    assert Inserted(rows, rec, now)[..|rows|] == rows;
  }

  lemma StepTotal(s: State, a: Action)
    requires RowsInv(s) && Enabled(s, a)
    ensures Total(Apply(s, a).rows) == Total(s.rows) + (if a.Hear? then 1 else 0)
  {
    match a
    case BeginSend(m, now) => TotalInsert(s.rows, Outgoing(m, now), now);
    case Hear(m, timestamp, hearing, now) => HeardTotal(s.rows, Incoming(m, timestamp), hearing, now);
    case _ =>
      OtherKeepsReceptions(s, a);
      TotalSame(s.rows, Apply(s, a).rows);
  }

  lemma HeardTotal(rows: seq<Row>, rec: Row, hearing: Reception, now: Time)
    requires rec.dir.In?
    ensures Total(Heard(rows, rec, hearing, now)) == Total(rows) + 1
  {
    var k := Find(rows, rec);
    if k < |rows| {
      TotalUpdate(rows, k, rows[k].(receptions := rows[k].receptions + [hearing]));
    } else {
      TotalInsert(rows, rec.(receptions := [hearing]), now);
    }
  }

  lemma OtherKeepsReceptions(s: State, a: Action)
    requires Enabled(s, a) && !a.BeginSend? && !a.Hear?
    ensures |Apply(s, a).rows| == |s.rows|
    ensures forall i | 0 <= i < |s.rows| ::
              && Apply(s, a).rows[i].dir == s.rows[i].dir
              && (s.rows[i].dir.In? ==> Apply(s, a).rows[i].receptions == s.rows[i].receptions)
  {
  }

  /** No hearing is lost or counted twice. */
  lemma {:induction false} ReceptionsEqualHearings(acts: seq<Action>)
    requires After(acts).Some?
    ensures Total(After(acts).value.rows) == After(acts).value.hearings
  {
    if acts != [] {
      var n := |acts| - 1;
      ReceptionsEqualHearings(acts[..n]);
      RunKeepsRows(acts[..n]);
      StepTotal(After(acts[..n]).value, acts[n]);
    }
  }

  predicate SameKey(a: Row, b: Row) {
    a.dir == b.dir && a.peer == b.peer && a.text == b.text && a.timestamp == b.timestamp
  }

  lemma OtherKeepsKeys(s: State, a: Action)
    requires Enabled(s, a) && !a.Hear?
    ensures var rows' := Apply(s, a).rows;
            && |s.rows| <= |rows'|
            && (forall i | 0 <= i < |s.rows| :: SameKey(s.rows[i], rows'[i]))
            && (forall i | |s.rows| <= i < |rows'| :: rows'[i].dir.Out?)
  {
    if !a.BeginSend? && !a.Mark? {
      UpdateKeepsKeys(s, a);
    }
  }

  lemma UpdateKeepsKeys(s: State, a: Action)
    requires Enabled(s, a) && !a.Hear? && !a.BeginSend? && !a.Mark?
    ensures |Apply(s, a).rows| == |s.rows|
    ensures forall i | 0 <= i < |s.rows| :: SameKey(s.rows[i], Apply(s, a).rows[i])
  {
  }

  lemma StepKeepsUnique(s: State, a: Action)
    requires RowsInv(s) && UniqueKeys(s.rows) && Enabled(s, a) && (a.Hear? ==> a.timestamp != "")
    ensures UniqueKeys(Apply(s, a).rows)
  {
    if a.Hear? {
      assert forall i | 0 <= i < |s.rows| :: RowInv(s.rows[i], i + 1, s.pending, s.codes);
      HearingKeepsUniqueIff(s.rows, Incoming(a.m, a.timestamp), a.hearing, a.now);
    } else {
      OtherKeepsKeys(s, a);
      var rows' := Apply(s, a).rows;
      forall i, j | 0 <= i < j < |rows'| && rows'[j].dir.In?
        ensures !SameMessage(rows'[i], rows'[j])
      {
        assert !SameMessage(s.rows[i], s.rows[j]);
      }
    }
  }

  /** Over runs of hearings that carry a time, no two incoming rows are the same message. */
  lemma {:induction false} MessagesStayDistinct(acts: seq<Action>)
    requires After(acts).Some?
    requires forall i | 0 <= i < |acts| && acts[i].Hear? :: acts[i].timestamp != ""
    ensures UniqueKeys(After(acts).value.rows)
  {
    if acts != [] {
      var n := |acts| - 1;
      MessagesStayDistinct(acts[..n]);
      RunKeepsRows(acts[..n]);
      StepKeepsUnique(After(acts[..n]).value, acts[n]);
    }
  }

  // ---------------------------------------------------------------------------
  // Handing out unread messages
  // ---------------------------------------------------------------------------

  predicate HandedBy(calls: seq<Call>, c: nat, id: nat) {
    c < |calls| && id in calls[c].ids
  }

  predicate CommittedBy(calls: seq<Call>, c: nat, id: nat) {
    HandedBy(calls, c, id) && calls[c].state.Committed?
  }

  predicate Listed(rows: seq<Row>, id: nat) {
    1 <= id <= |rows| && rows[id - 1].dir.In?
  }

  /** Calls hand out incoming rows, and a row has been read exactly when a call that
      handed it out has committed its mark. */
  ghost predicate InboxInv(s: State) {
    && (forall c: nat, id: nat | HandedBy(s.calls, c, id) :: Listed(s.rows, id))
    && (forall id: nat | Listed(s.rows, id) :: s.rows[id - 1].read <==> exists c: nat :: CommittedBy(s.calls, c, id))
  }

  lemma ReadOnlyByMark(s: State, a: Action)
    requires Enabled(s, a) && !a.Mark?
    ensures |s.rows| <= |Apply(s, a).rows|
    ensures forall i | 0 <= i < |s.rows| ::
              Apply(s, a).rows[i].dir == s.rows[i].dir && Apply(s, a).rows[i].read == s.rows[i].read
    ensures forall i | |s.rows| <= i < |Apply(s, a).rows| && Apply(s, a).rows[i].dir.In? :: !Apply(s, a).rows[i].read
  {
  }

  lemma OtherKeepsInbox(s: State, a: Action)
    requires InboxInv(s) && Enabled(s, a) && !a.Mark?
    ensures InboxInv(Apply(s, a))
  {
    var s' := Apply(s, a);
    ReadOnlyByMark(s, a);
    forall c: nat, id: nat | HandedBy(s'.calls, c, id)
      ensures Listed(s'.rows, id)
    {
      if c < |s.calls| {
        assert HandedBy(s.calls, c, id);
      }
    }
    forall id: nat | Listed(s'.rows, id)
      ensures s'.rows[id - 1].read <==> exists c: nat :: CommittedBy(s'.calls, c, id)
    {
      forall c: nat | CommittedBy(s'.calls, c, id)
        ensures s'.rows[id - 1].read
      {
        assert CommittedBy(s.calls, c, id) && Listed(s.rows, id);
      }
      if s'.rows[id - 1].read {
        assert Listed(s.rows, id);
        var c: nat :| CommittedBy(s.calls, c, id);
        assert CommittedBy(s'.calls, c, id);
      }
    }
  }

  lemma MarkKeepsInbox(s: State, a: Action)
    requires InboxInv(s) && Enabled(s, a) && a.Mark?
    ensures InboxInv(Apply(s, a))
  {
    var s' := Apply(s, a);
    forall c: nat, id: nat | HandedBy(s'.calls, c, id)
      ensures Listed(s'.rows, id)
    {
      assert HandedBy(s.calls, c, id);
    }
    forall id: nat | Listed(s'.rows, id)
      ensures s'.rows[id - 1].read <==> exists c: nat :: CommittedBy(s'.calls, c, id)
    {
      assert Listed(s.rows, id);
      forall c: nat | CommittedBy(s'.calls, c, id)
        ensures s'.rows[id - 1].read
      {
        assert c != a.c ==> CommittedBy(s.calls, c, id);
      }
      if s'.rows[id - 1].read {
        if s.rows[id - 1].read {
          var c: nat :| CommittedBy(s.calls, c, id);
          assert CommittedBy(s'.calls, c, id);
        } else {
          assert CommittedBy(s'.calls, a.c, id);
        }
      }
    }
  }

  lemma {:induction false} RunKeepsInbox(acts: seq<Action>)
    requires After(acts).Some?
    ensures InboxInv(After(acts).value)
  {
    if acts != [] {
      var n := |acts| - 1;
      RunKeepsInbox(acts[..n]);
      if acts[n].Mark? {
        MarkKeepsInbox(After(acts[..n]).value, acts[n]);
      } else {
        OtherKeepsInbox(After(acts[..n]).value, acts[n]);
      }
    }
  }

  /** A further call would hand out a message again exactly when no call that handed it
      out has committed its mark. */
  lemma RepeatsIffUncommitted(acts: seq<Action>, c: nat, id: nat)
    requires After(acts).Some? && HandedBy(After(acts).value.calls, c, id)
    ensures var s := After(acts).value;
            id in UnreadIds(s.rows) <==> forall c': nat :: !CommittedBy(s.calls, c', id)
  {
    RunKeepsInbox(acts);
    UnreadIffUncommitted(After(acts).value, c, id);
  }

  lemma UnreadIffUncommitted(s: State, c: nat, id: nat)
    requires InboxInv(s) && HandedBy(s.calls, c, id)
    ensures Listed(s.rows, id)
    ensures id in UnreadIds(s.rows) <==> forall c': nat :: !CommittedBy(s.calls, c', id)
  {
    assert Listed(s.rows, id);
    UnreadIffNotRead(s.rows, id);
    if s.rows[id - 1].read {
      var c': nat :| CommittedBy(s.calls, c', id);
    }
  }

  lemma UnreadIffNotRead(rows: seq<Row>, id: nat)
    requires Listed(rows, id)
    ensures id in UnreadIds(rows) <==> !rows[id - 1].read
  {
  }

  /** No message escapes: after a call every incoming row has been handed out. */
  lemma QueryHandsOutAll(acts: seq<Action>, id: nat)
    requires After(acts).Some? && After(acts + [Query]).Some? && Listed(After(acts).value.rows, id)
    ensures exists c: nat :: HandedBy(After(acts + [Query]).value.calls, c, id)
  {
    RunKeepsInbox(acts);
    assert (acts + [Query])[..|acts|] == acts;
    QueryHandsOutAllHere(After(acts).value, id);
  }

  lemma QueryHandsOutAllHere(s: State, id: nat)
    requires InboxInv(s) && Listed(s.rows, id)
    ensures exists c: nat :: HandedBy(Apply(s, Query).calls, c, id)
  {
    var s' := Apply(s, Query);
    if s.rows[id - 1].read {
      var c: nat :| CommittedBy(s.calls, c, id);
      assert HandedBy(s'.calls, c, id);
    } else {
      assert HandedBy(s'.calls, |s.calls|, id);
    }
  }

  /** Inbox calls one after another, each of whose marks commits before the next. */
  ghost predicate SerialInbox(acts: seq<Action>) {
    acts == [] ||
    (SerialInbox(acts[..|acts| - 1]) &&
     (acts[|acts| - 1].Query? && After(acts[..|acts| - 1]).Some? ==>
        forall c | c in After(acts[..|acts| - 1]).value.calls :: c.state.Committed?))
  }

  /** Then each message is handed out by one call only, and once in it, whatever drains
      add between a call's query and its mark. */
  lemma {:induction false} HandedOutOnce(acts: seq<Action>, c: nat, c': nat, id: nat)
    requires After(acts).Some? && SerialInbox(acts)
    requires HandedBy(After(acts).value.calls, c, id) && HandedBy(After(acts).value.calls, c', id)
    ensures c == c'
    ensures var ids := After(acts).value.calls[c].ids; forall i, j | 0 <= i < j < |ids| :: ids[i] != ids[j]
    decreases |acts|
  {
    IdsDistinct(acts, c);
    var n := |acts| - 1;
    var s := After(acts[..n]).value;
    RunKeepsInbox(acts[..n]);
    CallsGrow(s, acts[n]);
    if c < |s.calls| && c' < |s.calls| {
      HandedOutOnce(acts[..n], c, c', id);
    } else if c < |s.calls| {
      NewCallTakesNew(s, c, id);
    } else if c' < |s.calls| {
      NewCallTakesNew(s, c', id);
    }
  }

  lemma {:induction false} IdsDistinct(acts: seq<Action>, c: nat)
    requires After(acts).Some? && c < |After(acts).value.calls|
    ensures var ids := After(acts).value.calls[c].ids; forall i, j | 0 <= i < j < |ids| :: ids[i] != ids[j]
    decreases |acts|
  {
    var n := |acts| - 1;
    var s := After(acts[..n]).value;
    CallsGrow(s, acts[n]);
    if c < |s.calls| {
      IdsDistinct(acts[..n], c);
    } else {
      SelectInOrder(s.rows, Inbox, |s.rows|);
      InOrderIsDistinct(s.rows, UnreadIds(s.rows));
    }
  }

  lemma CallsGrow(s: State, a: Action)
    requires Enabled(s, a)
    ensures var calls := Apply(s, a).calls;
            && |calls| == |s.calls| + (if a.Query? then 1 else 0)
            && (forall c | 0 <= c < |s.calls| :: calls[c].ids == s.calls[c].ids)
            && (a.Query? ==> calls[|s.calls|].ids == UnreadIds(s.rows))
  {
  }

  /** Once every earlier call has committed, a further one takes none of their messages. */
  lemma NewCallTakesNew(s: State, c: nat, id: nat)
    requires InboxInv(s) && HandedBy(s.calls, c, id) && forall k | k in s.calls :: k.state.Committed?
    ensures id !in UnreadIds(s.rows)
  {
    assert s.calls[c] in s.calls;
    assert CommittedBy(s.calls, c, id);
    UnreadIffUncommitted(s, c, id);
  }
}
