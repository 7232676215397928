/**
 The single-flight request queue (internal/queue/queue.go) and the read loop that
 feeds it (client.go), as a state machine whose actions are the atomic sections of
 the code: every interleaving of callers, reader and device is a sequence of actions.

 The wire carries no request id. `owner` and `last` on a packet say which command the
 device was answering and whether that answer is complete; no action of the client
 reads them, they only serve to state what correlation means.
 */
module RequestQueue {
  import opened Common
  import Companion

  const STREAM_BUFFER: nat := 2048

  type Id = nat

  datatype Kind = Single | Stream

  datatype Packet = Packet(bytes: seq<byte>, owner: Id, last: bool)

  /** Where a caller of `run` stands; one request is one call and one fresh waiter. */
  datatype Pc = Locked | Registered | Waiting | Finished | Unregistered | Done

  datatype Outcome = Pending | Succeeded | Failed

  /** `start`, `end` and `ordinal` are history: how many packets the reader had matched
      when the waiter was set and when it was cleared, and how many commands had been
      written before this one. */
  datatype Request = Request(
    kind: Kind, pc: Pc, outcome: Outcome,
    buf: seq<Packet>, overflow: bool, collected: seq<Packet>,
    start: nat, end: nat, ordinal: nat)

  datatype Reader = Idle | Held(p: Packet) | Snapped(p: Packet, w: Option<Id>) | Stopped

  /** `offered` are the replies read so far, `events` the pushes, `written` the commands
      that reached the device, all in order; `snapped` counts the offered replies for
      which the reader has already looked up the waiter. */
  datatype State = State(
    reqs: map<Id, Request>, sendMu: Option<Id>, waiter: Option<Id>, reader: Reader,
    inbound: seq<Packet>, offered: seq<Packet>, snapped: nat, events: seq<Packet>,
    written: seq<Id>)

  datatype Action =
    | Acquire(id: Id, kind: Kind)
    | Register(id: Id)
    | Send(id: Id)
    | SendFail(id: Id, reached: bool)
    | Collect(id: Id, done: bool)
    | TakeOverflow(id: Id)
    | CtxDone(id: Id)
    | Unregister(id: Id)
    | Release(id: Id)
    | DeviceSend(p: Packet)
    | ReadPacket
    | Snapshot
    | Push
    | Hangup

  predicate IsPush(p: Packet) {
    |p.bytes| > 0 && p.bytes[0] >= 0x80
  }

  /** The pushes, or the replies, among a sequence of packets. */
  function Route(s: seq<Packet>, push: bool): seq<Packet> {
    if s == [] then [] else (if IsPush(s[0]) == push then [s[0]] else []) + Route(s[1..], push)
  }

  /** Every reply the device has sent, read or not. */
  function Replies(s: State): seq<Packet> {
    s.offered + Route(s.inbound, false)
  }

  /** How many answers are complete in a sequence of replies. */
  function Answered(s: seq<Packet>): nat {
    if s == [] then 0 else Answered(s[..|s| - 1]) + (if s[|s| - 1].last then 1 else 0)
  }

  const Init := State(map[], None, None, Idle, [], [], 0, [], [])

  predicate At(s: State, id: Id, pc: Pc) {
    id in s.reqs && s.reqs[id].pc == pc
  }

  /** When the code can take an action; nothing here constrains the device. */
  predicate Enabled(s: State, a: Action) {
    match a
    case Acquire(id, _) => s.sendMu.None? && id !in s.reqs
    case Register(id) => At(s, id, Locked)
    case Send(id) => At(s, id, Registered)
    case SendFail(id, _) => At(s, id, Registered)
    case Collect(id, done) =>
      At(s, id, Waiting) && s.reqs[id].buf != [] && (s.reqs[id].kind.Single? ==> done)
    case TakeOverflow(id) => At(s, id, Waiting) && s.reqs[id].overflow
    case CtxDone(id) => At(s, id, Waiting)
    case Unregister(id) => At(s, id, Finished)
    case Release(id) => At(s, id, Unregistered)
    case DeviceSend(p) => true
    case ReadPacket => s.reader.Idle? && s.inbound != []
    case Snapshot => s.reader.Held?
    case Push => s.reader.Snapped? && (s.reader.w.Some? ==> s.reader.w.value in s.reqs)
    case Hangup => s.reader.Idle?
  }

  /** The premise on the other parties: the device answers the commands it received one
      after another, a `Do` with one reply and a `DoStream` with a run of replies ended
      by a terminal one, and a stream collector stops exactly at the terminal reply of
      its own command. */
  predicate Orderly(s: State, a: Action) {
    match a
    case DeviceSend(p) =>
      IsPush(p) ||
      (var k := Answered(Replies(s));
       k < |s.written| && p.owner == s.written[k] && p.owner in s.reqs &&
       (s.reqs[p.owner].kind.Single? ==> p.last))
    case Collect(id, done) =>
      At(s, id, Waiting) && s.reqs[id].kind.Stream? && s.reqs[id].buf != [] && s.reqs[id].buf[0].owner == id
      ==> done == s.reqs[id].buf[0].last
    case _ => true
  }

  function Update(s: State, id: Id, r: Request): State {
    s.(reqs := s.reqs[id := r])
  }

  function Apply(s: State, a: Action): State
    requires Enabled(s, a)
  {
    match a
    case Acquire(id, kind) =>
      Update(s, id, Request(kind, Locked, Pending, [], false, [], 0, 0, 0)).(sendMu := Some(id))
    case Register(id) =>
      Update(s, id, s.reqs[id].(pc := Registered, start := s.snapped, ordinal := |s.written|)).(waiter := Some(id))
    case Send(id) =>
      Update(s, id, s.reqs[id].(pc := Waiting)).(written := s.written + [id])
    case SendFail(id, reached) =>
      Update(s, id, s.reqs[id].(pc := Finished, outcome := Failed))
      .(written := if reached then s.written + [id] else s.written)
    case Collect(id, done) =>
      var r := s.reqs[id];
      var r' := r.(buf := r.buf[1..], collected := r.collected + [r.buf[0]]);
      Update(s, id, if done then r'.(pc := Finished, outcome := Succeeded) else r')
    case TakeOverflow(id) =>
      Update(s, id, s.reqs[id].(pc := Finished, outcome := Failed))
    case CtxDone(id) =>
      Update(s, id, s.reqs[id].(pc := Finished, outcome := Failed))
    case Unregister(id) =>
      Update(s, id, s.reqs[id].(pc := Unregistered, end := s.snapped)).(waiter := None)
    case Release(id) =>
      Update(s, id, s.reqs[id].(pc := Done)).(sendMu := None)
    case DeviceSend(p) => s.(inbound := s.inbound + [p])
    case ReadPacket =>
      var p := s.inbound[0];
      var s' := s.(inbound := s.inbound[1..]);
      if IsPush(p) then s'.(events := s.events + [p])
      else s'.(reader := Held(p), offered := s.offered + [p])
    case Snapshot => s.(reader := Snapped(s.reader.p, s.waiter), snapped := s.snapped + 1)
    case Push =>
      if s.reader.w.None? then s.(reader := Idle)
      else
        var id := s.reader.w.value;
        var r := s.reqs[id];
        if |r.buf| < STREAM_BUFFER then
          Update(s, id, r.(buf := r.buf + [s.reader.p])).(reader := Idle)
        else
          Update(s, id, r.(overflow := true)).(reader := Stopped)
    case Hangup => s.(reader := Stopped)
  }

  /** The state after a sequence of actions, if each could be taken in turn. */
  function After(acts: seq<Action>): Option<State> {
    if acts == [] then Some(Init)
    else
      match After(acts[..|acts| - 1])
      case None => None
      case Some(s) =>
        if Enabled(s, acts[|acts| - 1]) then Some(Apply(s, acts[|acts| - 1])) else None
  }

  predicate OrderlyRun(acts: seq<Action>) {
    acts == [] ||
    (OrderlyRun(acts[..|acts| - 1]) &&
     (After(acts[..|acts| - 1]).Some? ==> Orderly(After(acts[..|acts| - 1]).value, acts[|acts| - 1])))
  }

  // ---------------------------------------------------------------------------
  // What every run keeps, whatever the device sends
  // ---------------------------------------------------------------------------

  predicate Open(r: Request) { !r.pc.Locked? }

  predicate InWindow(r: Request) { r.pc.Registered? || r.pc.Waiting? || r.pc.Finished? }

  /** What reached the request: what it consumed, then what still waits in its buffer. */
  function Got(r: Request): seq<Packet> { r.collected + r.buf }

  function InHand(s: State, id: Id): nat {
    if s.reader.Snapped? && s.reader.w == Some(id) then 1 else 0
  }

  function Limit(s: State, r: Request): nat {
    if InWindow(r) then s.snapped else r.end
  }

  predicate ReadLoopAction(a: Action) {
    a.DeviceSend? || a.ReadPacket? || a.Snapshot? || a.Push? || a.Hangup?
  }

  predicate LocksInv(s: State) {
    && (s.sendMu.Some? ==> s.sendMu.value in s.reqs)
    && (s.waiter.Some? ==> s.waiter.value in s.reqs)
    && (forall id | id in s.reqs :: !s.reqs[id].pc.Done? <==> s.sendMu == Some(id))
    && (forall id | id in s.reqs :: InWindow(s.reqs[id]) <==> s.waiter == Some(id))
  }

  predicate ReaderInv(s: State) {
    && |s.offered| == s.snapped + (if s.reader.Held? then 1 else 0)
    && (s.reader.Held? || s.reader.Snapped? ==>
          |s.offered| > 0 && s.reader.p == s.offered[|s.offered| - 1])
    && (s.reader.Snapped? && s.reader.w.Some? ==>
          var id := s.reader.w.value;
          id in s.reqs && Open(s.reqs[id]) && Limit(s, s.reqs[id]) == s.snapped)
    && (forall id | id in s.reqs :: s.reqs[id].overflow ==> s.reader.Stopped?)
  }

  predicate BlockInv(s: State, id: Id)
    requires id in s.reqs
  {
    var r := s.reqs[id];
    && |r.buf| <= STREAM_BUFFER
    && (!Open(r) ==> Got(r) == [] && r.start == 0 && InHand(s, id) == 0)
    && (Open(r) ==>
          && r.start + |Got(r)| + InHand(s, id) <= Limit(s, r) <= s.snapped <= |s.offered|
          && (!s.reader.Stopped? ==> r.start + |Got(r)| + InHand(s, id) == Limit(s, r))
          && Got(r) == s.offered[r.start..r.start + |Got(r)|])
  }

  predicate Before(s: State, id: Id, id': Id)
    requires id in s.reqs && id' in s.reqs
  {
    !InWindow(s.reqs[id]) && s.reqs[id].end <= s.reqs[id'].start
  }

  predicate OrderInv(s: State) {
    forall id, id' | id in s.reqs && id' in s.reqs && id != id' && Open(s.reqs[id]) && Open(s.reqs[id']) ::
      Before(s, id, id') || Before(s, id', id)
  }

  predicate Inv(s: State) {
    && LocksInv(s)
    && ReaderInv(s)
    && (forall id | id in s.reqs :: BlockInv(s, id))
    && OrderInv(s)
  }

  /** Nothing reorders windows once they are open. */
  lemma OrderKept(s: State, s': State)
    requires OrderInv(s)
    requires forall id | id in s'.reqs && Open(s'.reqs[id]) ::
               && id in s.reqs && Open(s.reqs[id]) && s'.reqs[id].start == s.reqs[id].start
               && (!InWindow(s.reqs[id]) ==> !InWindow(s'.reqs[id]) && s'.reqs[id].end == s.reqs[id].end)
    ensures OrderInv(s')
  {
    forall i, j | i in s'.reqs && j in s'.reqs && i != j && Open(s'.reqs[i]) && Open(s'.reqs[j])
      ensures Before(s', i, j) || Before(s', j, i)
    {
      assert Before(s, i, j) || Before(s, j, i);
    }
  }

  lemma CallerKeepsLocks(s: State, a: Action)
    requires LocksInv(s) && Enabled(s, a) && !ReadLoopAction(a)
    ensures LocksInv(Apply(s, a))
  {
  }

  lemma ReadLoopKeepsLocks(s: State, a: Action)
    requires LocksInv(s) && Enabled(s, a) && ReadLoopAction(a)
    ensures LocksInv(Apply(s, a))
  {
  }

  lemma CallerKeepsReader(s: State, a: Action)
    requires LocksInv(s) && ReaderInv(s) && Enabled(s, a)
    requires !ReadLoopAction(a)
    ensures ReaderInv(Apply(s, a))
  {
  }

  lemma ReadLoopKeepsReader(s: State, a: Action)
    requires LocksInv(s) && ReaderInv(s) && Enabled(s, a)
    requires ReadLoopAction(a)
    ensures ReaderInv(Apply(s, a))
  {
  }

  lemma StepKeepsOrder(s: State, a: Action)
    requires OrderInv(s) && LocksInv(s) && Enabled(s, a)
    requires forall id | id in s.reqs :: !InWindow(s.reqs[id]) && Open(s.reqs[id]) ==> s.reqs[id].end <= s.snapped
    ensures OrderInv(Apply(s, a))
  {
    if a.Register? {
      RegisterKeepsOrder(s, a);
    } else {
      OrderKept(s, Apply(s, a));
    }
  }

  lemma RegisterKeepsOrder(s: State, a: Action)
    requires OrderInv(s) && LocksInv(s) && Enabled(s, a) && a.Register?
    requires forall id | id in s.reqs :: !InWindow(s.reqs[id]) && Open(s.reqs[id]) ==> s.reqs[id].end <= s.snapped
    ensures OrderInv(Apply(s, a))
  {
    var s' := Apply(s, a);
    forall i, j | i in s'.reqs && j in s'.reqs && i != j && Open(s'.reqs[i]) && Open(s'.reqs[j])
      ensures Before(s', i, j) || Before(s', j, i)
    {
      if i != a.id && j != a.id {
        assert Before(s, i, j) || Before(s, j, i);
      }
    }
  }

  /** A request that received nothing keeps its block while the log of replies grows. */
  lemma BlockKept(s: State, s': State, id: Id)
    requires id in s.reqs && id in s'.reqs && BlockInv(s, id)
    requires Open(s.reqs[id]) && Open(s'.reqs[id])
    requires s.offered <= s'.offered && Got(s'.reqs[id]) == Got(s.reqs[id])
    requires s'.reqs[id].start == s.reqs[id].start && |s'.reqs[id].buf| <= |s.reqs[id].buf|
    requires Limit(s', s'.reqs[id]) <= s'.snapped <= |s'.offered|
    requires s.reqs[id].start + |Got(s.reqs[id])| + InHand(s', id) <= Limit(s', s'.reqs[id])
    requires !s'.reader.Stopped? ==>
               s.reqs[id].start + |Got(s.reqs[id])| + InHand(s', id) == Limit(s', s'.reqs[id])
    ensures BlockInv(s', id)
  {
    var r := s.reqs[id];
    assert s'.offered[r.start..r.start + |Got(r)|] == s.offered[r.start..r.start + |Got(r)|];
  }

  lemma BlockGrows(s: State, s': State, id: Id)
    requires id in s.reqs && id in s'.reqs && BlockInv(s, id)
    requires Open(s.reqs[id]) && |s.reqs[id].buf| < STREAM_BUFFER && |s.offered| == s.snapped > 0
    requires s.reader == Snapped(s.offered[|s.offered| - 1], Some(id)) && Limit(s, s.reqs[id]) == s.snapped
    requires s'.reader.Idle? && s'.offered == s.offered && s'.snapped == s.snapped
    requires s'.reqs[id] == s.reqs[id].(buf := s.reqs[id].buf + [s.reader.p])
    ensures BlockInv(s', id)
  {
    var r := s.reqs[id];
    var n := r.start + |Got(r)|;
    assert Got(s'.reqs[id]) == Got(r) + [s.reader.p];
    assert s.offered[r.start..n + 1] == s.offered[r.start..n] + [s.offered[n]];
  }

  lemma CallerKeepsBlock(s: State, a: Action, id: Id)
    requires LocksInv(s) && ReaderInv(s) && Enabled(s, a) && id in s.reqs && BlockInv(s, id)
    requires a.Acquire? || a.Send? || a.SendFail? || a.TakeOverflow? || a.CtxDone? || a.Unregister? || a.Release?
    ensures BlockInv(Apply(s, a), id)
  {
    if Open(s.reqs[id]) {
      BlockKept(s, Apply(s, a), id);
    }
  }

  lemma RegisterKeepsBlock(s: State, a: Action, id: Id)
    requires LocksInv(s) && ReaderInv(s) && Enabled(s, a) && id in s.reqs && BlockInv(s, id) && a.Register?
    ensures BlockInv(Apply(s, a), id)
  {
    if Open(s.reqs[id]) {
      BlockKept(s, Apply(s, a), id);
    }
  }

  lemma CollectKeepsBlock(s: State, a: Action, id: Id)
    requires LocksInv(s) && ReaderInv(s) && Enabled(s, a) && id in s.reqs && BlockInv(s, id) && a.Collect?
    ensures BlockInv(Apply(s, a), id)
  {
    var s' := Apply(s, a);
    assert Got(s'.reqs[id]) == Got(s.reqs[id]);
    if Open(s.reqs[id]) {
      BlockKept(s, s', id);
    }
  }

  lemma ReadLoopKeepsBlock(s: State, a: Action, id: Id)
    requires LocksInv(s) && ReaderInv(s) && Enabled(s, a) && id in s.reqs && BlockInv(s, id)
    requires a.DeviceSend? || a.ReadPacket? || a.Snapshot? || a.Hangup?
    ensures BlockInv(Apply(s, a), id)
  {
    if Open(s.reqs[id]) {
      BlockKept(s, Apply(s, a), id);
    }
  }

  lemma PushKeepsBlock(s: State, a: Action, id: Id)
    requires LocksInv(s) && ReaderInv(s) && Enabled(s, a) && id in s.reqs && BlockInv(s, id) && a.Push?
    ensures BlockInv(Apply(s, a), id)
  {
    var s' := Apply(s, a);
    var r := s.reqs[id];
    if s.reader.w == Some(id) && |r.buf| < STREAM_BUFFER {
      BlockGrows(s, s', id);
    } else if Open(r) {
      BlockKept(s, s', id);
    }
  }

  lemma StepKeepsBlock(s: State, a: Action, id: Id)
    requires LocksInv(s) && ReaderInv(s) && Enabled(s, a) && id in s.reqs && BlockInv(s, id)
    ensures BlockInv(Apply(s, a), id)
  {
    match a
    case Register(_) => RegisterKeepsBlock(s, a, id);
    case Collect(_, _) => CollectKeepsBlock(s, a, id);
    case Push => PushKeepsBlock(s, a, id);
    case DeviceSend(_) => ReadLoopKeepsBlock(s, a, id);
    case ReadPacket => ReadLoopKeepsBlock(s, a, id);
    case Snapshot => ReadLoopKeepsBlock(s, a, id);
    case Hangup => ReadLoopKeepsBlock(s, a, id);
    case _ => CallerKeepsBlock(s, a, id);
  }

  lemma StepKeepsInv(s: State, a: Action)
    requires Inv(s) && Enabled(s, a)
    ensures Inv(Apply(s, a))
  {
    if ReadLoopAction(a) {
      ReadLoopKeepsLocks(s, a);
      ReadLoopKeepsReader(s, a);
    } else {
      CallerKeepsLocks(s, a);
      CallerKeepsReader(s, a);
    }
    forall id | id in s.reqs
      ensures !InWindow(s.reqs[id]) && Open(s.reqs[id]) ==> s.reqs[id].end <= s.snapped
    {
      assert BlockInv(s, id);
    }
    StepKeepsOrder(s, a);
    forall id | id in Apply(s, a).reqs
      ensures BlockInv(Apply(s, a), id)
    {
      if id in s.reqs {
        StepKeepsBlock(s, a, id);
      }
    }
  }

  lemma RunKeepsInv(acts: seq<Action>)
    requires After(acts).Some?
    ensures Inv(After(acts).value)
  {
    if acts != [] {
      RunKeepsInv(acts[..|acts| - 1]);
      StepKeepsInv(After(acts[..|acts| - 1]).value, acts[|acts| - 1]);
    }
  }

  /** At most one waiter at a time; no buffer beyond its bound. */
  lemma OneWaiter(acts: seq<Action>, id: Id, id': Id)
    requires After(acts).Some?
    requires id in After(acts).value.reqs && id' in After(acts).value.reqs
    requires InWindow(After(acts).value.reqs[id]) && InWindow(After(acts).value.reqs[id'])
    ensures id == id' && After(acts).value.waiter == Some(id)
    ensures |After(acts).value.reqs[id].buf| <= 2048
  {
    RunKeepsInv(acts);
    assert BlockInv(After(acts).value, id);
  }

  /** What a request collects is a prefix of one contiguous block of the replies read,
      the block that begins where its waiter was set. */
  lemma CollectsContiguousBlock(acts: seq<Action>, id: Id)
    requires After(acts).Some? && id in After(acts).value.reqs
    ensures var s := After(acts).value;
            var r := s.reqs[id];
            && r.start + |Got(r)| <= |s.offered|
            && r.collected == s.offered[r.start..r.start + |r.collected|]
  {
    RunKeepsInv(acts);
    var s := After(acts).value;
    var r := s.reqs[id];
    assert BlockInv(s, id);
    assert Open(r) ==> r.collected == Got(r)[..|r.collected|];
  }

  /** No reply reaches two requests: the blocks they received are disjoint. */
  lemma NoReplyTwice(acts: seq<Action>, id: Id, id': Id)
    requires After(acts).Some? && id != id'
    requires id in After(acts).value.reqs && id' in After(acts).value.reqs
    ensures var r, r' := After(acts).value.reqs[id], After(acts).value.reqs[id'];
            r.start + |Got(r)| <= r'.start || r'.start + |Got(r')| <= r.start
  {
    RunKeepsInv(acts);
    var s := After(acts).value;
    assert BlockInv(s, id) && BlockInv(s, id');
    if Open(s.reqs[id]) && Open(s.reqs[id']) {
      assert Before(s, id, id') || Before(s, id', id);
    }
  }

  /** The read loop stops only when the connection fails, or at a reply to a waiter whose
      buffer holds 2048; a reply without a waiter is dropped. */
  lemma StopsIff(s: State, a: Action)
    requires Enabled(s, a) && !s.reader.Stopped?
    ensures Apply(s, a).reader.Stopped? <==>
            a.Hangup? || (a.Push? && s.reader.w.Some? && |s.reqs[s.reader.w.value].buf| >= 2048)
    ensures a.Push? && s.reader.w.None? ==> Apply(s, a).reqs == s.reqs
  {
  }

  /** An overflow ends the connection: the reader has stopped, and whatever happens
      afterwards no request receives anything more. */
  lemma OverflowIsLast(acts: seq<Action>, more: seq<Action>, id: Id)
    requires After(acts).Some? && After(acts + more).Some?
    requires exists o :: o in After(acts).value.reqs && After(acts).value.reqs[o].overflow
    requires id in After(acts + more).value.reqs
    ensures var s, s' := After(acts).value, After(acts + more).value;
            && s.reader.Stopped? && s'.reader.Stopped? && s'.offered == s.offered
            && Got(s'.reqs[id]) == (if id in s.reqs then Got(s.reqs[id]) else [])
  {
    RunKeepsInv(acts);
    StoppedStays(acts, more, id);
  }

  lemma {:induction false} StoppedStays(acts: seq<Action>, more: seq<Action>, id: Id)
    requires After(acts).Some? && After(acts + more).Some? && After(acts).value.reader.Stopped?
    ensures var s, s' := After(acts).value, After(acts + more).value;
            && s'.reader.Stopped? && s'.offered == s.offered
            && (id in s.reqs ==> id in s'.reqs)
            && (id in s'.reqs ==> Got(s'.reqs[id]) == (if id in s.reqs then Got(s.reqs[id]) else []))
    decreases |more|
  {
    if more == [] {
      assert acts + more == acts;
    } else {
      var n := |more| - 1;
      assert (acts + more)[..|acts + more| - 1] == acts + more[..n];
      StoppedStays(acts, more[..n], id);
      StoppedStep(After(acts + more[..n]).value, more[n], id);
    }
  }

  lemma StoppedStep(s: State, a: Action, id: Id)
    requires Enabled(s, a) && s.reader.Stopped?
    ensures var s' := Apply(s, a);
            && s'.reader.Stopped? && s'.offered == s.offered && (id in s.reqs ==> id in s'.reqs)
            && (id in s'.reqs ==> Got(s'.reqs[id]) == (if id in s.reqs then Got(s.reqs[id]) else []))
  {
    if a.Collect? && a.id == id {
      assert Got(Apply(s, a).reqs[id]) == Got(s.reqs[id]);
    }
  }

  /** All packets the device sent in a run. */
  function Sent(acts: seq<Action>): seq<Packet> {
    if acts == [] then []
    else Sent(acts[..|acts| - 1]) + (if acts[|acts| - 1].DeviceSend? then [acts[|acts| - 1].p] else [])
  }

  lemma RouteFirst(s: seq<Packet>, push: bool)
    requires s != []
    ensures Route(s, push) == if IsPush(s[0]) == push then [s[0]] + Route(s[1..], push) else Route(s[1..], push)
  {
  }

  lemma {:induction false} RouteAppend(s: seq<Packet>, t: seq<Packet>, push: bool)
    ensures Route(s + t, push) == Route(s, push) + Route(t, push)
  {
    if s == [] {
      assert s + t == t;
    } else {
      RouteAppend(s[1..], t, push);
      RouteFirst(s, push);
      RouteFirst(s + t, push);
      assert (s + t)[0] == s[0] && (s + t)[1..] == s[1..] + t;
      Regroup([s[0]], Route(s[1..], push), Route(t, push));
    }
  }

  lemma StepReplies(s: State, a: Action)
    requires Enabled(s, a)
    ensures Replies(Apply(s, a)) == if a.DeviceSend? && !IsPush(a.p) then Replies(s) + [a.p] else Replies(s)
    ensures Apply(s, a).events + Route(Apply(s, a).inbound, true)
         == s.events + Route(s.inbound, true) + (if a.DeviceSend? && IsPush(a.p) then [a.p] else [])
  {
    if a.DeviceSend? {
      RouteSent(s.offered, s.inbound, a.p, false);
      RouteSent(s.events, s.inbound, a.p, true);
    } else if a.ReadPacket? {
      RouteRead(s.offered, s.inbound, false);
      RouteRead(s.events, s.inbound, true);
    }
  }

  lemma RouteSent(done: seq<Packet>, inbound: seq<Packet>, p: Packet, push: bool)
    ensures done + Route(inbound + [p], push)
         == if IsPush(p) == push then done + Route(inbound, push) + [p] else done + Route(inbound, push)
  {
    RouteAppend(inbound, [p], push);
    RouteFirst([p], push);
    Regroup(done, Route(inbound, push), Route([p], push));
  }

  lemma RouteRead(done: seq<Packet>, inbound: seq<Packet>, push: bool)
    requires inbound != []
    ensures (if IsPush(inbound[0]) == push then done + [inbound[0]] else done) + Route(inbound[1..], push)
         == done + Route(inbound, push)
  {
    RouteFirst(inbound, push);
    Regroup(done, [inbound[0]], Route(inbound[1..], push));
  }

  /** The bit the read loop routes by is the decoder's verdict on the packet. */
  lemma PushBitIsDecoded(p: Packet)
    ensures IsPush(p) <==> Companion.Async(Companion.Decode(p.bytes))
  {
    Companion.AsyncIffHighBit(p.bytes);
  }

  /** The read loop routes by the push bit and loses nothing: replies and pushes are each
      kept in the order sent, the replies read or still to be read, the pushes likewise. */
  lemma {:induction false} RoutingIsExact(acts: seq<Action>)
    requires After(acts).Some?
    ensures var s := After(acts).value;
            && Replies(s) == Route(Sent(acts), false)
            && s.events + Route(s.inbound, true) == Route(Sent(acts), true)
  {
    if acts != [] {
      var n := |acts| - 1;
      RoutingIsExact(acts[..n]);
      StepReplies(After(acts[..n]).value, acts[n]);
      var sent := if acts[n].DeviceSend? then [acts[n].p] else [];
      RouteAppend(Sent(acts[..n]), sent, true);
      RouteAppend(Sent(acts[..n]), sent, false);
    }
  }
}
