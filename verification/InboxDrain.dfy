/**
 Draining the device inbox: `DrainMessages` (messages.go) and the backend's drain loop
 with its coalesced wake-up (backend/messages.go, `observeEvent` in backend/server.go).
 */
module InboxDrain {
  import opened Common

  type Msg = string

  /** What a drain does to one message: the device pops it, the callback runs, the event
      goes out. */
  datatype Event = Popped(m: Msg) | Called(m: Msg) | Emitted(m: Msg)

  datatype DrainError = RequestFailed | CallbackFailed

  function Emissions(trace: seq<Event>): seq<Msg> {
    if trace == [] then []
    else
      var n := |trace| - 1;
      Emissions(trace[..n]) + (if trace[n].Emitted? then [trace[n].m] else [])
  }

  /** Each message in turn: popped, handed to the callback, emitted. */
  function Rounds(ms: seq<Msg>): seq<Event> {
    if ms == [] then []
    else
      var n := |ms| - 1;
      Rounds(ms[..n]) + [Popped(ms[n]), Called(ms[n]), Emitted(ms[n])]
  }

  /** How many messages one drain emits: all, unless a request or a callback fails. */
  function Reach(buffer: seq<Msg>, cb: Msg -> bool, requests: nat): (n: nat)
    ensures n <= |buffer| && n <= requests
    ensures forall i | 0 <= i < n :: cb(buffer[i])
    ensures n < |buffer| && n < requests ==> !cb(buffer[n])
  {
    if buffer == [] || requests == 0 || !cb(buffer[0]) then 0 else 1 + Reach(buffer[1..], cb, requests - 1)
  }

  /** For each message, in order: popped, then handed to the callback, then emitted. */
  lemma {:induction false} RoundsExact(ms: seq<Msg>, i: nat)
    requires i < |ms|
    ensures |Rounds(ms)| == 3 * |ms|
    ensures Rounds(ms)[3 * i] == Popped(ms[i]) && Rounds(ms)[3 * i + 1] == Called(ms[i])
    ensures Rounds(ms)[3 * i + 2] == Emitted(ms[i])
  {
    var n := |ms| - 1;
    if n > 0 {
      RoundsExact(ms[..n], if i < n then i else 0);
    }
  }

  lemma RoundsNext(t: seq<Event>, b: seq<Msg>, k: nat)
    requires k < |b|
    ensures t + Rounds(b[..k]) + [Popped(b[k])] + [Called(b[k])] + [Emitted(b[k])] == t + Rounds(b[..k + 1])
  {
    assert b[..k + 1][..k] == b[..k];
    assert [Popped(b[k])] + [Called(b[k])] + [Emitted(b[k])] == [Popped(b[k]), Called(b[k]), Emitted(b[k])];
  }

  lemma RoundCut(t: seq<Event>, m: Msg)
    ensures t + [Popped(m)] + [Called(m)] == t + [Popped(m), Called(m)]
  {
  }

  class Device {
    var buffer: seq<Msg>
    var trace: seq<Event>

    constructor (ms: seq<Msg>)
      ensures buffer == ms && trace == []
    {
      buffer, trace := ms, [];
    }

    /** Drains until the buffer is empty, the callback refuses, or a request fails; the
        first `requests` requests succeed. */
    method DrainMessages(cb: Msg -> bool, requests: nat) returns (err: Option<DrainError>)
      modifies this
      ensures var n := Reach(old(buffer), cb, requests);
              && (if n < |old(buffer)| && n < requests then
                    && err == Some(CallbackFailed)
                    && buffer == old(buffer)[n + 1..]
                    && trace == old(trace) + Rounds(old(buffer)[..n]) + [Popped(old(buffer)[n]), Called(old(buffer)[n])]
                  else
                    && err == (if n < requests then None else Some(RequestFailed))
                    && buffer == old(buffer)[n..]
                    && trace == old(trace) + Rounds(old(buffer)[..n]))
    {
      ghost var b := buffer;
      ghost var before := trace;
      ghost var k: nat := 0;
      var left := requests;
      while true
        invariant k <= |b| && k + left == requests && buffer == b[k..]
        invariant k + Reach(buffer, cb, left) == Reach(b, cb, requests)
        invariant trace == before + Rounds(b[..k])
        decreases |buffer|
      {
        if left == 0 {
          return Some(RequestFailed);
        }
        left := left - 1;
        if buffer == [] {
          return None;
        }
        var m := buffer[0];
        buffer := buffer[1..];
        trace := trace + [Popped(m)];
        trace := trace + [Called(m)];
        if !cb(m) {
          assert buffer == b[k + 1..];
          RoundCut(before + Rounds(b[..k]), m);
          return Some(CallbackFailed);
        }
        trace := trace + [Emitted(m)];
        RoundsNext(before, b, k);
        k := k + 1;
      }
    }
  }

  lemma {:induction false} EmissionsAppend(t: seq<Event>, u: seq<Event>)
    ensures Emissions(t + u) == Emissions(t) + Emissions(u)
    decreases |u|
  {
    if u == [] {
      assert t + u == t;
    } else {
      var n := |u| - 1;
      assert (t + u)[..|t + u| - 1] == t + u[..n];
      EmissionsAppend(t, u[..n]);
    }
  }

  lemma {:induction false} EmissionsOfRounds(t: seq<Event>, ms: seq<Msg>)
    ensures Emissions(t + Rounds(ms)) == Emissions(t) + ms
    decreases |ms|
  {
    if ms == [] {
      assert t + Rounds(ms) == t;
    } else {
      var n := |ms| - 1;
      var round := [Popped(ms[n]), Called(ms[n]), Emitted(ms[n])];
      assert t + Rounds(ms) == t + Rounds(ms[..n]) + round;
      EmissionsOfRounds(t, ms[..n]);
      EmissionsAppend(t + Rounds(ms[..n]), round);
      EmissionsAppend([round[0]], [round[1], round[2]]);
      EmissionsAppend([round[1]], [round[2]]);
      assert round == [round[0]] + [round[1], round[2]];
      assert [round[1], round[2]] == [round[1]] + [round[2]];
    }
  }

  // ---------------------------------------------------------------------------
  // The drain loop and its wake-ups
  // ---------------------------------------------------------------------------

  /** What the drain in progress has in hand, and where the loop stands. `Ending` is a
      drain that is about to return, with whether it saw the inbox empty. */
  datatype Loop =
    | Starting
    | Fetching
    | Holding(m: Msg)
    | Persisted(m: Msg)
    | Ending(complete: bool)
    | Selecting(complete: bool)
    | Stopped

  /** What became of a message the device popped. */
  datatype Fate = Delivered(m: Msg) | Lost(m: Msg)

  /** `arrivals` is everything the device buffered, `fates` what became of what it popped,
      `called` the messages the callback ran on; `begun` counts the drains begun, and
      `observed` records that count at every wake-up signal. */
  datatype State = State(
    inbox: seq<Msg>, arrivals: seq<Msg>, inFlight: nat, token: bool, loop: Loop,
    fates: seq<Fate>, called: seq<Msg>, begun: nat, observed: seq<nat>)

  const Init := State([], [], 0, false, Starting, [], [], 0, [])

  datatype Action =
    | Arrive(m: Msg)      // the device buffers a message and sends MSG_WAITING
    | Observe             // the read loop sees MSG_WAITING and requests a drain
    | Begin               // the loop starts its initial drain, or takes the token
    | Fetch               // the device pops a message and the reply arrives
    | Persist             // the callback runs
    | Emit
    | SeeEmpty            // the device replies that there are no more messages
    | Fail(lose: bool)    // a request fails, the drain is skipped, or the reply of an earlier request,
                          // such as a late "no more messages", ends it; a popped message may be lost
    | Return
    | Stop

  predicate Enabled(s: State, a: Action) {
    match a
    case Arrive(_) => true
    case Observe => s.inFlight > 0
    case Begin => s.loop.Starting? || (s.loop.Selecting? && s.token)
    case Fetch => s.loop.Fetching? && s.inbox != []
    case Persist => s.loop.Holding?
    case Emit => s.loop.Persisted?
    case SeeEmpty => s.loop.Fetching? && s.inbox == []
    case Fail(lose) => s.loop.Fetching? && (lose ==> s.inbox != [])
    case Return => s.loop.Ending?
    case Stop => s.loop.Selecting?
  }

  function Apply(s: State, a: Action): State
    requires Enabled(s, a)
  {
    match a
    case Arrive(m) => s.(inbox := s.inbox + [m], arrivals := s.arrivals + [m], inFlight := s.inFlight + 1)
    case Observe => s.(inFlight := s.inFlight - 1, token := true, observed := s.observed + [s.begun])
    case Begin => s.(token := if s.loop.Starting? then s.token else false, loop := Fetching, begun := s.begun + 1)
    case Fetch => s.(inbox := s.inbox[1..], loop := Holding(s.inbox[0]))
    case Persist => s.(loop := Persisted(s.loop.m), called := s.called + [s.loop.m])
    case Emit => s.(loop := Fetching, fates := s.fates + [Delivered(s.loop.m)])
    case SeeEmpty => s.(loop := Ending(true))
    case Fail(lose) =>
      if lose then s.(inbox := s.inbox[1..], fates := s.fates + [Lost(s.inbox[0])], loop := Ending(false))
      else s.(loop := Ending(false))
    case Return => s.(loop := Selecting(s.loop.complete))
    case Stop => s.(loop := Stopped)
  }

  function After(acts: seq<Action>): Option<State> {
    if acts == [] then Some(Init)
    else
      match After(acts[..|acts| - 1])
      case None => None
      case Some(s) =>
        if Enabled(s, acts[|acts| - 1]) then Some(Apply(s, acts[|acts| - 1])) else None
  }

  function InHand(s: State): seq<Msg> {
    if s.loop.Holding? || s.loop.Persisted? then [s.loop.m] else []
  }

  function Fated(fates: seq<Fate>): (ms: seq<Msg>)
    ensures |ms| == |fates|
  {
    if fates == [] then []
    else Fated(fates[..|fates| - 1]) + [fates[|fates| - 1].m]
  }

  /** The messages whose event went out. */
  function Sent(fates: seq<Fate>): seq<Msg> {
    if fates == [] then []
    else
      var n := |fates| - 1;
      Sent(fates[..n]) + (if fates[n].Delivered? then [fates[n].m] else [])
  }

  predicate WakeInv(s: State) {
    && (forall i | 0 <= i < |s.observed| ::
          s.token || s.begun > s.observed[i] || s.loop.Stopped?)
    && (forall i | 0 <= i < |s.observed| :: s.observed[i] <= s.begun)
    && ((s.loop.Ending? || s.loop.Selecting?) && s.loop.complete && s.inbox != [] ==> s.token || s.inFlight > 0)
  }

  predicate OrderInv(s: State) {
    && s.arrivals == Fated(s.fates) + InHand(s) + s.inbox
    && s.called == Sent(s.fates) + (if s.loop.Persisted? then [s.loop.m] else [])
  }

  lemma FatedAppend(fates: seq<Fate>, f: Fate)
    ensures Fated(fates + [f]) == Fated(fates) + [f.m]
    ensures Sent(fates + [f]) == Sent(fates) + (if f.Delivered? then [f.m] else [])
  {
    assert (fates + [f])[..|fates|] == fates;
  }

  lemma EmitKeepsOrder(s: State)
    requires OrderInv(s) && Enabled(s, Emit)
    ensures OrderInv(Apply(s, Emit))
  {
    var s', m := Apply(s, Emit), s.loop.m;
    FatedAppend(s.fates, Delivered(m));
    assert Fated(s'.fates) + InHand(s') == Fated(s.fates) + InHand(s) by {
      assert InHand(s) == [m] && Fated(s'.fates) == Fated(s.fates) + [m];
    }
    assert Sent(s'.fates) + [] == s.called;
  }

  lemma FailKeepsOrder(s: State, lose: bool)
    requires OrderInv(s) && Enabled(s, Fail(lose))
    ensures OrderInv(Apply(s, Fail(lose)))
  {
    if lose {
      var s' := Apply(s, Fail(lose));
      FatedAppend(s.fates, Lost(s.inbox[0]));
      assert s.inbox == [s.inbox[0]] + s.inbox[1..];
      assert Fated(s'.fates) + s'.inbox == Fated(s.fates) + s.inbox;
    }
  }

  lemma OtherKeepsOrder(s: State, a: Action)
    requires OrderInv(s) && Enabled(s, a) && !a.Emit? && !a.Fail?
    ensures OrderInv(Apply(s, a))
  {
    if a.Fetch? {
      assert s.inbox == [s.inbox[0]] + s.inbox[1..];
    }
  }

  lemma {:induction false} RunKeepsInv(acts: seq<Action>)
    requires After(acts).Some?
    ensures WakeInv(After(acts).value) && OrderInv(After(acts).value)
  {
    if acts != [] {
      RunKeepsInv(acts[..|acts| - 1]);
      var s, a := After(acts[..|acts| - 1]).value, acts[|acts| - 1];
      if a.Emit? {
        EmitKeepsOrder(s);
      } else if a.Fail? {
        FailKeepsOrder(s, a.lose);
      } else {
        OtherKeepsOrder(s, a);
      }
    }
  }

  /** No wake-up is lost although signals coalesce: for every signal observed, a token is
      pending or a drain has begun since, unless the session stopped. */
  lemma NoWakeUpLost(acts: seq<Action>, i: nat)
    requires After(acts).Some? && i < |After(acts).value.observed|
    ensures var s := After(acts).value; s.token || s.begun > s.observed[i] || s.loop.Stopped?
  {
    RunKeepsInv(acts);
  }

  /** When the loop waits with no signal pending or on its way, and its last drain ran to
      the end, no message is left on the device. */
  lemma NoMessageStranded(acts: seq<Action>)
    requires After(acts).Some?
    requires var s := After(acts).value; s.loop == Selecting(true) && !s.token && s.inFlight == 0
    ensures After(acts).value.inbox == []
  {
    RunKeepsInv(acts);
  }

  /** A message is left on the device, and nothing is under way that would fetch it. */
  predicate Stranded(s: State) {
    (s.loop.Ending? || s.loop.Selecting?) && !s.token && s.inFlight == 0 && s.inbox != []
  }

  /** The action is a failing drain that leaves a message behind, with no signal pending
      or on its way. */
  predicate Strands(s: State, a: Action) {
    a.Fail? && !s.token && s.inFlight == 0 && |s.inbox| > (if a.lose then 1 else 0)
  }

  /** Which step strands messages: exactly such a failure. */
  lemma StrandsIff(s: State, a: Action)
    requires Enabled(s, a) && !Stranded(s)
    ensures Stranded(Apply(s, a)) <==> Strands(s, a)
  {
  }

  /** Only the return of the failed drain leaves the messages stranded: a new arrival
      brings a signal, and a stop ends the loop. */
  lemma StaysStrandedIff(s: State, a: Action)
    requires Enabled(s, a) && Stranded(s)
    ensures Stranded(Apply(s, a)) <==> a.Return?
  {
  }

  /** The last action of the run is a failure that strands. */
  predicate EndsInStranding(acts: seq<Action>) {
    acts != [] && After(acts[..|acts| - 1]).Some?
    && Strands(After(acts[..|acts| - 1]).value, acts[|acts| - 1])
  }

  lemma LastStep(acts: seq<Action>) returns (s: State, a: Action)
    requires After(acts).Some? && acts != []
    ensures After(acts[..|acts| - 1]) == Some(s) && a == acts[|acts| - 1]
    ensures Enabled(s, a) && After(acts).value == Apply(s, a)
  {
    s, a := After(acts[..|acts| - 1]).value, acts[|acts| - 1];
  }

  lemma StrandingStrands(acts: seq<Action>)
    requires After(acts).Some? && EndsInStranding(acts)
    ensures Stranded(After(acts).value) && After(acts).value.loop.Ending?
  {
    var s, a := LastStep(acts);
  }

  lemma ReturnSelects(acts: seq<Action>)
    requires After(acts).Some? && acts != [] && acts[|acts| - 1].Return?
    ensures After(acts).value.loop.Selecting?
  {
    var s, a := LastStep(acts);
  }

  /** Over every run: messages are stranded if and only if its last action, but for the
      return of the drain, is a failure that left a message behind when no signal was
      pending or on its way. */
  lemma {:induction false} StrandedIff(acts: seq<Action>)
    requires After(acts).Some?
    ensures Stranded(After(acts).value) <==>
            EndsInStranding(acts)
            || (acts != [] && acts[|acts| - 1].Return? && EndsInStranding(acts[..|acts| - 1]))
    decreases |acts|
  {
    if acts != [] {
      var pre := acts[..|acts| - 1];
      var s, a := LastStep(acts);
      if EndsInStranding(acts) {
        StrandingStrands(acts);
      } else if !Stranded(s) {
        StrandsIff(s, a);
        if EndsInStranding(pre) {
          StrandingStrands(pre);
        }
      } else {
        StaysStrandedIff(s, a);
        StrandedIff(pre);
        if pre != [] && pre[|pre| - 1].Return? {
          ReturnSelects(pre);
        }
      }
    }
  }

  /** In every state, what the device buffered is, in order, what it has popped, then what
      a drain has in hand, then what is still buffered; the callback has run on exactly
      the messages emitted, in that order, and on at most the one in hand besides. */
  lemma DrainsInOrder(acts: seq<Action>)
    requires After(acts).Some?
    ensures var s := After(acts).value;
            && s.arrivals == Fated(s.fates) + InHand(s) + s.inbox
            && (s.called == Sent(s.fates) || s.called == Sent(s.fates) + InHand(s))
            && ((forall f | f in s.fates :: f.Delivered?) ==> Sent(s.fates) <= s.arrivals)
  {
    RunKeepsInv(acts);
    var s := After(acts).value;
    if forall f | f in s.fates :: f.Delivered? {
      AllDelivered(s.fates);
    }
  }

  lemma {:induction false} AllDelivered(fates: seq<Fate>)
    requires forall f | f in fates :: f.Delivered?
    ensures Sent(fates) == Fated(fates)
  {
    if fates != [] {
      AllDelivered(fates[..|fates| - 1]);
    }
  }

  lemma Take(acts: seq<Action>, s: State, a: Action) returns (acts': seq<Action>, s': State)
    requires After(acts) == Some(s) && Enabled(s, a)
    ensures s' == Apply(s, a) && After(acts') == Some(s')
  {
    acts', s' := acts + [a], Apply(s, a);
    assert acts'[..|acts|] == acts;
  }

  /** One message through a drain. */
  lemma OneRound(acts: seq<Action>, s: State) returns (acts': seq<Action>, s': State)
    requires After(acts) == Some(s) && s.loop.Fetching? && s.inbox != []
    ensures After(acts') == Some(s')
    ensures s' == s.(inbox := s.inbox[1..], called := s.called + [s.inbox[0]],
                     fates := s.fates + [Delivered(s.inbox[0])])
  {
    acts', s' := Take(acts, s, Fetch);
    acts', s' := Take(acts', s', Persist);
    acts', s' := Take(acts', s', Emit);
  }

  /** From wherever a drain stands it can run to the end, and then it has emitted, in
      order, all of the inbox. */
  lemma {:induction false} WholeDrain(acts: seq<Action>, s: State) returns (acts': seq<Action>, s': State)
    requires After(acts) == Some(s) && s.loop.Fetching?
    ensures After(acts') == Some(s') && s'.loop == Ending(true) && s'.inbox == [] && s'.arrivals == s.arrivals
    ensures Sent(s'.fates) == Sent(s.fates) + s.inbox
    decreases |s.inbox|
  {
    if s.inbox == [] {
      acts', s' := Take(acts, s, SeeEmpty);
    } else {
      acts', s' := OneRound(acts, s);
      FatedAppend(s.fates, Delivered(s.inbox[0]));
      acts', s' := WholeDrain(acts', s');
      MoveHead(Sent(s.fates), s.inbox);
    }
  }

  /** A drain that fails does strand messages: the loop then waits, with no signal left,
      while the device still holds a message. */
  lemma FailedDrainStrands(m: Msg) returns (acts: seq<Action>, s: State)
    ensures After(acts) == Some(s)
    ensures s.loop == Selecting(false) && Stranded(s) && s.inbox == [m]
  {
    acts, s := Take([], Init, Begin);
    acts, s := Take(acts, s, SeeEmpty);
    acts, s := Take(acts, s, Return);
    acts, s := Take(acts, s, Arrive(m));
    acts, s := Take(acts, s, Observe);
    acts, s := Take(acts, s, Begin);
    acts, s := Take(acts, s, Fail(false));
    acts, s := Take(acts, s, Return);
  }
}
