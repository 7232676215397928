/**
 The session supervisor (backend/daemon.go): double-checked start under a per-device
 dial lock, racing stop and stop-all. Actions are the sections the code runs under the
 daemon's mutex, the dial lock operations, and the dial itself.
 */
module Daemon {
  import opened Common

  type Device = string
  type Tid = nat
  type Lock = nat
  type Sid = nat

  /** Where a call of startSession stands; the states from `Locked` to `Releasing` own the
      device's dial lock. */
  datatype Pc =
    | Called
    | NeedLock
    | Waiting
    | Locked
    | Dialing
    | HasSession(sid: Sid)
    | Inserted(sid: Sid)
    | Releasing
    | Returned

  datatype Starter = Starter(dev: Device, lk: Lock, pc: Pc)

  /** A call of stopSession or stopAllSessions: what it removed from the map and which of
      those it has stopped. */
  datatype Stopper = Stopper(taken: set<Sid>, stopped: set<Sid>)

  /** `created` maps every session ever dialled to its device. */
  datatype State = State(
    profiles: set<Device>, sessions: map<Device, Sid>, locks: map<Device, Lock>, nextLock: Lock,
    holder: map<Lock, Tid>, starters: map<Tid, Starter>, stoppers: map<Tid, Stopper>,
    created: map<Sid, Device>)

  const Init := State({}, map[], map[], 0, map[], map[], map[], map[])

  datatype Action =
    | Register(dev: Device)
    | CallStart(t: Tid, dev: Device)
    | FastPath(t: Tid)
    | GetLock(t: Tid)
    | Acquire(t: Tid)
    | Recheck(t: Tid)
    | DialFail(t: Tid)
    | DialOk(t: Tid, sid: Sid)
    | Insert(t: Tid)
    | Begin(t: Tid)
    | Unlock(t: Tid)
    | Stop(t: Tid, dev: Device)
    | StopAll(t: Tid)
    | Finish(t: Tid, sid: Sid)

  predicate At(s: State, t: Tid, pc: Pc) {
    t in s.starters && s.starters[t].pc == pc
  }

  predicate Enabled(s: State, a: Action) {
    match a
    case Register(_) => true
    case CallStart(t, _) => t !in s.starters
    case FastPath(t) => At(s, t, Called)
    case GetLock(t) => At(s, t, NeedLock)
    case Acquire(t) => At(s, t, Waiting) && s.starters[t].lk !in s.holder
    case Recheck(t) => At(s, t, Locked)
    case DialFail(t) => At(s, t, Dialing)
    case DialOk(t, sid) => At(s, t, Dialing) && sid !in s.created
    case Insert(t) => t in s.starters && s.starters[t].pc.HasSession?
    case Begin(t) => t in s.starters && s.starters[t].pc.Inserted?
    case Unlock(t) => At(s, t, Releasing)
    case Stop(t, _) => t !in s.stoppers
    case StopAll(t) => t !in s.stoppers
    case Finish(t, sid) => t in s.stoppers && sid in s.stoppers[t].taken - s.stoppers[t].stopped
  }

  function Goto(s: State, t: Tid, pc: Pc): State
    requires t in s.starters
  {
    s.(starters := s.starters[t := s.starters[t].(pc := pc)])
  }

  function Apply(s: State, a: Action): State
    requires Enabled(s, a)
  {
    match a
    case Register(dev) => s.(profiles := s.profiles + {dev})
    case CallStart(t, dev) => s.(starters := s.starters[t := Starter(dev, 0, Called)])
    case FastPath(t) => Goto(s, t, if s.starters[t].dev in s.sessions then Returned else NeedLock)
    case GetLock(t) =>
      var d := s.starters[t].dev;
      if d in s.locks then
        s.(starters := s.starters[t := Starter(d, s.locks[d], Waiting)])
      else
        s.(starters := s.starters[t := Starter(d, s.nextLock, Waiting)],
           locks := s.locks[d := s.nextLock], nextLock := s.nextLock + 1)
    case Acquire(t) => Goto(s, t, Locked).(holder := s.holder[s.starters[t].lk := t])
    case Recheck(t) =>
      var d := s.starters[t].dev;
      Goto(s, t, if d in s.sessions || d !in s.profiles then Releasing else Dialing)
    case DialFail(t) => Goto(s, t, Releasing)
    case DialOk(t, sid) => Goto(s, t, HasSession(sid)).(created := s.created[sid := s.starters[t].dev])
    case Insert(t) =>
      var sid := s.starters[t].pc.sid;
      Goto(s, t, Inserted(sid)).(sessions := s.sessions[s.starters[t].dev := sid])
    case Begin(t) => Goto(s, t, Releasing)
    case Unlock(t) => Goto(s, t, Returned).(holder := s.holder - {s.starters[t].lk})
    case Stop(t, dev) =>
      s.(stoppers := s.stoppers[t := Stopper(if dev in s.sessions then {s.sessions[dev]} else {}, {})],
         sessions := s.sessions - {dev})
    case StopAll(t) =>
      s.(stoppers := s.stoppers[t := Stopper(s.sessions.Values, {})], sessions := map[])
    case Finish(t, sid) =>
      s.(stoppers := s.stoppers[t := s.stoppers[t].(stopped := s.stoppers[t].stopped + {sid})])
  }

  function After(acts: seq<Action>): Option<State> {
    if acts == [] then Some(Init)
    else
      match After(acts[..|acts| - 1])
      case None => None
      case Some(s) =>
        if Enabled(s, acts[|acts| - 1]) then Some(Apply(s, acts[|acts| - 1])) else None
  }

  // ---------------------------------------------------------------------------
  // Dial locks
  // ---------------------------------------------------------------------------

  predicate Critical(r: Starter) {
    r.pc.Locked? || r.pc.Dialing? || r.pc.HasSession? || r.pc.Inserted? || r.pc.Releasing?
  }

  predicate LocksInv(s: State) {
    && (forall d | d in s.locks :: s.locks[d] < s.nextLock)
    && (forall d, d' | d in s.locks && d' in s.locks && d != d' :: s.locks[d] != s.locks[d'])
  }

  predicate StarterInv(s: State, t: Tid)
    requires t in s.starters
  {
    var r := s.starters[t];
    && (r.pc.Waiting? || Critical(r) ==> r.dev in s.locks && s.locks[r.dev] == r.lk)
    && (Critical(r) ==> r.lk in s.holder && s.holder[r.lk] == t)
    && (r.pc.Dialing? || r.pc.HasSession? ==> r.dev !in s.sessions)
    && (r.pc.HasSession? ==> r.pc.sid in s.created && s.created[r.pc.sid] == r.dev)
  }

  predicate StartersInv(s: State) {
    LocksInv(s) && forall t | t in s.starters :: StarterInv(s, t)
  }

  /** The dial lock excludes: two starters past it are at different devices. */
  lemma DialLockExcludes(s: State, t: Tid, t': Tid)
    requires StartersInv(s) && t in s.starters && t' in s.starters
    requires Critical(s.starters[t]) && Critical(s.starters[t']) && s.starters[t].dev == s.starters[t'].dev
    ensures t == t'
  {
    assert StarterInv(s, t) && StarterInv(s, t');
  }

  lemma StepKeepsLocks(s: State, a: Action)
    requires LocksInv(s) && Enabled(s, a)
    ensures LocksInv(Apply(s, a))
  {
  }

  predicate MapAction(a: Action) {
    a.Insert? || a.Unlock? || a.Stop? || a.StopAll? || a.Finish?
  }

  lemma StepKeepsStarter(s: State, a: Action, t: Tid)
    requires LocksInv(s) && Enabled(s, a) && !MapAction(a)
    requires t in s.starters && StarterInv(s, t)
    ensures StarterInv(Apply(s, a), t)
  {
    if !a.Register? && a.t == t {
      OwnStepKeepsStarter(s, a);
    }
  }

  lemma OwnStepKeepsStarter(s: State, a: Action)
    requires LocksInv(s) && Enabled(s, a) && !MapAction(a) && !a.Register?
    requires a.t in s.starters && StarterInv(s, a.t)
    ensures StarterInv(Apply(s, a), a.t)
  {
  }

  lemma StopKeepsStarter(s: State, a: Action, t: Tid)
    requires Enabled(s, a) && (a.Stop? || a.StopAll? || a.Finish?)
    requires t in s.starters && StarterInv(s, t)
    ensures StarterInv(Apply(s, a), t)
  {
  }

  lemma InsertKeepsStarter(s: State, a: Action, t: Tid)
    requires LocksInv(s) && Enabled(s, a) && (a.Insert? || a.Unlock?)
    requires t in s.starters && StarterInv(s, t) && StarterInv(s, a.t)
    ensures StarterInv(Apply(s, a), t)
  {
  }

  lemma StepKeepsStarters(s: State, a: Action)
    requires StartersInv(s) && Enabled(s, a)
    ensures StartersInv(Apply(s, a))
  {
    StepKeepsLocks(s, a);
    forall t | t in Apply(s, a).starters
      ensures StarterInv(Apply(s, a), t)
    {
      if t in s.starters {
        if a.Insert? || a.Unlock? {
          InsertKeepsStarter(s, a, t);
        } else if MapAction(a) {
          StopKeepsStarter(s, a, t);
        } else {
          StepKeepsStarter(s, a, t);
        }
      }
    }
  }

  // ---------------------------------------------------------------------------
  // Where sessions are
  // ---------------------------------------------------------------------------

  datatype Place = AtStarter(t: Tid) | AtMap(dev: Device) | AtStopper(p: Tid)

  predicate In(s: State, pl: Place, sid: Sid) {
    match pl
    case AtStarter(t) => At(s, t, HasSession(sid))
    case AtMap(d) => d in s.sessions && s.sessions[d] == sid
    case AtStopper(p) => p in s.stoppers && sid in s.stoppers[p].taken
  }

  /** A session a stopper took is nowhere else. */
  predicate TakenInv(s: State, p: Tid, sid: Sid) {
    && sid in s.created
    && (forall d | d in s.sessions :: s.sessions[d] != sid)
    && (forall t | t in s.starters :: s.starters[t].pc != HasSession(sid))
    && (forall q | q in s.stoppers && q != p :: sid !in s.stoppers[q].taken)
  }

  predicate ListedInv(s: State) {
    forall d | d in s.sessions :: s.sessions[d] in s.created && s.created[s.sessions[d]] == d
  }

  predicate StoppersInv(s: State) {
    forall p | p in s.stoppers :: forall sid | sid in s.stoppers[p].taken :: TakenInv(s, p, sid)
  }

  ghost predicate Somewhere(s: State, sid: Sid) {
    exists pl :: In(s, pl, sid)
  }

  /** A stopper stops only what it took. */
  predicate StoppedInv(s: State) {
    forall p | p in s.stoppers :: s.stoppers[p].stopped <= s.stoppers[p].taken
  }

  ghost predicate Inv(s: State) {
    && StartersInv(s) && ListedInv(s) && StoppersInv(s) && StoppedInv(s)
    && forall sid | sid in s.created :: Somewhere(s, sid)
  }

  lemma StepKeepsListed(s: State, a: Action)
    requires ListedInv(s) && Enabled(s, a)
    requires a.Insert? ==> StarterInv(s, a.t)
    ensures ListedInv(Apply(s, a))
  {
  }

  lemma StartKeepsTaken(s: State, a: Action, p: Tid, sid: Sid)
    requires Enabled(s, a) && !a.Stop? && !a.StopAll?
    requires p in s.stoppers && sid in s.stoppers[p].taken && TakenInv(s, p, sid)
    ensures TakenInv(Apply(s, a), p, sid)
  {
  }

  lemma StopKeepsTaken(s: State, a: Action, p: Tid, sid: Sid)
    requires Enabled(s, a) && (a.Stop? || a.StopAll?) && ListedInv(s) && StartersInv(s)
    requires p in Apply(s, a).stoppers && sid in Apply(s, a).stoppers[p].taken
    requires forall q | q in s.stoppers :: forall x | x in s.stoppers[q].taken :: TakenInv(s, q, x)
    ensures TakenInv(Apply(s, a), p, sid)
  {
    var s' := Apply(s, a);
    if p == a.t {
      var d :| d in s.sessions && s.sessions[d] == sid;
      forall t | t in s.starters
        ensures s.starters[t].pc != HasSession(sid)
      {
        assert StarterInv(s, t);
      }
      forall q | q in s.stoppers
        ensures sid !in s.stoppers[q].taken
      {
        assert forall x | x in s.stoppers[q].taken :: TakenInv(s, q, x);
      }
    } else {
      assert TakenInv(s, p, sid);
    }
  }

  lemma StepKeepsStoppers(s: State, a: Action)
    requires StartersInv(s) && ListedInv(s) && StoppersInv(s) && Enabled(s, a)
    ensures StoppersInv(Apply(s, a))
  {
    forall p | p in Apply(s, a).stoppers
      ensures forall sid | sid in Apply(s, a).stoppers[p].taken :: TakenInv(Apply(s, a), p, sid)
    {
      forall sid | sid in Apply(s, a).stoppers[p].taken
        ensures TakenInv(Apply(s, a), p, sid)
      {
        if a.Stop? || a.StopAll? {
          StopKeepsTaken(s, a, p, sid);
        } else {
          assert TakenInv(s, p, sid);
          StartKeepsTaken(s, a, p, sid);
        }
      }
    }
  }

  lemma StepKeepsStopped(s: State, a: Action)
    requires StoppedInv(s) && Enabled(s, a)
    ensures StoppedInv(Apply(s, a))
  {
  }

  /** A session moves from its starter to the map and from the map to one stopper. */
  lemma StepKeepsSomewhere(s: State, a: Action, sid: Sid)
    requires Enabled(s, a) && (a.Insert? ==> StarterInv(s, a.t))
    requires sid in Apply(s, a).created && (sid in s.created ==> Somewhere(s, sid))
    ensures Somewhere(Apply(s, a), sid)
  {
    var s' := Apply(s, a);
    if sid !in s.created {
      assert In(s', AtStarter(a.t), sid);
    } else {
      var pl :| In(s, pl, sid);
      if a.Insert? {
        InsertMoves(s, a, pl, sid);
      } else if a.Stop? || a.StopAll? {
        StopMoves(s, a, pl, sid);
      } else {
        assert In(s', pl, sid);
      }
    }
  }

  lemma InsertMoves(s: State, a: Action, pl: Place, sid: Sid)
    requires Enabled(s, a) && a.Insert? && StarterInv(s, a.t) && In(s, pl, sid)
    ensures In(Apply(s, a), if pl == AtStarter(a.t) then AtMap(s.starters[a.t].dev) else pl, sid)
  {
  }

  lemma StopMoves(s: State, a: Action, pl: Place, sid: Sid)
    requires Enabled(s, a) && (a.Stop? || a.StopAll?) && In(s, pl, sid)
    ensures In(Apply(s, a), if pl.AtMap? && (a.StopAll? || a.dev == pl.dev) then AtStopper(a.t) else pl, sid)
  {
  }

  lemma StepKeepsInv(s: State, a: Action)
    requires Inv(s) && Enabled(s, a)
    ensures Inv(Apply(s, a))
  {
    StepKeepsStarters(s, a);
    StepKeepsListed(s, a);
    StepKeepsStoppers(s, a);
    StepKeepsStopped(s, a);
    forall sid | sid in Apply(s, a).created
      ensures Somewhere(Apply(s, a), sid)
    {
      StepKeepsSomewhere(s, a, sid);
    }
  }

  lemma {:induction false} RunKeepsInv(acts: seq<Action>)
    requires After(acts).Some?
    ensures Inv(After(acts).value)
  {
    if acts != [] {
      RunKeepsInv(acts[..|acts| - 1]);
      StepKeepsInv(After(acts[..|acts| - 1]).value, acts[|acts| - 1]);
    }
  }

  // ---------------------------------------------------------------------------
  // What holds in every interleaving
  // ---------------------------------------------------------------------------

  /** What stands for a device's one session: being dialled, held by its starter after
      the dial, or listed in the map. */
  predicate Occupies(s: State, pl: Place, dev: Device) {
    match pl
    case AtStarter(t) =>
      t in s.starters && s.starters[t].dev == dev && (s.starters[t].pc.Dialing? || s.starters[t].pc.HasSession?)
    case AtMap(d) => d == dev && d in s.sessions
    case AtStopper(_) => false
  }

  /** Each device has at most one session being dialled, held by its starter or listed. */
  lemma OneSessionPerDevice(acts: seq<Action>, dev: Device, pl: Place, pl': Place)
    requires After(acts).Some?
    requires Occupies(After(acts).value, pl, dev) && Occupies(After(acts).value, pl', dev)
    ensures pl == pl'
  {
    RunKeepsInv(acts);
    var s := After(acts).value;
    assert pl.AtStarter? ==> StarterInv(s, pl.t);
    assert pl'.AtStarter? ==> StarterInv(s, pl'.t);
  }

  /** Only registered devices are dialled: whatever is dialled, created or listed belongs to
      one. */
  ghost predicate Registered(s: State) {
    && (forall t | t in s.starters && (s.starters[t].pc.Dialing? || s.starters[t].pc.HasSession?) ::
          s.starters[t].dev in s.profiles)
    && (forall sid | sid in s.created :: s.created[sid] in s.profiles)
    && (forall d | d in s.sessions :: d in s.profiles)
  }

  lemma StepKeepsRegistered(s: State, a: Action)
    requires Registered(s) && Enabled(s, a)
    ensures Registered(Apply(s, a))
  {
  }

  lemma {:induction false} OnlyRegistered(acts: seq<Action>)
    requires After(acts).Some?
    ensures Registered(After(acts).value)
  {
    if acts != [] {
      OnlyRegistered(acts[..|acts| - 1]);
      StepKeepsRegistered(After(acts[..|acts| - 1]).value, acts[|acts| - 1]);
    }
  }

  /** Entering a session in the map never overwrites a listed one. */
  lemma InsertNeverOverwrites(acts: seq<Action>, t: Tid)
    requires After(acts).Some? && Enabled(After(acts).value, Insert(t))
    ensures var s := After(acts).value;
            && s.starters[t].dev !in s.sessions
            && s.starters[t].pc.sid in s.created && s.created[s.starters[t].pc.sid] == s.starters[t].dev
  {
    RunKeepsInv(acts);
    assert StarterInv(After(acts).value, t);
  }

  /** Every session created is in exactly one place: with its starter, in the map, or
      with one stopper. */
  lemma ExactlyOnePlace(acts: seq<Action>, sid: Sid)
    requires After(acts).Some? && sid in After(acts).value.created
    ensures exists pl :: In(After(acts).value, pl, sid)
    ensures forall pl, pl' :: In(After(acts).value, pl, sid) && In(After(acts).value, pl', sid) ==> pl == pl'
  {
    RunKeepsInv(acts);
    var s := After(acts).value;
    assert Somewhere(s, sid);
    forall pl, pl' | In(s, pl, sid) && In(s, pl', sid)
      ensures pl == pl'
    {
      PlaceUnique(s, pl, pl', sid);
    }
  }

  lemma PlaceUnique(s: State, pl: Place, pl': Place, sid: Sid)
    requires StartersInv(s) && ListedInv(s) && StoppersInv(s) && In(s, pl, sid) && In(s, pl', sid)
    ensures pl == pl'
  {
    assert pl.AtStopper? ==> forall x | x in s.stoppers[pl.p].taken :: TakenInv(s, pl.p, x);
    assert pl'.AtStopper? ==> forall x | x in s.stoppers[pl'.p].taken :: TakenInv(s, pl'.p, x);
    assert pl.AtStarter? ==> StarterInv(s, pl.t);
    assert pl'.AtStarter? ==> StarterInv(s, pl'.t);
  }

  /** A connection is open from its dial until its stopper has stopped it. */
  predicate Alive(s: State, sid: Sid) {
    sid in s.created && forall p | p in s.stoppers :: sid !in s.stoppers[p].stopped
  }

  /** A stopper has taken the session from the map and not yet stopped it. */
  predicate BeingStopped(s: State, sid: Sid) {
    exists p | p in s.stoppers :: sid in s.stoppers[p].taken - s.stoppers[p].stopped
  }

  ghost predicate Connected(s: State, dev: Device, sid: Sid) {
    Alive(s, sid) && s.created[sid] == dev
  }

  /** The device has two open connections. */
  ghost predicate Overlap(s: State, dev: Device) {
    exists sid, sid' :: sid != sid' && Connected(s, dev, sid) && Connected(s, dev, sid')
  }

  /** The device has a session that was taken from the map and is not yet stopped. */
  ghost predicate StopUnderWay(s: State, dev: Device) {
    exists sid :: sid in s.created && s.created[sid] == dev && BeingStopped(s, sid)
  }

  lemma BeingStoppedIsAlive(s: State, sid: Sid)
    requires StoppersInv(s) && StoppedInv(s) && sid in s.created && BeingStopped(s, sid)
    ensures Alive(s, sid)
  {
    var p :| p in s.stoppers && sid in s.stoppers[p].taken - s.stoppers[p].stopped;
    assert forall x | x in s.stoppers[p].taken :: TakenInv(s, p, x);
    assert TakenInv(s, p, sid);
  }

  /** While its device is being dialled, a session is open only if it is being stopped. */
  lemma AliveIsBeingStopped(s: State, t: Tid, sid: Sid)
    requires Inv(s) && At(s, t, Dialing) && Connected(s, s.starters[t].dev, sid)
    ensures BeingStopped(s, sid)
  {
    assert StarterInv(s, t);
    var pl :| In(s, pl, sid);
    if pl.AtStarter? {
      assert StarterInv(s, pl.t);
      DialLockExcludes(s, t, pl.t);
    }
  }

  lemma DialMeetsIff(s: State, t: Tid)
    requires Inv(s) && At(s, t, Dialing)
    ensures (exists sid :: Connected(s, s.starters[t].dev, sid)) <==> StopUnderWay(s, s.starters[t].dev)
  {
    var dev := s.starters[t].dev;
    if sid :| Connected(s, dev, sid) {
      AliveIsBeingStopped(s, t, sid);
    }
    if StopUnderWay(s, dev) {
      var sid :| sid in s.created && s.created[sid] == dev && BeingStopped(s, sid);
      BeingStoppedIsAlive(s, sid);
      assert Connected(s, dev, sid);
    }
  }

  /** A dial that succeeds opens a second connection to its device exactly when, before
      the step, a session of that device is being stopped. */
  lemma DialOverlapsIff(acts: seq<Action>, t: Tid, sid: Sid)
    requires After(acts).Some? && Enabled(After(acts).value, DialOk(t, sid))
    ensures var s := After(acts).value;
            (exists x :: Connected(s, s.starters[t].dev, x)) <==> StopUnderWay(s, s.starters[t].dev)
  {
    RunKeepsInv(acts);
    DialMeetsIff(After(acts).value, t);
  }

  /** Only a dial opens a connection. */
  lemma ConnectedStep(s: State, a: Action, dev: Device, sid: Sid)
    requires Enabled(s, a)
    ensures Connected(Apply(s, a), dev, sid) && !Connected(s, dev, sid) ==>
              a.DialOk? && a.sid == sid && s.starters[a.t].dev == dev
  {
    assert forall p | p in s.stoppers ::
        p in Apply(s, a).stoppers && s.stoppers[p].stopped <= Apply(s, a).stoppers[p].stopped;
  }

  lemma DialConnects(s: State, a: Action, sid: Sid)
    requires Enabled(s, a) && a.DialOk? && StoppersInv(s) && StoppedInv(s)
    ensures Connected(Apply(s, a), s.starters[a.t].dev, a.sid)
    ensures Connected(s, s.starters[a.t].dev, sid) ==> Connected(Apply(s, a), s.starters[a.t].dev, sid)
  {
    forall p | p in s.stoppers
      ensures a.sid !in s.stoppers[p].stopped
    {
      assert forall x | x in s.stoppers[p].taken :: TakenInv(s, p, x);
    }
  }

  /** At most one connection per device is not kept, and this is exactly when: a step
      makes a device have two open connections if and only if it is a dial of that device
      that succeeds while a session of that device is being stopped. */
  lemma OverlapIff(acts: seq<Action>, a: Action, dev: Device)
    requires After(acts).Some? && Enabled(After(acts).value, a) && !Overlap(After(acts).value, dev)
    ensures var s := After(acts).value;
            Overlap(Apply(s, a), dev) <==> a.DialOk? && s.starters[a.t].dev == dev && StopUnderWay(s, dev)
  {
    RunKeepsInv(acts);
    var s := After(acts).value;
    if Overlap(Apply(s, a), dev) {
      var x, y :| x != y && Connected(Apply(s, a), dev, x) && Connected(Apply(s, a), dev, y);
      ConnectedStep(s, a, dev, x);
      ConnectedStep(s, a, dev, y);
      DialMeetsIff(s, a.t);
    } else if a.DialOk? && s.starters[a.t].dev == dev && StopUnderWay(s, dev) {
      DialMeetsIff(s, a.t);
      var x :| Connected(s, dev, x);
      DialConnects(s, a, x);
    }
  }

  /** Two open connections to one device: only while one of them is being stopped. */
  lemma TwoConnectionsNeedStop(acts: seq<Action>, sid: Sid, sid': Sid)
    requires After(acts).Some? && sid != sid'
    requires Alive(After(acts).value, sid) && Alive(After(acts).value, sid')
    requires After(acts).value.created[sid] == After(acts).value.created[sid']
    ensures BeingStopped(After(acts).value, sid) || BeingStopped(After(acts).value, sid')
  {
    RunKeepsInv(acts);
    var s := After(acts).value;
    var dev := s.created[sid];
    assert Somewhere(s, sid) && Somewhere(s, sid');
    var pl :| In(s, pl, sid);
    var pl' :| In(s, pl', sid');
    if !pl.AtStopper? && !pl'.AtStopper? {
      assert pl.AtStarter? ==> StarterInv(s, pl.t);
      assert pl'.AtStarter? ==> StarterInv(s, pl'.t);
      OneSessionPerDevice(acts, dev, pl, pl');
    }
  }

  lemma Take(acts: seq<Action>, s: State, a: Action) returns (acts': seq<Action>, s': State)
    requires After(acts) == Some(s) && Enabled(s, a)
    ensures s' == Apply(s, a) && After(acts') == Some(s')
  {
    acts', s' := acts + [a], Apply(s, a);
    assert acts'[..|acts|] == acts;
  }

  lemma Asks(acts: seq<Action>, s: State, t: Tid, dev: Device) returns (acts': seq<Action>, s': State)
    requires After(acts) == Some(s) && t !in s.starters && dev !in s.sessions
    ensures After(acts') == Some(s') && s' == s.(starters := s.starters[t := Starter(dev, 0, NeedLock)])
  {
    acts', s' := Take(acts, s, CallStart(t, dev));
    acts', s' := Take(acts', s', FastPath(t));
  }

  lemma GotLock(s: State, t: Tid)
    requires At(s, t, NeedLock)
    ensures var s', d := Apply(s, GetLock(t)), s.starters[t].dev;
            d in s'.locks
            && s' == s.(starters := s.starters[t := Starter(d, s'.locks[d], Waiting)],
                        locks := s'.locks, nextLock := s'.nextLock)
  {
  }

  /** A start of an unlisted device, up to waiting for its dial lock. */
  lemma Waits(acts: seq<Action>, s: State, t: Tid, dev: Device) returns (acts': seq<Action>, s': State)
    requires After(acts) == Some(s) && t !in s.starters && dev !in s.sessions
    ensures After(acts') == Some(s') && dev in s'.locks
    ensures s' == s.(starters := s.starters[t := Starter(dev, s'.locks[dev], Waiting)],
                     locks := s'.locks, nextLock := s'.nextLock)
  {
    acts', s' := Asks(acts, s, t, dev);
    GotLock(s', t);
    acts', s' := Take(acts', s', GetLock(t));
    assert s.starters[t := Starter(dev, 0, NeedLock)][t := Starter(dev, s'.locks[dev], Waiting)]
        == s.starters[t := Starter(dev, s'.locks[dev], Waiting)];
  }

  /** Then, with the lock free and the device registered, up to the dial. */
  lemma Dials(acts: seq<Action>, s: State, t: Tid, sid: Sid) returns (acts': seq<Action>, s': State)
    requires After(acts) == Some(s) && At(s, t, Waiting) && sid !in s.created
    requires s.starters[t].dev in s.profiles && s.starters[t].dev !in s.sessions && s.holder == map[]
    ensures After(acts') == Some(s')
    ensures s' == s.(starters := s.starters[t := s.starters[t].(pc := HasSession(sid))],
                     created := s.created[sid := s.starters[t].dev], holder := map[s.starters[t].lk := t])
  {
    acts', s' := Take(acts, s, Acquire(t));
    acts', s' := Take(acts', s', Recheck(t));
    acts', s' := Take(acts', s', DialOk(t, sid));
  }

  /** Then up to its return, with the session listed. */
  lemma Lists(acts: seq<Action>, s: State, t: Tid) returns (acts': seq<Action>, s': State)
    requires After(acts) == Some(s) && t in s.starters && s.starters[t].pc.HasSession?
    ensures After(acts') == Some(s')
    ensures s' == s.(starters := s.starters[t := s.starters[t].(pc := Returned)],
                     sessions := s.sessions[s.starters[t].dev := s.starters[t].pc.sid],
                     holder := s.holder - {s.starters[t].lk})
  {
    acts', s' := Take(acts, s, Insert(t));
    acts', s' := Take(acts', s', Begin(t));
    acts', s' := Take(acts', s', Unlock(t));
  }

  /** Starting again while a stop is under way does open a second connection: the dial
      lock serialises starts, not a start against a stop. */
  lemma StopThenStartOverlap(dev: Device) returns (acts: seq<Action>, s: State)
    ensures After(acts) == Some(s)
    ensures Alive(s, 0) && Alive(s, 1) && s.created[0] == dev && s.created[1] == dev
    ensures In(s, AtStopper(0), 0) && In(s, AtStarter(1), 1)
  {
    acts, s := Take([], Init, Register(dev));
    acts, s := Waits(acts, s, 0, dev);
    acts, s := Dials(acts, s, 0, 0);
    acts, s := Lists(acts, s, 0);
    assert s.holder == map[];
    acts, s := Take(acts, s, Stop(0, dev));
    acts, s := Waits(acts, s, 1, dev);
    acts, s := Dials(acts, s, 1, 1);
  }
}
