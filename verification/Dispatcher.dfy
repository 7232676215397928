/**
 The event dispatcher (internal/dispatcher/dispatcher.go): drop-oldest fan-out to
 buffered channels. The dispatcher's methods exclude each other through its mutex, but
 receivers do not take it: they may run before and between the three selects of `Emit`,
 which is what `Receivers` stands for.
 */
module Dispatcher {
  import opened Common

  type Handle = nat

  /** A Go channel. `popped` is everything that has left its buffer, in order; the
      positions in `lost` were discarded by the dispatcher, the others received. */
  datatype Chan<T> = Chan(buf: seq<T>, cap: nat, closed: bool, popped: seq<T>, lost: set<nat>)

  /** Everything ever sent to the channel, in order. */
  function History<T>(c: Chan<T>): seq<T> {
    c.popped + c.buf
  }

  function Pop<T>(c: Chan<T>, lost: bool): (r: Chan<T>)
    requires |c.buf| > 0
    ensures History(r) == History(c)
  {
    var r := c.(buf := c.buf[1..], popped := c.popped + [c.buf[0]],
                lost := if lost then c.lost + {|c.popped|} else c.lost);
    assert c.buf == [c.buf[0]] + c.buf[1..];
    assert History(r) == History(c);
    r
  }

  function Send<T>(c: Chan<T>, ev: T): (r: Chan<T>)
    requires !c.closed && |c.buf| < c.cap
    ensures History(r) == History(c) + [ev]
  {
    assert c.popped + (c.buf + [ev]) == c.popped + c.buf + [ev];
    c.(buf := c.buf + [ev])
  }

  /** What receivers alone can do to a channel. */
  ghost predicate OnlyReceived<T>(c: Chan<T>, c': Chan<T>) {
    && c'.cap == c.cap && c'.closed == c.closed && |c'.buf| <= |c.buf|
    && c.popped <= c'.popped && History(c') == History(c) && c'.lost == c.lost
  }

  ghost predicate AllOnlyReceived<T>(chans: map<Handle, Chan<T>>, chans': map<Handle, Chan<T>>) {
    chans'.Keys == chans.Keys && forall h | h in chans :: OnlyReceived(chans[h], chans'[h])
  }

  /** What one `Emit`, with receivers running, does to a channel: an open one gets the
      event; it loses at most one buffered event, and none if it had room. */
  ghost predicate Emitted<T>(c: Chan<T>, c': Chan<T>, ev: T) {
    && c'.cap == c.cap && c'.closed == c.closed && c.popped <= c'.popped
    && (c.closed ==> OnlyReceived(c, c'))
    && (!c.closed ==>
          && History(c') == History(c) + [ev]
          && |c'.buf| <= c'.cap
          && (|c.buf| < c.cap ==> c'.lost == c.lost)
          && (|| c'.lost == c.lost
              || exists i :: |c.popped| <= i < |c'.popped| && i < |History(c)| && c'.lost == c.lost + {i}))
  }

  ghost predicate Offered<T>(c: Chan<T>, c': Chan<T>, ev: T, done: bool) {
    if done && !c.closed then Emitted(c, c', ev) else OnlyReceived(c, c')
  }

  ghost predicate SameOrClosed<T>(m: map<Handle, Chan<T>>, m': map<Handle, Chan<T>>) {
    && m'.Keys == m.Keys
    && forall h | h in m :: m'[h] == m[h] || m'[h] == m[h].(closed := true)
  }

  lemma ClosedStep<T>(m: map<Handle, Chan<T>>, mid: map<Handle, Chan<T>>, m': map<Handle, Chan<T>>)
    requires SameOrClosed(m, mid) && SameOrClosed(mid, m')
    ensures SameOrClosed(m, m')
  {
  }

  ghost predicate DroppedOldest<T>(c: Chan<T>, c': Chan<T>) {
    && c'.cap == c.cap && c'.closed == c.closed && (|c.buf| > 0 ==> |c'.buf| < |c.buf|)
    && |c'.buf| <= |c.buf| && c.popped <= c'.popped && History(c') == History(c)
    && (c'.lost == c.lost || exists i :: |c.popped| <= i < |c'.popped| && c'.lost == c.lost + {i})
  }

  lemma DropIsDrop<T>(c: Chan<T>, before: Chan<T>, dropped: Chan<T>, c': Chan<T>)
    requires OnlyReceived(c, before) && OnlyReceived(dropped, c')
    requires dropped == if |before.buf| > 0 then Pop(before, true) else before
    ensures DroppedOldest(c, c')
  {
    if |before.buf| > 0 {
      assert |c.popped| <= |before.popped| < |c'.popped| && c'.lost == c.lost + {|before.popped|};
    }
  }

  lemma OthersTwice<T>(m: map<Handle, Chan<T>>, before: map<Handle, Chan<T>>, dropped: map<Handle, Chan<T>>,
                       m': map<Handle, Chan<T>>, h: Handle)
    requires AllOnlyReceived(m, before) && AllOnlyReceived(dropped, m') && dropped.Keys == before.Keys
    requires forall k | k in before && k != h :: dropped[k] == before[k]
    ensures forall k | k in m' && k != h :: OnlyReceived(m[k], m'[k])
  {
    forall k | k in m' && k != h
      ensures OnlyReceived(m[k], m'[k])
    {
      assert OnlyReceived(m[k], before[k]) && OnlyReceived(before[k], m'[k]);
    }
  }

  lemma OthersOnlyReceived<T>(m: map<Handle, Chan<T>>, mid: map<Handle, Chan<T>>, m': map<Handle, Chan<T>>, h: Handle)
    requires AllOnlyReceived(m, mid) && m'.Keys == mid.Keys
    requires forall k | k in mid && k != h :: OnlyReceived(mid[k], m'[k])
    ensures forall k | k in m' && k != h :: OnlyReceived(m[k], m'[k])
  {
    forall k | k in m' && k != h
      ensures OnlyReceived(m[k], m'[k])
    {
      assert OnlyReceived(m[k], mid[k]) && OnlyReceived(mid[k], m'[k]);
    }
  }

  lemma SendAfterReceive<T>(c: Chan<T>, c': Chan<T>, ev: T)
    requires OnlyReceived(c, c') && !c'.closed && |c'.buf| < c'.cap
    ensures Emitted(c, Send(c', ev), ev)
  {
  }

  /** A full buffer has room after its oldest event was discarded. */
  lemma SendAfterDrop<T>(c: Chan<T>, full: Chan<T>, c': Chan<T>, ev: T)
    requires OnlyReceived(c, full) && DroppedOldest(full, c')
    requires !c.closed && |full.buf| >= full.cap > 0 && |c.buf| <= c.cap
    ensures !c'.closed && |c'.buf| < c'.cap && Emitted(c, Send(c', ev), ev)
  {
    if c'.lost != full.lost {
      var i :| |full.popped| <= i < |c'.popped| && c'.lost == full.lost + {i};
      assert |c.popped| <= i < |c'.popped| && c'.lost == c.lost + {i};
    }
  }

  lemma OfferAfterReceive<T>(c: Chan<T>, c': Chan<T>, c'': Chan<T>, ev: T)
    requires OnlyReceived(c, c') && Emitted(c', c'', ev) && !c.closed
    ensures Emitted(c, c'', ev)
  {
  }

  lemma ReceiveAfterOffer<T>(c: Chan<T>, c': Chan<T>, c'': Chan<T>, ev: T, done: bool)
    requires Offered(c, c', ev, done) && OnlyReceived(c', c'')
    ensures Offered(c, c'', ev, done)
  {
    if done && !c.closed && c'.lost != c.lost {
      var i :| |c.popped| <= i < |c'.popped| && c'.lost == c.lost + {i};
      assert |c.popped| <= i < |c''.popped| && c''.lost == c.lost + {i};
    }
  }

  /** `log` holds the events emitted while the dispatcher was open; for each channel,
      `since` and `until` say how many preceded its subscription and its closing, and
      `owner` the id it was registered under. */
  datatype Record<T> = Record(log: seq<T>, since: map<Handle, nat>, until: map<Handle, nat>, owner: map<Handle, nat>)

  function End<T>(c: Chan<T>, h: Handle, g: Record<T>): nat
    requires h in g.until
  {
    if c.closed then g.until[h] else |g.log|
  }

  ghost predicate ChanOk<T>(c: Chan<T>, h: Handle, subs: map<nat, Handle>, g: Record<T>) {
    && h in g.since && h in g.until && h in g.owner
    && |c.buf| <= c.cap
    && (forall i | i in c.lost :: i < |c.popped|)
    && g.since[h] <= End(c, h, g) <= |g.log|
    && History(c) == g.log[g.since[h]..End(c, h, g)]
    && (!c.closed ==> c.cap > 0 && g.owner[h] in subs && subs[g.owner[h]] == h)
  }

  ghost predicate Inv<T>(chans: map<Handle, Chan<T>>, subs: map<nat, Handle>, g: Record<T>) {
    && (forall h | h in chans :: ChanOk(chans[h], h, subs, g))
    && (forall id | id in subs ::
          subs[id] in chans && !chans[subs[id]].closed && subs[id] in g.owner && g.owner[subs[id]] == id)
  }

  lemma ReceiversKeepInv<T>(
      chans: map<Handle, Chan<T>>, chans': map<Handle, Chan<T>>, subs: map<nat, Handle>, g: Record<T>)
    requires Inv(chans, subs, g) && AllOnlyReceived(chans, chans')
    ensures Inv(chans', subs, g)
  {
    forall h | h in chans'
      ensures ChanOk(chans'[h], h, subs, g)
    {
      assert ChanOk(chans[h], h, subs, g) && OnlyReceived(chans[h], chans'[h]);
    }
  }

  /** Part way through the loop of `Emit`: every subscriber not in `todo` was offered `ev`. */
  ghost predicate AllOffered<T>(
      m: map<Handle, Chan<T>>, m': map<Handle, Chan<T>>, g: Record<T>, ev: T, todo: set<nat>)
  {
    && m'.Keys == m.Keys
    && forall h | h in m :: h in g.owner && Offered(m[h], m'[h], ev, g.owner[h] !in todo)
  }

  lemma OfferProgress<T>(m: map<Handle, Chan<T>>, mid: map<Handle, Chan<T>>, m': map<Handle, Chan<T>>,
                         subs: map<nat, Handle>, g: Record<T>, ev: T, todo: set<nat>, id: nat)
    requires Inv(m, subs, g) && AllOffered(m, mid, g, ev, todo) && id in todo && id in subs
    requires m'.Keys == m.Keys && Emitted(mid[subs[id]], m'[subs[id]], ev)
    requires forall k | k in m && k != subs[id] :: OnlyReceived(mid[k], m'[k])
    ensures AllOffered(m, m', g, ev, todo - {id})
  {
    forall k | k in m
      ensures k in g.owner && Offered(m[k], m'[k], ev, g.owner[k] !in todo - {id})
    {
      assert Offered(m[k], mid[k], ev, g.owner[k] !in todo) && ChanOk(m[k], k, subs, g);
      if k == subs[id] {
        OfferAfterReceive(m[k], mid[k], m'[k], ev);
      } else {
        ReceiveAfterOffer(m[k], mid[k], m'[k], ev, g.owner[k] !in todo);
      }
    }
  }

  lemma EmitKeepsInv<T>(
      chans: map<Handle, Chan<T>>, chans': map<Handle, Chan<T>>, subs: map<nat, Handle>, g: Record<T>, ev: T)
    requires Inv(chans, subs, g) && chans'.Keys == chans.Keys
    requires forall h | h in chans :: Emitted(chans[h], chans'[h], ev)
    ensures Inv(chans', subs, g.(log := g.log + [ev]))
  {
    var g' := g.(log := g.log + [ev]);
    forall h | h in chans'
      ensures ChanOk(chans'[h], h, subs, g')
    {
      var c, c' := chans[h], chans'[h];
      assert ChanOk(c, h, subs, g) && Emitted(c, c', ev);
      if c.closed {
        assert g'.log[g.since[h]..g.until[h]] == g.log[g.since[h]..g.until[h]];
      } else {
        assert g'.log[g.since[h]..] == g.log[g.since[h]..] + [ev];
      }
    }
    forall id | id in subs
      ensures !chans'[subs[id]].closed
    {
      assert Emitted(chans[subs[id]], chans'[subs[id]], ev);
    }
  }

  lemma CloseKeepsInv<T>(chans: map<Handle, Chan<T>>, subs: map<nat, Handle>, g: Record<T>, id: nat)
    requires Inv(chans, subs, g) && id in subs
    ensures var h := subs[id];
            h in chans && !chans[h].closed &&
            Inv(chans[h := chans[h].(closed := true)], subs - {id}, g.(until := g.until[h := |g.log|]))
  {
    var h := subs[id];
    var chans', subs', g' := chans[h := chans[h].(closed := true)], subs - {id}, g.(until := g.until[h := |g.log|]);
    forall k | k in chans'
      ensures ChanOk(chans'[k], k, subs', g')
    {
      assert ChanOk(chans[k], k, subs, g);
      assert History(chans'[k]) == History(chans[k]);
    }
    forall i | i in subs'
      ensures subs'[i] in chans' && !chans'[subs'[i]].closed && g'.owner[subs'[i]] == i
    {
      assert g.owner[subs[i]] == i;
    }
  }

  function Opened<T>(g: Record<T>, h: Handle, id: nat): Record<T> {
    Record(g.log, g.since[h := |g.log|], g.until[h := |g.log|], g.owner[h := id])
  }

  /** Registering a fresh channel, or handing out a closed one that is not registered. */
  lemma SubscribeKeepsInv<T>(
      chans: map<Handle, Chan<T>>, subs: map<nat, Handle>, g: Record<T>, h: Handle, c: Chan<T>, id: nat)
    requires Inv(chans, subs, g) && h !in chans && id !in subs
    requires c == Chan([], c.cap, c.closed, [], {}) && (!c.closed ==> c.cap > 0)
    ensures Inv(chans[h := c], if c.closed then subs else subs[id := h], Opened(g, h, id))
  {
    var chans', g' := chans[h := c], Opened(g, h, id);
    var subs' := if c.closed then subs else subs[id := h];
    forall k | k in chans'
      ensures ChanOk(chans'[k], k, subs', g')
    {
      if k != h {
        assert ChanOk(chans[k], k, subs, g);
      }
    }
  }

  // ---------------------------------------------------------------------------
  // What a channel holds without a receiver
  // ---------------------------------------------------------------------------

  /** The states of an open channel over successive emits. */
  ghost predicate EmitRun<T>(cs: seq<Chan<T>>, evs: seq<T>) {
    && |cs| == |evs| + 1 && !cs[0].closed
    && forall i | 0 <= i < |evs| :: Emitted(cs[i], cs[i + 1], evs[i])
  }

  /** Nothing was received: whatever left the buffer was lost. */
  ghost predicate OnlyLost<T>(c: Chan<T>) {
    forall i :: i in c.lost <==> 0 <= i < |c.popped|
  }

  lemma {:induction false} HistoryOfRun<T>(cs: seq<Chan<T>>, evs: seq<T>)
    requires EmitRun(cs, evs)
    ensures var c := cs[|evs|]; !c.closed && c.cap == cs[0].cap && History(c) == History(cs[0]) + evs
    decreases |evs|
  {
    if evs == [] {
      assert History(cs[0]) + evs == History(cs[0]);
    } else {
      var n := |evs| - 1;
      HistoryOfRun(cs[..n + 1], evs[..n]);
      assert Emitted(cs[n], cs[n + 1], evs[n]);
      assert History(cs[0]) + evs[..n] + [evs[n]] == History(cs[0]) + evs by {
        assert evs[..n] + [evs[n]] == evs;
      }
    }
  }

  /** As long as no more events were emitted than the buffer holds, none is lost, whatever
      the receivers do. */
  lemma {:induction false} RoomLosesNothing<T>(cs: seq<Chan<T>>, evs: seq<T>)
    requires EmitRun(cs, evs) && History(cs[0]) == [] && cs[0].lost == {} && |evs| <= cs[0].cap
    ensures cs[|evs|].lost == {}
    decreases |evs|
  {
    if evs != [] {
      var n := |evs| - 1;
      RoomLosesNothing(cs[..n + 1], evs[..n]);
      HistoryOfRun(cs[..n + 1], evs[..n]);
      assert Emitted(cs[n], cs[n + 1], evs[n]);
    }
  }

  lemma OneMore<T>(c: Chan<T>, c': Chan<T>, ev: T)
    requires Emitted(c, c', ev) && !c.closed && OnlyLost(c) && OnlyLost(c') && 0 < c.cap && |c.buf| <= c.cap
    ensures |c'.popped| == |c.popped| + (if |c.buf| < c.cap then 0 else 1)
  {
    var n := |c.popped|;
    assert n !in c.lost && n + 1 !in c.lost;
    assert n in c'.lost <==> n < |c'.popped|;
    assert n + 1 in c'.lost <==> n + 1 < |c'.popped|;
    assert |History(c')| == |History(c)| + 1;
  }

  lemma {:induction false} CountLost<T>(cs: seq<Chan<T>>, evs: seq<T>)
    requires EmitRun(cs, evs) && History(cs[0]) == [] && cs[0].cap > 0
    requires forall i | 0 <= i <= |evs| :: OnlyLost(cs[i])
    ensures |cs[|evs|].popped| == if |evs| <= cs[0].cap then 0 else |evs| - cs[0].cap
    decreases |evs|
  {
    if evs != [] {
      var n := |evs| - 1;
      CountLost(cs[..n + 1], evs[..n]);
      HistoryOfRun(cs[..n + 1], evs[..n]);
      assert |History(cs[n])| == n;
      OneMore(cs[n], cs[n + 1], evs[n]);
    }
  }

  /** Without a receiver a fresh channel holds the last events emitted, as many as its
      buffer takes, in order, and has lost the earlier ones and no other. */
  lemma HoldsTheLast<T>(cs: seq<Chan<T>>, evs: seq<T>)
    requires EmitRun(cs, evs) && History(cs[0]) == [] && cs[0].cap > 0
    requires forall i | 0 <= i <= |evs| :: OnlyLost(cs[i])
    ensures var c, k := cs[|evs|], if |evs| <= cs[0].cap then 0 else |evs| - cs[0].cap;
            c.buf == evs[k..] && c.popped == evs[..k]
  {
    HistoryOfRun(cs, evs);
    CountLost(cs, evs);
    var c := cs[|evs|];
    assert History(c) == evs;
    assert c.popped == History(c)[..|c.popped|] && c.buf == History(c)[|c.popped|..];
  }

  /** A buffer of at least one, or a closed channel once the dispatcher is closed. */
  function NewChan<T>(buffer: int, closed: bool): Chan<T> {
    Chan([], if closed then 0 else if buffer < 1 then 1 else buffer, closed, [], {})
  }

  /** Handles and ids in use are below the next ones, and a closed dispatcher has no
      subscribers. */
  ghost predicate Counters(
      handles: set<Handle>, nextHandle: Handle, subs: map<nat, Handle>, nextID: nat, closed: bool)
  {
    && (forall h | h in handles :: h < nextHandle)
    && (forall id | id in subs :: id < nextID)
    && (closed ==> subs == map[])
  }

  class Dispatcher<T(!new)> {
    var chans: map<Handle, Chan<T>>
    var nextHandle: Handle
    var subs: map<nat, Handle>
    var nextID: nat
    var closed: bool
    var closeDone: bool
    ghost var g: Record<T>

    ghost predicate Valid()
      reads this
    {
      Inv(chans, subs, g) && Counters(chans.Keys, nextHandle, subs, nextID, closed) && (closed <==> closeDone)
    }

    constructor ()
      ensures Valid() && chans == map[] && g.log == [] && !closed
    {
      chans, nextHandle, subs, nextID, closed, closeDone := map[], 0, map[], 0, false, false;
      g := Record([], map[], map[], map[]);
    }

    /** Any receivers, on any channels, any number of times. */
    method Receivers()
      modifies this`chans
      ensures AllOnlyReceived(old(chans), chans)
    {
      var n: nat := *;
      while n > 0
        invariant AllOnlyReceived(old(chans), chans)
      {
        var h: Handle := *;
        if h in chans && |chans[h].buf| > 0 {
          chans := chans[h := Pop(chans[h], false)];
        }
        n := n - 1;
      }
    }

    method Subscribe(buffer: int) returns (h: Handle, id: Option<nat>)
      requires Valid()
      modifies this
      ensures Valid() && g.log == old(g.log) && closed == old(closed)
      ensures h !in old(chans) && g.since == old(g.since)[h := |g.log|]
      ensures h in chans && chans == old(chans)[h := chans[h]]
      ensures chans[h].closed == closed && chans[h].buf == [] && chans[h].popped == [] && chans[h].lost == {}
      ensures !closed ==> chans[h].cap == if buffer >= 1 then buffer else 1
      ensures if closed then id.None? && subs == old(subs)
              else id.Some? && id.value !in old(subs) && subs == old(subs)[id.value := h]
    {
      h := nextHandle;
      SubscribeKeepsInv(chans, subs, g, h, NewChan<T>(buffer, closed), nextID);
      AddChan(NewChan(buffer, closed));
      if closed {
        return h, None;
      }
      id := Some(nextID);
      subs := subs[nextID := h];
      nextID := nextID + 1;
    }

    /** `make(chan T, n)`. */
    method AddChan(c: Chan<T>)
      modifies this`chans, this`nextHandle, this`g
      ensures chans == old(chans)[old(nextHandle) := c] && nextHandle == old(nextHandle) + 1
      ensures g == Opened(old(g), old(nextHandle), nextID)
    {
      chans := chans[nextHandle := c];
      g := Opened(g, nextHandle, nextID);
      nextHandle := nextHandle + 1;
    }

    method Unsubscribe(id: nat)
      requires Valid()
      modifies this
      ensures Valid() && g.log == old(g.log) && g.since == old(g.since)
      ensures closed == old(closed) && subs == old(subs) - {id}
      ensures id !in old(subs) ==> chans == old(chans)
      ensures id in old(subs) ==>
                var h := old(subs)[id];
                h in old(chans) && !old(chans)[h].closed && chans == old(chans)[h := old(chans)[h].(closed := true)]
    {
      if id in subs {
        CloseKeepsInv(chans, subs, g, id);
        var h := subs[id];
        subs := subs - {id};
        CloseChan(h);
      }
    }

    /** `close(ch)`, which panics on a closed channel. */
    method CloseChan(h: Handle)
      requires h in chans && !chans[h].closed
      modifies this`chans, this`g
      ensures chans == old(chans)[h := old(chans)[h].(closed := true)]
      ensures g == old(g).(until := old(g).until[h := |old(g).log|])
    {
      chans := chans[h := chans[h].(closed := true)];
      g := g.(until := g.until[h := |g.log|]);
    }

    /** The three selects of `Emit` for one subscriber. */
    method Offer(h: Handle, ev: T)
      requires h in chans && !chans[h].closed && 0 < chans[h].cap && |chans[h].buf| <= chans[h].cap
      modifies this`chans
      ensures chans.Keys == old(chans).Keys
      ensures forall k | k in chans && k != h :: OnlyReceived(old(chans)[k], chans[k])
      ensures Emitted(old(chans)[h], chans[h], ev)
    {
      Receivers();
      if |chans[h].buf| < chans[h].cap {
        SendAfterReceive(old(chans)[h], chans[h], ev);
        chans := chans[h := Send(chans[h], ev)];
        return;
      }
      ghost var full := chans;
      DropOldest(h);
      SendAfterDrop(old(chans)[h], full[h], chans[h], ev);
      OthersOnlyReceived(old(chans), full, chans, h);
      if |chans[h].buf| < chans[h].cap {
        chans := chans[h := Send(chans[h], ev)];
      }
    }

    /** The second select, with receivers running before and after it. */
    method DropOldest(h: Handle)
      requires h in chans
      modifies this`chans
      ensures chans.Keys == old(chans).Keys
      ensures forall k | k in chans && k != h :: OnlyReceived(old(chans)[k], chans[k])
      ensures DroppedOldest(old(chans)[h], chans[h])
    {
      Receivers();
      ghost var before := chans;
      if |chans[h].buf| > 0 {
        chans := chans[h := Pop(chans[h], true)];
      }
      ghost var dropped := chans;
      Receivers();
      DropIsDrop(old(chans)[h], before[h], dropped[h], chans[h]);
      OthersTwice(old(chans), before, dropped, chans, h);
    }

    method Emit(ev: T)
      requires Valid()
      modifies this`chans, this`g
      ensures Valid() && chans.Keys == old(chans).Keys
      ensures closed ==> chans == old(chans) && g == old(g)
      ensures !closed ==> g == old(g).(log := old(g).log + [ev])
      ensures !closed ==> forall h | h in chans :: Emitted(old(chans)[h], chans[h], ev)
    {
      if closed {
        return;
      }
      OfferAll(ev);
      EmitKeepsInv(old(chans), chans, subs, g, ev);
      g := g.(log := g.log + [ev]);
    }

    /** The loop of `Emit` over the subscribers, in any order. */
    method OfferAll(ev: T)
      requires Inv(chans, subs, g)
      modifies this`chans
      ensures chans.Keys == old(chans).Keys
      ensures forall h | h in chans :: Emitted(old(chans)[h], chans[h], ev)
    {
      var todo := subs.Keys;
      while todo != {}
        invariant todo <= subs.Keys && chans.Keys == old(chans).Keys
        invariant AllOffered(old(chans), chans, g, ev, todo)
        decreases todo
      {
        var id :| id in todo;
        var h := subs[id];
        ghost var mid := chans;
        assert ChanOk(old(chans)[h], h, subs, g) && Offered(old(chans)[h], chans[h], ev, false);
        Offer(h, ev);
        OfferProgress(old(chans), mid, chans, subs, g, ev, todo, id);
        todo := todo - {id};
      }
      forall h | h in chans
        ensures Emitted(old(chans)[h], chans[h], ev)
      {
        assert Offered(old(chans)[h], chans[h], ev, true) && ChanOk(old(chans)[h], h, subs, g);
      }
    }

    /** Closing is done once; later calls change nothing. */
    method Close()
      requires Valid()
      modifies this
      ensures Valid() && closed && chans.Keys == old(chans).Keys
      ensures g.log == old(g.log) && g.since == old(g.since)
      ensures forall h | h in chans :: chans[h] == old(chans)[h].(closed := true)
      ensures old(closed) ==> chans == old(chans)
    {
      if !closeDone {
        CloseSubs();
        closeDone, closed := true, true;
      }
      forall h | h in chans
        ensures chans[h].closed
      {
        assert ChanOk(chans[h], h, subs, g);
      }
    }

    /** The loop of `Close` over the subscribers, in any order. */
    method CloseSubs()
      requires Inv(chans, subs, g)
      modifies this`chans, this`subs, this`g
      ensures Inv(chans, subs, g) && subs == map[] && g.log == old(g.log) && g.since == old(g.since)
      ensures SameOrClosed(old(chans), chans)
    {
      while subs.Keys != {}
        invariant Inv(chans, subs, g) && g.log == old(g.log) && g.since == old(g.since)
        invariant SameOrClosed(old(chans), chans)
        decreases subs.Keys
      {
        var id :| id in subs.Keys;
        ghost var mid := chans;
        RemoveSub(id);
        ClosedStep(old(chans), mid, chans);
      }
    }

    method RemoveSub(id: nat)
      requires Inv(chans, subs, g) && id in subs
      modifies this`chans, this`subs, this`g
      ensures Inv(chans, subs, g) && subs == old(subs) - {id}
      ensures g.log == old(g.log) && g.since == old(g.since)
      ensures subs.Keys < old(subs).Keys && SameOrClosed(old(chans), chans)
    {
      CloseKeepsInv(chans, subs, g, id);
      var h := subs[id];
      subs := subs - {id};
      CloseChan(h);
    }

    /** For each channel at any time: the events popped, whether received or lost, are
        the first ones emitted since it was subscribed, in order, and the buffer, within
        its capacity, holds the rest. */
    lemma Accounting(h: Handle)
      requires Valid() && h in chans
      ensures h in g.since && h in g.until
      ensures var c, a := chans[h], g.since[h];
              && a + |c.popped| + |c.buf| == End(c, h, g) <= |g.log|
              && c.popped == g.log[a..a + |c.popped|]
              && c.buf == g.log[a + |c.popped|..End(c, h, g)]
              && |c.buf| <= c.cap
    {
      var c, a := chans[h], g.since[h];
      assert ChanOk(c, h, subs, g);
      assert c.popped == History(c)[..|c.popped|];
      assert c.buf == History(c)[|c.popped|..];
    }
  }
}
