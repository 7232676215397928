/**
 Which replies a request collects when the device answers commands in order.

 The queue hands every reply to whoever waits, so a request gets its own replies
 exactly when no reply to an earlier command was still to be matched at the moment its
 waiter was set. A request abandoned by its context leaves such replies behind.
 */
module Correlation {
  import opened Common
  import opened RequestQueue

  /** The replies the device sent to one command, picked out of everything it sent. */
  function RepliesTo(reps: seq<Packet>, id: Id): seq<Packet> {
    if reps == [] then []
    else
      var n := |reps| - 1;
      RepliesTo(reps[..n], id) + (if reps[n].owner == id then [reps[n]] else [])
  }

  /** When the waiter was set, every command written before had been answered in full and
      all of those answers had been matched. */
  predicate NothingOwed(s: State, id: Id)
    requires id in s.reqs && s.reqs[id].start <= |s.offered|
  {
    Answered(s.offered[..s.reqs[id].start]) == s.reqs[id].ordinal
  }

  // ---------------------------------------------------------------------------
  // Counting complete answers
  // ---------------------------------------------------------------------------

  lemma {:induction false} AnsweredGrows(reps: seq<Packet>, i: nat, j: nat)
    requires i <= j <= |reps|
    ensures Answered(reps[..i]) <= Answered(reps[..j])
    decreases j - i
  {
    if i < j {
      AnsweredGrows(reps, i, j - 1);
      assert reps[..j][..j - 1] == reps[..j - 1];
    }
  }

  lemma AnsweredNext(reps: seq<Packet>, i: nat)
    requires i < |reps|
    ensures Answered(reps[..i + 1]) == Answered(reps[..i]) + (if reps[i].last then 1 else 0)
  {
    assert reps[..i + 1][..i] == reps[..i];
  }

  /** Each reply belongs to the first command not yet answered in full. */
  predicate InOrder(reps: seq<Packet>, written: seq<Id>) {
    forall i | 0 <= i < |reps| ::
      Answered(reps[..i]) < |written| && reps[i].owner == written[Answered(reps[..i])]
  }

  lemma InOrderReply(reps: seq<Packet>, written: seq<Id>, p: Packet)
    requires InOrder(reps, written) && Answered(reps) < |written| && p.owner == written[Answered(reps)]
    ensures InOrder(reps + [p], written)
  {
    forall i | 0 <= i < |reps + [p]|
      ensures Answered((reps + [p])[..i]) < |written| && (reps + [p])[i].owner == written[Answered((reps + [p])[..i])]
    {
      assert (reps + [p])[..i] == reps[..i];
      if i == |reps| {
        assert reps[..i] == reps;
      }
    }
  }

  lemma InOrderWrite(reps: seq<Packet>, written: seq<Id>, id: Id)
    requires InOrder(reps, written)
    ensures InOrder(reps, written + [id])
  {
  }

  lemma {:induction false} AnsweredBound(reps: seq<Packet>, written: seq<Id>)
    requires InOrder(reps, written)
    ensures Answered(reps) <= |written|
  {
    if reps != [] {
      assert Answered(reps[..|reps| - 1]) < |written|;
    }
  }

  // ---------------------------------------------------------------------------
  // What orderly runs keep
  // ---------------------------------------------------------------------------

  predicate WrittenInv(s: State) {
    && (forall k | 0 <= k < |s.written| ::
          s.written[k] in s.reqs && !s.reqs[s.written[k]].pc.Locked? && !s.reqs[s.written[k]].pc.Registered?
          && s.reqs[s.written[k]].ordinal == k)
    && (forall id | id in s.reqs :: OrdinalInv(s.reqs[id], id, s.written))
  }

  predicate OrdinalInv(r: Request, id: Id, written: seq<Id>) {
    && (r.pc.Registered? ==> r.ordinal == |written|)
    && (r.pc.Waiting? || r.outcome.Succeeded? ==> r.ordinal < |written| && written[r.ordinal] == id)
  }

  predicate RepliesInv(s: State) {
    && InOrder(Replies(s), s.written)
    && (forall p | p in Replies(s) :: p.owner in s.reqs && (s.reqs[p.owner].kind.Single? ==> p.last))
  }

  predicate StartInv(s: State, id: Id)
    requires id in s.reqs
  {
    Open(s.reqs[id]) ==>
      && s.reqs[id].start <= |s.offered|
      && forall i | 0 <= i < s.reqs[id].start :: Answered(s.offered[..i]) < s.reqs[id].ordinal
  }

  predicate CollectedInv(r: Request, id: Id) {
    && (r.pc.Locked? || r.pc.Registered? || r.pc.Waiting? <==> r.outcome.Pending?)
    && (r.pc.Locked? || r.pc.Registered? ==> r.collected == [])
    && (r.outcome.Succeeded? ==> r.collected != [])
    && (forall j | 0 <= j < |r.collected| && r.collected[j].owner == id ::
          r.collected[j].last == (r.outcome.Succeeded? && j == |r.collected| - 1))
  }

  predicate OrderlyInv(s: State) {
    && Inv(s)
    && WrittenInv(s)
    && RepliesInv(s)
    && (forall id | id in s.reqs :: StartInv(s, id) && CollectedInv(s.reqs[id], id))
  }

  lemma WriteKeepsWritten(s: State, a: Action)
    requires LocksInv(s) && WrittenInv(s) && Enabled(s, a) && (a.Send? || a.SendFail?)
    ensures WrittenInv(Apply(s, a))
  {
  }

  lemma OtherKeepsWritten(s: State, a: Action)
    requires WrittenInv(s) && Enabled(s, a) && !a.Send? && !a.SendFail?
    ensures WrittenInv(Apply(s, a))
  {
    var s' := Apply(s, a);
    assert s'.written == s.written;
    forall k | 0 <= k < |s.written|
      ensures s.written[k] in s'.reqs && !s'.reqs[s.written[k]].pc.Locked? && !s'.reqs[s.written[k]].pc.Registered?
      ensures s'.reqs[s.written[k]].ordinal == k
    {
    }
  }

  lemma StepKeepsOwners(s: State, a: Action)
    requires RepliesInv(s) && Enabled(s, a) && Orderly(s, a)
    ensures forall p | p in Replies(Apply(s, a)) ::
              p.owner in Apply(s, a).reqs && (Apply(s, a).reqs[p.owner].kind.Single? ==> p.last)
  {
    StepReplies(s, a);
    KindsStay(s, a);
  }

  lemma KindsStay(s: State, a: Action)
    requires Enabled(s, a)
    ensures forall id | id in s.reqs :: id in Apply(s, a).reqs && Apply(s, a).reqs[id].kind == s.reqs[id].kind
  {
  }

  lemma StepKeepsReplies(s: State, a: Action)
    requires RepliesInv(s) && Enabled(s, a) && Orderly(s, a)
    ensures RepliesInv(Apply(s, a))
  {
    StepKeepsOwners(s, a);
    StepReplies(s, a);
    if a.DeviceSend? && !IsPush(a.p) {
      InOrderReply(Replies(s), s.written, a.p);
    }
    if a.Send? || (a.SendFail? && a.reached) {
      InOrderWrite(Replies(s), s.written, a.id);
    }
  }

  lemma OfferedInOrder(s: State, i: nat)
    requires RepliesInv(s) && i < |s.offered|
    ensures Answered(s.offered[..i]) < |s.written|
  {
    assert Replies(s)[..i] == s.offered[..i];
  }

  lemma StepKeepsStart(s: State, a: Action, id: Id)
    requires id in s.reqs && StartInv(s, id) && ReaderInv(s) && RepliesInv(s) && Enabled(s, a)
    ensures StartInv(Apply(s, a), id)
  {
    var s' := Apply(s, a);
    if Open(s'.reqs[id]) {
      forall i | 0 <= i < s'.reqs[id].start
        ensures i < |s'.offered| && Answered(s'.offered[..i]) < s'.reqs[id].ordinal
      {
        assert s'.offered[..i] == s.offered[..i];
        if a.Register? && a.id == id {
          OfferedInOrder(s, i);
        }
      }
    }
  }

  lemma StepKeepsCollected(s: State, a: Action, id: Id)
    requires id in s.reqs && CollectedInv(s.reqs[id], id) && BlockInv(s, id) && RepliesInv(s)
    requires Enabled(s, a) && Orderly(s, a)
    ensures CollectedInv(Apply(s, a).reqs[id], id)
  {
    if a.Collect? && a.id == id {
      var r := s.reqs[id];
      var p := r.buf[0];
      assert p == Got(r)[|r.collected|];
      assert p == s.offered[r.start + |r.collected|];
      assert p in Replies(s);
    }
  }

  lemma {:induction false} OrderlyRunKeepsInv(acts: seq<Action>)
    requires After(acts).Some? && OrderlyRun(acts)
    ensures OrderlyInv(After(acts).value)
  {
    if acts != [] {
      var n := |acts| - 1;
      var s, a := After(acts[..n]).value, acts[n];
      OrderlyRunKeepsInv(acts[..n]);
      StepKeepsOrderly(s, a);
    }
  }

  lemma StepKeepsOrderly(s: State, a: Action)
    requires OrderlyInv(s) && Enabled(s, a) && Orderly(s, a)
    ensures OrderlyInv(Apply(s, a))
  {
    StepKeepsInv(s, a);
    if a.Send? || a.SendFail? {
      WriteKeepsWritten(s, a);
    } else {
      OtherKeepsWritten(s, a);
    }
    StepKeepsReplies(s, a);
    forall id | id in Apply(s, a).reqs
      ensures StartInv(Apply(s, a), id) && CollectedInv(Apply(s, a).reqs[id], id)
    {
      if id in s.reqs {
        assert BlockInv(s, id);
        StepKeepsStart(s, a, id);
        StepKeepsCollected(s, a, id);
      }
    }
  }

  // ---------------------------------------------------------------------------
  // Correlation
  // ---------------------------------------------------------------------------

  /** The replies, the commands, and a block of the replies that one command's request
      collected: the first `ord` commands were written before it. */
  predicate Collected(reps: seq<Packet>, written: seq<Id>, id: Id, ord: nat, a: nat, b: nat) {
    && InOrder(reps, written)
    && ord < |written| && (forall k | 0 <= k < |written| :: written[k] == id <==> k == ord)
    && a < b <= |reps|
    && (forall i | 0 <= i < a :: Answered(reps[..i]) < ord)
    && (forall i | a <= i < b && reps[i].owner == id :: reps[i].last == (i == b - 1))
  }

  lemma OwnNext(reps: seq<Packet>, written: seq<Id>, id: Id, ord: nat, a: nat, b: nat, n: nat)
    requires Collected(reps, written, id, ord, a, b) && a <= n < b && Answered(reps[..n]) == ord
    ensures reps[n].owner == id && Answered(reps[..n + 1]) == ord + (if n == b - 1 then 1 else 0)
  {
    assert reps[n].owner == written[Answered(reps[..n])];
    AnsweredNext(reps, n);
  }

  /** If the block starts with nothing owed, it holds the command's own replies. */
  lemma {:induction false} OwnSoFar(reps: seq<Packet>, written: seq<Id>, id: Id, ord: nat, a: nat, b: nat, n: nat)
    requires Collected(reps, written, id, ord, a, b) && Answered(reps[..a]) == ord && a <= n <= b
    ensures Answered(reps[..n]) == ord + (if n == b then 1 else 0)
    ensures n > a ==> reps[n - 1].owner == id
  {
    if n > a {
      OwnSoFar(reps, written, id, ord, a, b, n - 1);
      OwnNext(reps, written, id, ord, a, b, n - 1);
    }
  }

  /** Picking out the owner's packets when they are exactly a block. */
  lemma {:induction false} RepliesAreBlock(reps: seq<Packet>, id: Id, a: nat, b: nat, n: nat)
    requires a <= b <= |reps| && n <= |reps|
    requires forall i | 0 <= i < |reps| :: reps[i].owner == id <==> a <= i < b
    ensures RepliesTo(reps[..n], id) == (if n <= a then [] else if n <= b then reps[a..n] else reps[a..b])
  {
    if n > 0 {
      RepliesAreBlock(reps, id, a, b, n - 1);
      assert reps[..n][..n - 1] == reps[..n - 1];
    }
  }

  lemma AllReplies(reps: seq<Packet>, id: Id, a: nat, b: nat)
    requires a <= b <= |reps|
    requires forall i | 0 <= i < |reps| :: reps[i].owner == id <==> a <= i < b
    ensures RepliesTo(reps, id) == reps[a..b]
  {
    RepliesAreBlock(reps, id, a, b, |reps|);
    assert reps[..|reps|] == reps;
  }

  lemma {:induction false} RepliesToOwned(reps: seq<Packet>, id: Id)
    ensures forall p | p in RepliesTo(reps, id) :: p.owner == id
  {
    if reps != [] {
      RepliesToOwned(reps[..|reps| - 1], id);
    }
  }

  lemma OwnIff(reps: seq<Packet>, written: seq<Id>, id: Id, ord: nat, a: nat, b: nat, i: nat)
    requires Collected(reps, written, id, ord, a, b) && Answered(reps[..a]) == ord && i < |reps|
    ensures reps[i].owner == id <==> a <= i < b
  {
    assert reps[i].owner == written[Answered(reps[..i])];
    if i >= b {
      OwnSoFar(reps, written, id, ord, a, b, b);
      AnsweredGrows(reps, b, i);
    } else if i >= a {
      OwnSoFar(reps, written, id, ord, a, b, i + 1);
    }
  }

  lemma OwnBlock(reps: seq<Packet>, written: seq<Id>, id: Id, ord: nat, a: nat, b: nat)
    requires Collected(reps, written, id, ord, a, b) && Answered(reps[..a]) == ord
    ensures RepliesTo(reps, id) == reps[a..b]
  {
    forall i | 0 <= i < |reps|
      ensures reps[i].owner == id <==> a <= i < b
    {
      OwnIff(reps, written, id, ord, a, b, i);
    }
    AllReplies(reps, id, a, b);
  }

  /** If the block starts with something owed, its first reply is another command's. */
  lemma ForeignFirst(reps: seq<Packet>, written: seq<Id>, id: Id, ord: nat, a: nat, b: nat)
    requires Collected(reps, written, id, ord, a, b) && Answered(reps[..a]) != ord
    ensures reps[a].owner != id
  {
    assert reps[a].owner == written[Answered(reps[..a])];
  }

  predicate HasBlock(s: State, id: Id)
    requires id in s.reqs
  {
    var r, reps := s.reqs[id], Replies(s);
    && r.start + |r.collected| <= s.snapped <= |s.offered| <= |reps|
    && Collected(reps, s.written, id, r.ordinal, r.start, r.start + |r.collected|)
    && r.collected == reps[r.start..r.start + |r.collected|]
    && reps[..r.start] == s.offered[..r.start]
  }

  /** A request that succeeded collected such a block. */
  lemma SucceededCollected(s: State, id: Id)
    requires id in s.reqs && s.reqs[id].outcome.Succeeded?
    requires BlockInv(s, id) && CollectedInv(s.reqs[id], id) && StartInv(s, id)
    requires WrittenInv(s) && InOrder(Replies(s), s.written)
    ensures HasBlock(s, id)
  {
    var r, reps := s.reqs[id], Replies(s);
    var a, b := r.start, r.start + |r.collected|;
    BlockIsSlice(s, id);
    BeforeStart(s, id);
    LastInBlock(r, id, reps, a, b);
  }

  lemma BeforeStart(s: State, id: Id)
    requires id in s.reqs && Open(s.reqs[id]) && StartInv(s, id)
    ensures s.reqs[id].start <= |Replies(s)|
    ensures forall i | 0 <= i < s.reqs[id].start :: Answered(Replies(s)[..i]) < s.reqs[id].ordinal
  {
    forall i | 0 <= i < s.reqs[id].start
      ensures Answered(Replies(s)[..i]) < s.reqs[id].ordinal
    {
      assert Replies(s)[..i] == s.offered[..i];
    }
  }

  lemma LastInBlock(r: Request, id: Id, reps: seq<Packet>, a: nat, b: nat)
    requires CollectedInv(r, id) && r.outcome.Succeeded? && a <= b <= |reps| && r.collected == reps[a..b]
    ensures forall i | a <= i < b && reps[i].owner == id :: reps[i].last == (i == b - 1)
  {
    assert forall i | a <= i < b :: reps[i] == r.collected[i - a];
  }

  lemma BlockIsSlice(s: State, id: Id)
    requires id in s.reqs && BlockInv(s, id) && Open(s.reqs[id])
    ensures var r, reps := s.reqs[id], Replies(s);
            && r.start + |r.collected| <= s.snapped <= |s.offered| <= |reps|
            && r.collected == reps[r.start..r.start + |r.collected|]
            && reps[..r.start] == s.offered[..r.start]
  {
    var r, reps := s.reqs[id], Replies(s);
    var b := r.start + |r.collected|;
    assert r.collected == Got(r)[..|r.collected|];
    assert reps[r.start..b] == s.offered[r.start..b];
  }

  /** The two cases together. */
  lemma OwnIffNothingOwed(reps: seq<Packet>, written: seq<Id>, id: Id, ord: nat, a: nat, b: nat)
    requires Collected(reps, written, id, ord, a, b)
    ensures reps[a..b] == RepliesTo(reps, id) <==> Answered(reps[..a]) == ord
  {
    if Answered(reps[..a]) == ord {
      OwnBlock(reps, written, id, ord, a, b);
    } else {
      ForeignFirst(reps, written, id, ord, a, b);
      RepliesToOwned(reps, id);
      assert reps[a..b][0] == reps[a];
    }
  }

  lemma SucceededInOrderlyState(s: State, id: Id)
    requires OrderlyInv(s) && id in s.reqs && s.reqs[id].outcome.Succeeded?
    ensures BlockInv(s, id) && CollectedInv(s.reqs[id], id) && StartInv(s, id)
    ensures WrittenInv(s) && InOrder(Replies(s), s.written)
  {
  }

  /** The correlation theorem. Against a device that answers in order, in every
      interleaving, a request that succeeds has collected exactly the replies to its own
      command if and only if nothing was owed when its waiter was set. */
  lemma Correlates(acts: seq<Action>, id: Id)
    requires After(acts).Some? && OrderlyRun(acts)
    requires id in After(acts).value.reqs && After(acts).value.reqs[id].outcome.Succeeded?
    ensures var s := After(acts).value;
            && s.reqs[id].start <= |s.offered|
            && (s.reqs[id].collected == RepliesTo(Replies(s), id) <==> NothingOwed(s, id))
  {
    OrderlyRunKeepsInv(acts);
    var s := After(acts).value;
    SucceededInOrderlyState(s, id);
    SucceededCollected(s, id);
    CorrelatesHere(s, id);
  }

  lemma CorrelatesHere(s: State, id: Id)
    requires id in s.reqs && HasBlock(s, id)
    ensures s.reqs[id].start <= |s.offered|
    ensures s.reqs[id].collected == RepliesTo(Replies(s), id) <==> NothingOwed(s, id)
  {
    var r := s.reqs[id];
    OwnIffNothingOwed(Replies(s), s.written, id, r.ordinal, r.start, r.start + |r.collected|);
  }

  /** No request has ended by its context, by a failed send or by overflow. */
  predicate Calm(s: State) {
    forall id | id in s.reqs :: !s.reqs[id].outcome.Failed?
  }

  lemma CalmBackwards(s: State, a: Action)
    requires Inv(s) && Enabled(s, a) && Calm(Apply(s, a))
    requires forall id | id in s.reqs :: CollectedInv(s.reqs[id], id)
    ensures Calm(s)
  {
    forall id | id in s.reqs
      ensures !s.reqs[id].outcome.Failed?
    {
      assert id in Apply(s, a).reqs;
    }
  }

  /** The answer to the last command written is complete and matched once its request,
      started with nothing owed, has succeeded. */
  lemma LastIsAnswered(s: State, id: Id)
    requires id in s.reqs && HasBlock(s, id) && NothingOwed(s, id) && s.reqs[id].ordinal + 1 == |s.written|
    ensures Answered(s.offered[..s.snapped]) >= |s.written|
  {
    var r, reps := s.reqs[id], Replies(s);
    var b := r.start + |r.collected|;
    OwnSoFar(reps, s.written, id, r.ordinal, r.start, b, b);
    AnsweredGrows(reps, b, s.snapped);
    assert reps[..s.snapped] == s.offered[..s.snapped];
  }

  /** When nothing has failed and no request is active, every command has been answered
      in full and every answer matched. */
  lemma CalmOwesNothing(s: State)
    requires OrderlyInv(s) && Calm(s)
    requires forall id | id in s.reqs && Open(s.reqs[id]) :: s.reqs[id].start <= |s.offered| && NothingOwed(s, id)
    requires forall id | id in s.reqs && Open(s.reqs[id]) :: s.reqs[id].pc.Done?
    requires s.snapped <= |s.offered|
    ensures Answered(s.offered[..s.snapped]) == |s.written|
  {
    var reps := Replies(s);
    assert reps[..s.snapped] == s.offered[..s.snapped];
    AnsweredGrows(reps, s.snapped, |reps|);
    assert reps[..|reps|] == reps;
    AnsweredBound(reps, s.written);
    if s.written != [] {
      var id := s.written[|s.written| - 1];
      assert CollectedInv(s.reqs[id], id);
      SucceededInOrderlyState(s, id);
      SucceededCollected(s, id);
      LastIsAnswered(s, id);
    }
  }

  lemma {:induction false} CalmRunOwesNothing(acts: seq<Action>, id: Id)
    requires After(acts).Some? && OrderlyRun(acts) && Calm(After(acts).value)
    requires id in After(acts).value.reqs && Open(After(acts).value.reqs[id])
    ensures After(acts).value.reqs[id].start <= |After(acts).value.offered|
    ensures NothingOwed(After(acts).value, id)
    decreases |acts|
  {
    if acts != [] {
      var n := |acts| - 1;
      var s, a := After(acts[..n]).value, acts[n];
      OrderlyRunKeepsInv(acts[..n]);
      CalmBackwards(s, a);
      if a.Register? && a.id == id {
        forall i | i in s.reqs && Open(s.reqs[i])
          ensures s.reqs[i].start <= |s.offered| && NothingOwed(s, i)
        {
          CalmRunOwesNothing(acts[..n], i);
        }
        RegisterOwesNothing(s, a);
      } else {
        CalmRunOwesNothing(acts[..n], id);
        StartStable(s, a, id);
      }
    }
  }

  lemma RegisterOwesNothing(s: State, a: Action)
    requires OrderlyInv(s) && Calm(s) && Enabled(s, a) && a.Register?
    requires forall i | i in s.reqs && Open(s.reqs[i]) :: s.reqs[i].start <= |s.offered| && NothingOwed(s, i)
    ensures Apply(s, a).reqs[a.id].start <= |Apply(s, a).offered| && NothingOwed(Apply(s, a), a.id)
  {
    CalmOwesNothing(s);
  }

  lemma StartStable(s: State, a: Action, id: Id)
    requires Enabled(s, a) && id in s.reqs && Open(s.reqs[id]) && s.reqs[id].start <= |s.offered|
    ensures var s' := Apply(s, a);
            && s'.reqs[id].start == s.reqs[id].start && s'.reqs[id].ordinal == s.reqs[id].ordinal
            && s.reqs[id].start <= |s'.offered|
            && s'.offered[..s.reqs[id].start] == s.offered[..s.reqs[id].start]
  {
  }

  /** In every interleaving in which no request ends by its context, by a failed send or
      by overflow, each request that succeeds collects exactly the replies to its own
      command. */
  lemma CalmRunsCorrelate(acts: seq<Action>, id: Id)
    requires After(acts).Some? && OrderlyRun(acts) && Calm(After(acts).value)
    requires id in After(acts).value.reqs && After(acts).value.reqs[id].outcome.Succeeded?
    ensures After(acts).value.reqs[id].collected == RepliesTo(Replies(After(acts).value), id)
  {
    OrderlyRunKeepsInv(acts);
    assert CollectedInv(After(acts).value.reqs[id], id);
    CalmRunOwesNothing(acts, id);
    Correlates(acts, id);
  }

  lemma Take(acts: seq<Action>, s: State, a: Action) returns (acts': seq<Action>, s': State)
    requires After(acts) == Some(s) && OrderlyRun(acts) && Enabled(s, a) && Orderly(s, a)
    ensures s' == Apply(s, a) && After(acts') == Some(s') && OrderlyRun(acts')
  {
    acts', s' := acts + [a], Apply(s, a);
    assert acts'[..|acts|] == acts;
  }

  const Late := Packet([0], 0, true)
  const Blank := Request(Single, Locked, Pending, [], false, [], 0, 0, 0)
  const Gone := Blank.(pc := Done, outcome := Failed)

  /** A request takes the lock, sets its waiter and writes its command. */
  lemma Begins(acts: seq<Action>, s: State, id: Id) returns (acts': seq<Action>, s': State)
    requires After(acts) == Some(s) && OrderlyRun(acts) && s.sendMu.None? && id !in s.reqs
    ensures After(acts') == Some(s') && OrderlyRun(acts')
    ensures s' == s.(written := s.written + [id], sendMu := Some(id), waiter := Some(id),
                     reqs := s.reqs[id := Blank.(pc := Waiting, start := s.snapped, ordinal := |s.written|)])
  {
    acts', s' := Take(acts, s, Acquire(id, Single));
    acts', s' := Take(acts', s', Register(id));
    acts', s' := Take(acts', s', Send(id));
  }

  /** A request that its context abandons after its command was written. */
  lemma Abandoned() returns (acts: seq<Action>, s: State)
    ensures After(acts) == Some(s) && OrderlyRun(acts)
    ensures s == Init.(written := [0], reqs := map[0 := Gone])
  {
    acts, s := Begins([], Init, 0);
    acts, s := Take(acts, s, CtxDone(0));
    acts, s := Take(acts, s, Unregister(0));
    acts, s := Take(acts, s, Release(0));
    assert s.reqs == map[0 := Gone];
  }

  /** The device sends a reply and the reader takes it up. */
  lemma Read(acts: seq<Action>, s: State, p: Packet) returns (acts': seq<Action>, s': State)
    requires After(acts) == Some(s) && OrderlyRun(acts) && Orderly(s, DeviceSend(p)) && !IsPush(p)
    requires s.reader.Idle? && s.inbound == []
    ensures After(acts') == Some(s') && OrderlyRun(acts')
    ensures s' == s.(offered := s.offered + [p], reader := Held(p))
  {
    acts', s' := Take(acts, s, DeviceSend(p));
    assert s'.inbound == [p];
    acts', s' := Take(acts', s', ReadPacket);
  }

  /** The device sends a reply and the reader hands it to the waiter. */
  lemma Arrives(acts: seq<Action>, s: State, p: Packet, id: Id) returns (acts': seq<Action>, s': State)
    requires After(acts) == Some(s) && OrderlyRun(acts) && Orderly(s, DeviceSend(p)) && !IsPush(p)
    requires s.reader.Idle? && s.inbound == [] && s.waiter == Some(id) && id in s.reqs && s.reqs[id].buf == []
    ensures After(acts') == Some(s') && OrderlyRun(acts')
    ensures s' == s.(offered := s.offered + [p], snapped := s.snapped + 1,
                     reqs := s.reqs[id := s.reqs[id].(buf := [p])])
  {
    acts', s' := Read(acts, s, p);
    acts', s' := Take(acts', s', Snapshot);
    acts', s' := Take(acts', s', Push);
    assert s'.reqs[id].buf == [p];
  }

  /** Correlation fails in general: after a request is abandoned, its late reply is
      collected, as a success, by the next request. */
  lemma LateReplyGoesToNextRequest() returns (acts: seq<Action>, s: State)
    ensures After(acts) == Some(s) && OrderlyRun(acts)
    ensures 1 in s.reqs && s.reqs[1].outcome.Succeeded?
    ensures s.reqs[1].collected == [Late] == RepliesTo(Replies(s), 0) && RepliesTo(Replies(s), 1) == []
  {
    acts, s := SecondWaits();
    LateIsOrderly(s);
    acts, s := Arrives(acts, s, Late, 1);
    assert s.reqs[1].buf == [Late] && s.offered == [Late] && s.inbound == [];
    acts, s := Take(acts, s, Collect(1, true));
    assert Replies(s) == [Late];
    LateIsForFirst();
  }

  /** The next request waits, its command written after the abandoned one. */
  lemma SecondWaits() returns (acts: seq<Action>, s: State)
    ensures After(acts) == Some(s) && OrderlyRun(acts)
    ensures s == Init.(written := [0, 1], sendMu := Some(1), waiter := Some(1),
                       reqs := map[0 := Gone, 1 := Blank.(pc := Waiting, ordinal := 1)])
  {
    acts, s := Abandoned();
    acts, s := Begins(acts, s, 1);
  }

  lemma LateIsOrderly(s: State)
    requires s.offered == [] && s.inbound == [] && s.written == [0, 1] && 0 in s.reqs
    ensures Orderly(s, DeviceSend(Late)) && !IsPush(Late)
  {
    assert Replies(s) == [];
  }

  lemma LateIsForFirst()
    ensures RepliesTo([Late], 0) == [Late] && RepliesTo([Late], 1) == []
  {
    assert [Late][..0] == [];
  }
}
