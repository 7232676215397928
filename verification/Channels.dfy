/**
 Channel slots: the 50-byte SetChannel command (protocol/companion/commands.go) against
 the channel-info decoder, and slot allocation in `AddChannel` (channels.go). Names are
 bytes; `fold` maps a name to its case-folded form, so that two names are equal up to
 case exactly when their folded forms are equal.
 */
module Channels {
  import opened Common
  import opened Companion

  const MAX_CHANNELS := 8
  const SECRET_LEN := 16
  const NAME_LEN := 32

  type Fold = bytes -> bytes

  function Zeros(n: nat): (r: bytes)
    ensures |r| == n && forall i | 0 <= i < n :: r[i] == 0
  {
    if n == 0 then [] else Zeros(n - 1) + [0]
  }

  /** `copy` into `n` zero bytes: cut to `n` bytes, or padded with zeros. */
  function Padded(b: bytes, n: nat): (r: bytes)
    ensures |r| == n
  {
    if |b| >= n then b[..n] else b + Zeros(n - |b|)
  }

  function EncodeSetChannel(index: byte, name: bytes, secret: bytes): (r: bytes)
    ensures |r| == 50
  {
    [32, index] + Padded(name, NAME_LEN) + Padded(secret, SECRET_LEN)
  }

  /** The command byte by byte: code 32, the slot, the name and the key, each cut or padded
      with zeros to its field. */
  lemma CommandExact(index: byte, name: bytes, secret: bytes)
    ensures var cmd := EncodeSetChannel(index, name, secret);
            && cmd[0] == 32 && cmd[1] == index
            && (forall i | 0 <= i < 32 :: cmd[2 + i] == if i < |name| then name[i] else 0)
            && (forall i | 0 <= i < 16 :: cmd[34 + i] == if i < |secret| then secret[i] else 0)
  {
    var n, s := Padded(name, NAME_LEN), Padded(secret, SECRET_LEN);
    var cmd := EncodeSetChannel(index, name, secret);
    assert forall i | 0 <= i < 32 :: cmd[2 + i] == n[i];
    assert forall i | 0 <= i < 16 :: cmd[34 + i] == s[i];
  }

  /** The name a slot written with `name` reads back as. */
  function StoredName(name: bytes): bytes {
    TrimString(Padded(name, NAME_LEN))
  }

  predicate Storable(name: bytes) {
    |name| <= NAME_LEN && 0 !in name
  }

  lemma {:induction false} TrimZeros(b: bytes, z: bytes)
    requires 0 !in b && (z == [] || z[0] == 0)
    ensures TrimString(b + z) == b
  {
    if b != [] {
      assert (b + z)[1..] == b[1..] + z;
      TrimZeros(b[1..], z);
    }
  }

  /** A name survives the codec exactly when it fits and has no NUL. */
  lemma StoredNameIff(name: bytes)
    ensures StoredName(name) == name <==> Storable(name)
  {
    if Storable(name) {
      if |name| == NAME_LEN {
        assert name[..NAME_LEN] == name && name + [] == name;
        TrimZeros(name, []);
      } else {
        TrimZeros(name, Zeros(NAME_LEN - |name|));
      }
    }
  }

  /** Writing a slot and reading it back gives the same index and, exactly when they fit,
      the same name and key. */
  lemma ChannelRoundTrip(index: byte, name: bytes, secret: bytes)
    ensures var m := DecodeChannelInfo(EncodeSetChannel(index, name, secret)[1..]);
            && m.index == index
            && (m.name == name <==> Storable(name))
            && (m.secret == secret <==> |secret| == SECRET_LEN)
  {
    var n, s := Padded(name, NAME_LEN), Padded(secret, SECRET_LEN);
    var body := EncodeSetChannel(index, name, secret)[1..];
    assert body == [index] + n + s;
    assert body[1..33] == n && body[33..49] == s;
    StoredNameIff(name);
  }

  // ---------------------------------------------------------------------------
  // Slots, and what a request about one collects
  // ---------------------------------------------------------------------------

  predicate ValidSlots(slots: seq<bytes>) {
    forall i | 0 <= i < |slots| :: |slots[i]| == NAME_LEN + SECRET_LEN
  }

  function Slot(name: bytes, secret: bytes): (slot: bytes)
    ensures |slot| == NAME_LEN + SECRET_LEN
  {
    Padded(name, NAME_LEN) + Padded(secret, SECRET_LEN)
  }

  function NameAt(slots: seq<bytes>, i: nat): bytes
    requires ValidSlots(slots) && i < |slots|
  {
    TrimString(slots[i][..NAME_LEN])
  }

  lemma SlotDecodes(index: byte, slot: bytes)
    requires |slot| == NAME_LEN + SECRET_LEN
    ensures Decode([18] + [index] + slot)
         == DecodeChannelInfo([index] + slot)
         == ChannelInfo(index, TrimString(slot[..NAME_LEN]), slot[NAME_LEN..])
  {
    var body := [index] + slot;
    assert ([18] + [index] + slot)[1..] == body;
    assert body[1..33] == slot[..NAME_LEN] && body[33..49] == slot[NAME_LEN..];
  }

  /** What a slot was written with is read from it exactly as far as it fits. */
  lemma SlotReadsBack(slots: seq<bytes>, i: nat, name: bytes, secret: bytes)
    requires ValidSlots(slots) && i < |slots| && slots[i] == Slot(name, secret)
    ensures NameAt(slots, i) == name <==> Storable(name)
    ensures slots[i][NAME_LEN..] == secret <==> |secret| == SECRET_LEN
  {
    StoredNameIff(name);
    assert slots[i][..NAME_LEN] == Padded(name, NAME_LEN) && slots[i][NAME_LEN..] == Padded(secret, SECRET_LEN);
  }

  /** What a request ends with: the device's reply to it, some other message, such as a late
      reply to an earlier request, or an error, the command having reached the device or not. */
  datatype Answer = Own | Late(m: Message) | Lost(reached: bool)

  /** The answers to the probes of one addition. */
  type Answers = a: seq<Answer> | |a| == MAX_CHANNELS witness [Own, Own, Own, Own, Own, Own, Own, Own]

  const AllOwn: Answers := [Own, Own, Own, Own, Own, Own, Own, Own]

  /** What `channelAt` makes of it. */
  datatype Reply = Channel(index: nat, name: bytes, secret: bytes) | OtherReply | RequestFailed

  const NOT_FOUND: byte := 2

  /** The device's reply to a query for a slot. */
  function OwnReply(slots: seq<bytes>, i: nat): Message
    requires ValidSlots(slots) && i < 0x100
  {
    if i < |slots| then ChannelInfo(i as byte, NameAt(slots, i), slots[i][NAME_LEN..]) else Err(NOT_FOUND)
  }

  function Understood(m: Message): Reply {
    match m
    case ChannelInfo(index, name, secret) => Channel(index as nat, name, secret)
    case Err(_) => RequestFailed
    case _ => OtherReply
  }

  function ReplyTo(slots: seq<bytes>, ans: Answer, i: nat): Reply
    requires ValidSlots(slots) && i < 0x100
  {
    match ans
    case Own => Understood(OwnReply(slots, i))
    case Late(m) => Understood(m)
    case Lost(_) => RequestFailed
  }

  /** What the eight probes of one addition see. */
  function Replies(slots: seq<bytes>, answers: Answers): (rs: seq<Reply>)
    requires ValidSlots(slots)
    ensures |rs| == MAX_CHANNELS
  {
    seq(MAX_CHANNELS, i requires 0 <= i < MAX_CHANNELS => ReplyTo(slots, answers[i], i))
  }

  /** The device stores a write that reaches it, whatever becomes of its reply. */
  predicate Stores(slots: seq<bytes>, write: Answer, i: nat) {
    i < |slots| && !(write.Lost? && !write.reached)
  }

  predicate Acknowledged(slots: seq<bytes>, write: Answer, i: nat) {
    (write.Own? && i < |slots|) || (write.Late? && write.m.OK?)
  }

  // ---------------------------------------------------------------------------
  // Slot allocation
  // ---------------------------------------------------------------------------

  datatype AddError = NameRequired | BadKey | ProbeFailed | WriteFailed | NoFreeSlot

  datatype AddResult = Added(index: nat, name: bytes, secret: bytes) | AddFailed(error: AddError)

  /** A device that keeps, for each of its slots, what the last SetChannel sent for it. */
  class Device {
    var slots: seq<bytes>

    constructor (n: nat)
      ensures slots == seq(n, _ => Zeros(NAME_LEN + SECRET_LEN))
    {
      slots := seq(n, _ => Zeros(NAME_LEN + SECRET_LEN));
    }

    ghost predicate Valid()
      reads this
    {
      ValidSlots(slots)
    }

    /** CMD_GET_CHANNEL. The index in the reply is not compared with the one asked for. */
    method ChannelAt(i: nat, ans: Answer) returns (r: Reply)
      requires Valid() && i < 0x100
      ensures r == ReplyTo(slots, ans, i)
      ensures ans.Own? && i < |slots| ==> r == Channel(i, NameAt(slots, i), slots[i][NAME_LEN..])
      ensures ans.Late? && ans.m.ChannelInfo? ==> r.Channel? && r.name == ans.m.name
      ensures r.RequestFailed? <==>
                ans.Lost? || (ans.Own? && i >= |slots|) || (ans.Late? && ans.m.Err?)
    {
      var m: Message;
      if ans.Lost? {
        return RequestFailed;
      } else if ans.Late? {
        m := ans.m;
      } else if i < |slots| {
        SlotDecodes(i as byte, slots[i]);
        m := Decode([18] + [i as byte] + slots[i]);
      } else {
        m := Decode([1, NOT_FOUND]);
      }
      if m.Err? {
        return RequestFailed;
      }
      if !m.ChannelInfo? {
        return OtherReply;
      }
      return Channel(m.index as nat, m.name, m.secret);
    }

    /** CMD_SET_CHANNEL. */
    method SetChannelAt(i: nat, name: bytes, secret: bytes, write: Answer) returns (ok: bool)
      requires Valid() && i < 0x100
      modifies this
      ensures Valid() && ok == Acknowledged(old(slots), write, i)
      ensures ok <==> (write == Own && i < |old(slots)|) || write == Late(OK)
      ensures slots == if Stores(old(slots), write, i) then old(slots)[i := Slot(name, secret)] else old(slots)
      ensures slots == if i < |old(slots)| && write != Lost(false)
                       then old(slots)[i := Slot(name, secret)] else old(slots)
    {
      var cmd := EncodeSetChannel(i as byte, name, secret);
      var stored := false;
      if write.Lost? && !write.reached {
        return false;
      }
      if i < |slots| {
        assert cmd[2..] == Slot(name, secret);
        slots := slots[i := cmd[2..]];
        stored := true;
      }
      match write
      case Own => ok := stored;
      case Late(m) => ok := m.OK?;
      case Lost(_) => ok := false;
    }

    /** The probing loop of AddChannel. */
    method Probe(name: bytes, fold: Fold, answers: Answers) returns (existing: int, free: int, failed: bool)
      requires Valid()
      ensures Probed(Replies(slots, answers), name, fold, existing, free, failed)
    {
      existing, free, failed := -1, -1, false;
      ghost var rs := Replies(slots, answers);
      var i := 0;
      while i < MAX_CHANNELS
        invariant 0 <= i <= MAX_CHANNELS
        invariant forall k | 0 <= k < i :: !rs[k].RequestFailed? && !Sees(rs[k], name, fold)
        invariant free == -1 ==> forall k | 0 <= k < i :: !Free(rs[k])
        invariant free != -1 ==> 0 <= free < i && Free(rs[free]) && forall k | 0 <= k < free :: !Free(rs[k])
      {
        var r := ChannelAt(i, answers[i]);
        assert r == rs[i];
        if r.RequestFailed? {
          return existing, free, true;
        }
        if r.OtherReply? || r.name == [] {
          if free < 0 {
            free := i;
          }
        } else if fold(r.name) == fold(name) {
          return i, free, false;
        }
        i := i + 1;
      }
    }

    method AddChannel(name: bytes, secret: bytes, fold: Fold, answers: Answers, write: Answer)
      returns (r: AddResult)
      requires Valid()
      modifies this
      ensures Valid()
      ensures (r, slots) == Spec(old(slots), answers, write, name, secret, fold)
      ensures r == AddFailed(NameRequired) <==> name == []
      ensures r == AddFailed(BadKey) <==> name != [] && |secret| != 16
      ensures name != [] && |secret| == 16 ==>
                var c := Choose(Replies(old(slots), answers), name, fold);
                && (r == AddFailed(ProbeFailed) <==> c.ProbeError?) && (r == AddFailed(NoFreeSlot) <==> c.NoSlot?)
                && (c.Use? ==> r == if Acknowledged(old(slots), write, c.index)
                                    then Added(c.index, name, secret) else AddFailed(WriteFailed))
      ensures r in {AddFailed(NameRequired), AddFailed(BadKey), AddFailed(ProbeFailed), AddFailed(NoFreeSlot)} ==>
                slots == old(slots)
    {
      if name == [] {
        return AddFailed(NameRequired);
      }
      if |secret| != SECRET_LEN {
        return AddFailed(BadKey);
      }
      var existing, free, failed := Probe(name, fold, answers);
      ChoiceIsProbed(Replies(slots, answers), name, fold, existing, free, failed);
      if failed {
        return AddFailed(ProbeFailed);
      }
      var idx := existing;
      if idx < 0 {
        idx := free;
      }
      if idx < 0 {
        return AddFailed(NoFreeSlot);
      }
      var ok := SetChannelAt(idx, name, secret, write);
      if !ok {
        return AddFailed(WriteFailed);
      }
      return Added(idx, name, secret);
    }
  }

  /** The probe saw that name, up to case. */
  predicate Sees(r: Reply, name: bytes, fold: Fold) {
    r.Channel? && r.name != [] && fold(r.name) == fold(name)
  }

  /** The probe takes the slot for free. */
  predicate Free(r: Reply) {
    r.OtherReply? || (r.Channel? && r.name == [])
  }

  function FirstMatch(rs: seq<Reply>, name: bytes, fold: Fold): (k: nat)
    ensures k <= |rs| && (k < |rs| ==> Sees(rs[k], name, fold))
    ensures forall i | 0 <= i < k :: !Sees(rs[i], name, fold)
  {
    if rs == [] || Sees(rs[0], name, fold) then 0 else 1 + FirstMatch(rs[1..], name, fold)
  }

  function FirstFree(rs: seq<Reply>): (k: nat)
    ensures k <= |rs| && (k < |rs| ==> Free(rs[k]))
    ensures forall i | 0 <= i < k :: !Free(rs[i])
  {
    if rs == [] || Free(rs[0]) then 0 else 1 + FirstFree(rs[1..])
  }

  function FirstFailed(rs: seq<Reply>): (k: nat)
    ensures k <= |rs| && (k < |rs| ==> rs[k].RequestFailed?)
    ensures forall i | 0 <= i < k :: !rs[i].RequestFailed?
  {
    if rs == [] || rs[0].RequestFailed? then 0 else 1 + FirstFailed(rs[1..])
  }

  datatype Choice = Use(index: nat) | ProbeError | NoSlot

  /** The slot to write: the first seen with the name, else the first taken for free; a
      failed probe before a match ends the search. */
  function Choose(rs: seq<Reply>, name: bytes, fold: Fold): (c: Choice)
    ensures c.Use? ==> c.index < |rs|
  {
    var m, e, f := FirstMatch(rs, name, fold), FirstFailed(rs), FirstFree(rs);
    if e < |rs| && e < m then ProbeError
    else if m < |rs| then Use(m)
    else if f < |rs| then Use(f)
    else NoSlot
  }

  function Spec(slots: seq<bytes>, answers: Answers, write: Answer, name: bytes, secret: bytes, fold: Fold)
    : (AddResult, seq<bytes>)
    requires ValidSlots(slots)
  {
    if name == [] then (AddFailed(NameRequired), slots)
    else if |secret| != SECRET_LEN then (AddFailed(BadKey), slots)
    else match Choose(Replies(slots, answers), name, fold)
      case ProbeError => (AddFailed(ProbeFailed), slots)
      case NoSlot => (AddFailed(NoFreeSlot), slots)
      case Use(i) =>
        (if Acknowledged(slots, write, i) then Added(i, name, secret) else AddFailed(WriteFailed),
         if Stores(slots, write, i) then slots[i := Slot(name, secret)] else slots)
  }

  /** What the probing loop has found when it ends. */
  predicate Probed(rs: seq<Reply>, name: bytes, fold: Fold, existing: int, free: int, failed: bool) {
    if failed then
      exists e | 0 <= e < |rs| :: rs[e].RequestFailed? && forall k | 0 <= k < e :: !Sees(rs[k], name, fold)
    else if existing >= 0 then
      && existing < |rs| && Sees(rs[existing], name, fold)
      && forall k | 0 <= k < existing :: !Sees(rs[k], name, fold) && !rs[k].RequestFailed?
    else
      && (forall k | 0 <= k < |rs| :: !Sees(rs[k], name, fold) && !rs[k].RequestFailed?)
      && (if free < 0 then forall k | 0 <= k < |rs| :: !Free(rs[k])
          else free < |rs| && Free(rs[free]) && forall k | 0 <= k < free :: !Free(rs[k]))
  }

  lemma ChoiceIsProbed(rs: seq<Reply>, name: bytes, fold: Fold, existing: int, free: int, failed: bool)
    requires Probed(rs, name, fold, existing, free, failed)
    ensures Choose(rs, name, fold)
         == if failed then ProbeError else if existing >= 0 then Use(existing)
            else if free >= 0 then Use(free) else NoSlot
  {
  }

  /** The choice in full: the first slot seen with the name when every probe up to it was
      answered; else, when all were, the first taken for free, if any. */
  lemma ChooseExact(rs: seq<Reply>, name: bytes, fold: Fold)
    ensures var c := Choose(rs, name, fold);
            && (c.ProbeError? <==>
                  exists e | 0 <= e < |rs| :: rs[e].RequestFailed? && forall k | 0 <= k < e :: !Sees(rs[k], name, fold))
            && (c.NoSlot? <==>
                  forall k | 0 <= k < |rs| :: !rs[k].RequestFailed? && !Sees(rs[k], name, fold) && !Free(rs[k]))
            && (c.Use? ==>
                  && (Sees(rs[c.index], name, fold) || Free(rs[c.index]))
                  && (forall k | 0 <= k < c.index :: !Sees(rs[k], name, fold))
                  && (Free(rs[c.index]) ==>
                        && (forall k | 0 <= k < |rs| :: !Sees(rs[k], name, fold))
                        && (forall k | 0 <= k < c.index :: !Free(rs[k]))))
  {
    var m, e, f := FirstMatch(rs, name, fold), FirstFailed(rs), FirstFree(rs);
    if m < |rs| {
      assert !Free(rs[m]);
    }
  }

  /** Adding changes at most the slot chosen, whether it succeeds or fails, and that one
      exactly when the device has it and the write reached it; the slot then reads back with
      the name and key given, provided the name can be stored. */
  lemma AddWritesOneSlot(
      slots: seq<bytes>, answers: Answers, write: Answer, name: bytes, secret: bytes, fold: Fold)
    requires ValidSlots(slots) && Storable(name)
    ensures var (r, slots') := Spec(slots, answers, write, name, secret, fold);
            var c := Choose(Replies(slots, answers), name, fold);
            var sent := name != [] && |secret| == SECRET_LEN && c.Use?;
            && |slots'| == |slots| && ValidSlots(slots')
            && (forall i | 0 <= i < |slots| && !(sent && i == c.index) :: slots'[i] == slots[i])
            && (!(sent && Stores(slots, write, c.index)) ==> slots' == slots)
            && (sent && Stores(slots, write, c.index) ==>
                  OwnReply(slots', c.index) == ChannelInfo(c.index as byte, name, secret))
            && (r.Added? ==> sent && r == Added(c.index, name, secret))
  {
    var slots' := Spec(slots, answers, write, name, secret, fold).1;
    var c := Choose(Replies(slots, answers), name, fold);
    if c.Use? && c.index < |slots| && slots'[c.index] == Slot(name, secret) {
      SlotReadsBack(slots', c.index, name, secret);
    }
  }

  /** When the write is answered by its own reply, adding succeeds exactly when the slot is
      stored, and a failure changes nothing. With another answer neither need hold. */
  lemma OwnWriteIsExact(slots: seq<bytes>, answers: Answers, name: bytes, secret: bytes, fold: Fold)
    requires ValidSlots(slots)
    ensures var (r, slots') := Spec(slots, answers, Own, name, secret, fold);
            if r.Added? then r.index < |slots| && slots' == slots[r.index := Slot(name, secret)] else slots' == slots
  {
  }

  /** A failed addition changes a slot exactly when the write reached the device and a lost
      or another message, not an OK, took the place of its reply. */
  lemma FailureStoresIff(
      slots: seq<bytes>, answers: Answers, write: Answer, name: bytes, secret: bytes, fold: Fold)
    requires ValidSlots(slots) && name != [] && |secret| == SECRET_LEN
    requires Spec(slots, answers, write, name, secret, fold).0.AddFailed?
    ensures var (r, slots') := Spec(slots, answers, write, name, secret, fold);
            var c := Choose(Replies(slots, answers), name, fold);
            slots' != slots <==>
              && c.Use? && c.index < |slots| && slots[c.index] != Slot(name, secret)
              && ((write.Lost? && write.reached) || (write.Late? && !write.m.OK?))
  {
  }

  /** The slot has that name, up to case. */
  predicate Matches(slots: seq<bytes>, i: nat, name: bytes, fold: Fold)
    requires ValidSlots(slots) && i < |slots|
  {
    NameAt(slots, i) != [] && fold(NameAt(slots, i)) == fold(name)
  }

  /** The probed slots that have a name have different names up to case. */
  predicate Distinct(slots: seq<bytes>, fold: Fold)
    requires ValidSlots(slots)
  {
    forall i, j | 0 <= i < j < |slots| && j < MAX_CHANNELS && NameAt(slots, i) != [] && NameAt(slots, j) != [] ::
      fold(NameAt(slots, i)) != fold(NameAt(slots, j))
  }

  lemma SlotName(slots: seq<bytes>, i: nat, name: bytes, secret: bytes)
    requires ValidSlots(slots) && i < |slots|
    ensures ValidSlots(slots[i := Slot(name, secret)])
    ensures NameAt(slots[i := Slot(name, secret)], i) == StoredName(name)
  {
    assert Slot(name, secret)[..NAME_LEN] == Padded(name, NAME_LEN);
  }

  predicate Clashes(slots: seq<bytes>, index: nat, stored: bytes, fold: Fold)
    requires ValidSlots(slots)
  {
    stored != [] && exists i | 0 <= i < |slots| && i < MAX_CHANNELS && i != index :: Matches(slots, i, stored, fold)
  }

  /** Writing a slot keeps the names distinct exactly when the name as stored is not, up
      to case, the name of another slot. */
  lemma WriteKeepsDistinctIff(slots: seq<bytes>, index: nat, name: bytes, secret: bytes, fold: Fold)
    requires ValidSlots(slots) && Distinct(slots, fold) && index < |slots| && index < MAX_CHANNELS
    ensures var slots' := slots[index := Slot(name, secret)];
            ValidSlots(slots') && (Distinct(slots', fold) <==> !Clashes(slots, index, StoredName(name), fold))
  {
    var slots' := slots[index := Slot(name, secret)];
    SlotName(slots, index, name, secret);
    assert forall i | 0 <= i < |slots| && i != index :: NameAt(slots', i) == NameAt(slots, i);
    if Clashes(slots, index, StoredName(name), fold) {
      var i :| 0 <= i < |slots| && i < MAX_CHANNELS && i != index && Matches(slots, i, StoredName(name), fold);
      assert NameAt(slots', i) != [] && NameAt(slots', index) != [];
      assert fold(NameAt(slots', i)) == fold(NameAt(slots', index));
    } else {
      forall i, j | 0 <= i < j < |slots'| && j < MAX_CHANNELS && NameAt(slots', i) != [] && NameAt(slots', j) != []
        ensures fold(NameAt(slots', i)) != fold(NameAt(slots', j))
      {
        var other := if i == index then j else i;
        assert i == index || j == index ==> !Matches(slots, other, StoredName(name), fold);
      }
    }
  }

  /** So adding does, whatever the probes and the write are answered with: the names stay
      distinct exactly when nothing is stored or the name as stored is no other slot's. */
  lemma AddKeepsDistinctIff(
      slots: seq<bytes>, answers: Answers, write: Answer, name: bytes, secret: bytes, fold: Fold)
    requires ValidSlots(slots) && Distinct(slots, fold) && name != [] && |secret| == SECRET_LEN
    ensures var slots' := Spec(slots, answers, write, name, secret, fold).1;
            var c := Choose(Replies(slots, answers), name, fold);
            && ValidSlots(slots')
            && (Distinct(slots', fold) <==>
                  !(c.Use? && Stores(slots, write, c.index) && Clashes(slots, c.index, StoredName(name), fold)))
            && (Storable(name) && c.Use? && Stores(slots, write, c.index) ==>
                  (Distinct(slots', fold) <==>
                     forall i | 0 <= i < |slots| && i < MAX_CHANNELS && i != c.index :: !Matches(slots, i, name, fold)))
  {
    StoredNameIff(name);
    var c := Choose(Replies(slots, answers), name, fold);
    if c.Use? && Stores(slots, write, c.index) {
      WriteKeepsDistinctIff(slots, c.index, name, secret, fold);
    }
  }

  /** When each probe is answered by its own reply, no other slot has the name: then the
      names stay distinct for every name that can be stored, whatever answers the write. */
  lemma OwnProbesKeepDistinct(slots: seq<bytes>, write: Answer, name: bytes, secret: bytes, fold: Fold)
    requires ValidSlots(slots) && Distinct(slots, fold) && Storable(name)
    ensures var slots' := Spec(slots, AllOwn, write, name, secret, fold).1;
            ValidSlots(slots') && Distinct(slots', fold)
  {
    if name != [] && |secret| == SECRET_LEN {
      AddKeepsDistinctIff(slots, AllOwn, write, name, secret, fold);
      var rs := Replies(slots, AllOwn);
      var c := Choose(rs, name, fold);
      if c.Use? && Stores(slots, write, c.index) {
        ChooseExact(rs, name, fold);
        forall i | 0 <= i < |slots| && i < MAX_CHANNELS && i != c.index
          ensures !Matches(slots, i, name, fold)
        {
          OwnSees(slots, i, name, fold);
          OwnSees(slots, c.index, name, fold);
        }
      }
    }
  }

  lemma OwnSees(slots: seq<bytes>, i: nat, name: bytes, fold: Fold)
    requires ValidSlots(slots) && i < |slots| && i < MAX_CHANNELS
    ensures var r := Replies(slots, AllOwn)[i];
            (Sees(r, name, fold) <==> Matches(slots, i, name, fold)) && (Free(r) <==> NameAt(slots, i) == [])
  {
  }

  /** One call of AddChannel and the answer to its write. */
  datatype Request = Request(name: bytes, secret: bytes, write: Answer)

  function AddAll(slots: seq<bytes>, reqs: seq<Request>, fold: Fold): seq<bytes>
    requires ValidSlots(slots)
    ensures ValidSlots(AddAll(slots, reqs, fold))
    decreases |reqs|
  {
    if reqs == [] then slots
    else AddAll(Spec(slots, AllOwn, reqs[0].write, reqs[0].name, reqs[0].secret, fold).1, reqs[1..], fold)
  }

  /** Slot names stay distinct over every sequence of additions of storable names, failed
      ones included, whatever answers their writes. */
  lemma {:induction false} AdditionsKeepDistinct(slots: seq<bytes>, reqs: seq<Request>, fold: Fold)
    requires ValidSlots(slots) && Distinct(slots, fold) && forall q | q in reqs :: Storable(q.name)
    ensures Distinct(AddAll(slots, reqs, fold), fold)
    decreases |reqs|
  {
    if reqs != [] {
      var q := reqs[0];
      OwnProbesKeepDistinct(slots, q.write, q.name, q.secret, fold);
      AdditionsKeepDistinct(Spec(slots, AllOwn, q.write, q.name, q.secret, fold).1, reqs[1..], fold);
    }
  }

  // ---------------------------------------------------------------------------
  // Inputs on which a failure stores, or names do not stay distinct
  // ---------------------------------------------------------------------------

  const Key: bytes := [1, 2, 3, 4, 5, 6, 7, 8, 9, 10, 11, 12, 13, 14, 15, 16]

  /** Eight slots, of which the first have names. */
  function Named(names: seq<bytes>): (slots: seq<bytes>)
    requires |names| <= MAX_CHANNELS
    ensures |slots| == MAX_CHANNELS && ValidSlots(slots)
    ensures forall i | 0 <= i < MAX_CHANNELS :: slots[i] == Slot(Nth(names, i), Key)
  {
    seq(MAX_CHANNELS, i requires 0 <= i < MAX_CHANNELS => Slot(Nth(names, i), Key))
  }

  function Nth(names: seq<bytes>, i: nat): bytes {
    if i < |names| then names[i] else []
  }

  lemma NamedReads(names: seq<bytes>)
    requires |names| <= MAX_CHANNELS && forall i | 0 <= i < |names| :: Storable(names[i])
    ensures forall i | 0 <= i < MAX_CHANNELS :: NameAt(Named(names), i) == Nth(names, i)
  {
    forall i | 0 <= i < MAX_CHANNELS
      ensures NameAt(Named(names), i) == Nth(names, i)
    {
      SlotReadsBack(Named(names), i, Nth(names, i), Key);
    }
  }

  /** The reply to the write is lost: the call fails, and the slot is written. */
  lemma FailedAddStores(name: bytes, fold: Fold)
    requires name != [] && Storable(name)
    ensures Spec(Named([]), AllOwn, Lost(true), name, Key, fold)
         == (AddFailed(WriteFailed), Named([])[0 := Slot(name, Key)])
  {
    NamedReads([]);
    var rs := Replies(Named([]), AllOwn);
    assert Free(rs[0]);
    assert forall i | 0 <= i < MAX_CHANNELS :: !rs[i].RequestFailed? && !Sees(rs[i], name, fold);
  }

  /** A name one byte too long for its slot, cut to the name of another slot. */
  lemma CutNameClashes(name: bytes)
    requires |name| == NAME_LEN + 1 && 0 !in name
    ensures var slots, fold := Named([name[..NAME_LEN]]), (b: bytes) => b;
            var (r, slots') := Spec(slots, AllOwn, Own, name, Key, fold);
            Distinct(slots, fold) && r == Added(1, name, Key) && ValidSlots(slots') && !Distinct(slots', fold)
  {
    var base := name[..NAME_LEN];
    var slots, fold := Named([base]), (b: bytes) => b;
    NamedReads([base]);
    var rs := Replies(slots, AllOwn);
    assert !Free(rs[0]) && Free(rs[1]);
    assert forall i | 0 <= i < MAX_CHANNELS :: !rs[i].RequestFailed? && !Sees(rs[i], name, fold);
    assert Padded(name, NAME_LEN) == base && Padded(base, NAME_LEN) == base;
    StoredNameIff(base);
    assert Matches(slots, 0, StoredName(name), fold);
    AddKeepsDistinctIff(slots, AllOwn, Own, name, Key, fold);
  }

  const OtherAtOne: Answers := [Own, Late(NoMoreMessages), Own, Own, Own, Own, Own, Own]

  lemma HiddenIsNotSeen(name: bytes, fold: Fold)
    requires name != [] && Storable(name)
    ensures Choose(Replies(Named([[], name]), OtherAtOne), name, fold) == Use(0)
  {
    NamedReads([[], name]);
    var rs := Replies(Named([[], name]), OtherAtOne);
    assert Free(rs[0]);
    assert forall i | 0 <= i < MAX_CHANNELS :: !rs[i].RequestFailed? && !Sees(rs[i], name, fold);
  }

  /** A late reply of another kind in place of a slot's channel info makes the probe take the
      slot for free, and its name is added a second time. */
  lemma HiddenSlotDuplicates(name: bytes)
    requires name != [] && Storable(name)
    ensures var slots, fold := Named([[], name]), (b: bytes) => b;
            var (r, slots') := Spec(slots, OtherAtOne, Own, name, Key, fold);
            Distinct(slots, fold) && r == Added(0, name, Key) && ValidSlots(slots') && !Distinct(slots', fold)
  {
    var slots, fold := Named([[], name]), (b: bytes) => b;
    NamedReads([[], name]);
    HiddenIsNotSeen(name, fold);
    StoredNameIff(name);
    assert Matches(slots, 1, StoredName(name), fold);
    AddKeepsDistinctIff(slots, OtherAtOne, Own, name, Key, fold);
  }

  /** The late channel info of one slot. */
  function Info(slots: seq<bytes>, i: nat): Answer
    requires ValidSlots(slots) && i < 0x100
  {
    Late(OwnReply(slots, i))
  }

  /** After a query for slot 0 was given up: its late reply answers the first probe, and each
      later request collects the reply to the one before it. */
  function OneBehind(slots: seq<bytes>): Answers
    requires ValidSlots(slots)
  {
    [Info(slots, 0), Info(slots, 0), Info(slots, 1), Info(slots, 2),
     Info(slots, 3), Info(slots, 4), Info(slots, 5), Info(slots, 6)]
  }

  lemma LateInfoMisleads(a: bytes, b: bytes, c: bytes, fold: Fold)
    requires b != [] && a != [] && Storable(a) && Storable(b) && Storable(c) && fold(a) != fold(b)
    ensures Choose(Replies(Named([a, b, c]), OneBehind(Named([a, b, c]))), b, fold) == Use(2)
  {
    var slots := Named([a, b, c]);
    NamedReads([a, b, c]);
    var rs := Replies(slots, OneBehind(slots));
    assert rs[0] == Understood(OwnReply(slots, 0)) == rs[1] && rs[2] == Understood(OwnReply(slots, 1));
    assert Sees(rs[2], b, fold) && !Sees(rs[0], b, fold) && !Sees(rs[1], b, fold);
    assert FirstMatch(rs, b, fold) == 2;
    assert !rs[0].RequestFailed? && !rs[1].RequestFailed? && !rs[2].RequestFailed?;
  }

  /** Then adding the name of slot 1 finds it at slot 2, overwrites that slot and fails: one
      name occurs twice and another is gone, although every probe got channel info. */
  lemma LateInfoOverwrites(a: bytes, b: bytes, c: bytes, fold: Fold)
    requires [] !in {a, b, c} && Storable(a) && Storable(b) && Storable(c)
    requires fold(a) != fold(b) && fold(b) != fold(c) && fold(c) != fold(a)
    ensures var slots := Named([a, b, c]);
            var (r, slots') := Spec(slots, OneBehind(slots), Info(slots, 2), b, Key, fold);
            && Distinct(slots, fold) && r == AddFailed(WriteFailed) && slots' == slots[2 := Slot(b, Key)]
            && ValidSlots(slots') && !Distinct(slots', fold)
            && forall i | 0 <= i < MAX_CHANNELS :: NameAt(slots', i) != c
  {
    var slots := Named([a, b, c]);
    NamedReads([a, b, c]);
    LateInfoMisleads(a, b, c, fold);
    var slots' := slots[2 := Slot(b, Key)];
    SlotReadsBack(slots', 2, b, Key);
    assert forall i | 0 <= i < MAX_CHANNELS && i != 2 :: NameAt(slots', i) == NameAt(slots, i);
    assert NameAt(slots', 1) == NameAt(slots', 2) == b;
  }
}
