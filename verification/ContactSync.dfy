/**
 Incremental contact replication: the stream collector of `ContactsSince` (contacts.go),
 the contact table and its modification marker (backend/sqlite_store.go), and
 `syncContacts` (backend/server.go).
 */
module ContactSync {
  import opened Common

  type Key = string
  type Mark = nat

  /** A version of a contact: its name and, as one value, its type, path and position. When
      it was last heard or stored is not part of it. */
  datatype Info = Info(name: string, details: string)

  datatype Contact = Contact(publicKey: string, info: Info)

  function LowerChar(c: char): char {
    if 'A' <= c <= 'Z' then c - 'A' + 'a' else c
  }

  function ToLower(s: string): string {
    seq(|s|, i requires 0 <= i < |s| => LowerChar(s[i]))
  }

  /** The key of a contact's row: its public key or, for want of one, its name. */
  function TableKey(c: Contact): Key {
    if c.publicKey == "" then "name:" + ToLower(c.info.name) else c.publicKey
  }

  lemma KeyExact(c: Contact)
    ensures c.publicKey != "" ==> TableKey(c) == c.publicKey
    ensures TableKey(Contact("", Info("Alice", c.info.details))) == "name:alice"
    ensures forall k | 0 <= k < 26 :: LowerChar("ABCDEFGHIJKLMNOPQRSTUVWXYZ"[k]) == "abcdefghijklmnopqrstuvwxyz"[k]
    ensures forall x: char | x !in "ABCDEFGHIJKLMNOPQRSTUVWXYZ" :: LowerChar(x) == x
  {
    forall x: char | 'A' <= x <= 'Z'
      ensures x in "ABCDEFGHIJKLMNOPQRSTUVWXYZ"
    {
      assert "ABCDEFGHIJKLMNOPQRSTUVWXYZ"[x as int - 'A' as int] == x;
    }
  }

  // ---------------------------------------------------------------------------
  // The contact stream
  // ---------------------------------------------------------------------------

  datatype Frame =
    | ContactsStart(count: nat)
    | ContactFrame(c: Contact)
    | EndOfContacts(lastMod: Mark)
    | ErrFrame(code: nat)
    | OtherFrame

  datatype Reply = Complete(contacts: seq<Contact>, lastMod: Mark) | DeviceError(code: nat) | Unfinished

  function Collected(frames: seq<Frame>, contacts: seq<Contact>): Reply {
    if frames == [] then Unfinished
    else match frames[0]
      case ContactFrame(c) => Collected(frames[1..], contacts + [c])
      case EndOfContacts(m) => Complete(contacts, m)
      case ErrFrame(code) => DeviceError(code)
      case _ => Collected(frames[1..], contacts)
  }

  predicate Terminal(f: Frame) {
    f.EndOfContacts? || f.ErrFrame?
  }

  /** The stream's first terminal frame. */
  predicate EndsAt(frames: seq<Frame>, k: nat) {
    k < |frames| && Terminal(frames[k]) && forall i | 0 <= i < k :: !Terminal(frames[i])
  }

  /** The contacts in the frames, in order. */
  function ContactsIn(frames: seq<Frame>): seq<Contact> {
    if frames == [] then []
    else (if frames[0].ContactFrame? then [frames[0].c] else []) + ContactsIn(frames[1..])
  }

  lemma {:induction false} EndedStream(frames: seq<Frame>, contacts: seq<Contact>, k: nat)
    requires EndsAt(frames, k)
    ensures Collected(frames, contacts)
         == if frames[k].ErrFrame? then DeviceError(frames[k].code)
            else Complete(contacts + ContactsIn(frames[..k]), frames[k].lastMod)
    decreases k
  {
    if k == 0 {
      assert frames[..0] == [] && contacts + [] == contacts;
    } else {
      var more := if frames[0].ContactFrame? then [frames[0].c] else [];
      assert !Terminal(frames[0]) && EndsAt(frames[1..], k - 1);
      EndedStream(frames[1..], contacts + more, k - 1);
      assert frames[..k][1..] == frames[1..][..k - 1];
      var later := ContactsIn(frames[1..][..k - 1]);
      assert contacts + more + later == contacts + (more + later);
      assert contacts + [] == contacts;
    }
  }

  lemma {:induction false} EndlessStream(frames: seq<Frame>, contacts: seq<Contact>)
    requires forall i | 0 <= i < |frames| :: !Terminal(frames[i])
    ensures Collected(frames, contacts) == Unfinished
    decreases |frames|
  {
    if frames != [] {
      EndlessStream(frames[1..], if frames[0].ContactFrame? then contacts + [frames[0].c] else contacts);
    }
  }

  lemma FirstEnd(frames: seq<Frame>) returns (k: nat)
    requires exists i | 0 <= i < |frames| :: Terminal(frames[i])
    ensures EndsAt(frames, k)
  {
    k := 0;
    while !Terminal(frames[k])
      invariant k < |frames| && forall i | 0 <= i < k :: !Terminal(frames[i])
      decreases |frames| - k
    {
      k := k + 1;
    }
  }

  /** What a stream amounts to: the contacts before its end, the error that ended it first, or
      nothing when it has no end. */
  lemma CollectedExact(frames: seq<Frame>)
    ensures Collected(frames, []) == Unfinished <==> forall i | 0 <= i < |frames| :: !Terminal(frames[i])
    ensures forall k: nat | EndsAt(frames, k) ::
              Collected(frames, [])
              == if frames[k].ErrFrame? then DeviceError(frames[k].code)
                 else Complete(ContactsIn(frames[..k]), frames[k].lastMod)
  {
    forall k: nat | EndsAt(frames, k)
      ensures Collected(frames, [])
           == if frames[k].ErrFrame? then DeviceError(frames[k].code)
              else Complete(ContactsIn(frames[..k]), frames[k].lastMod)
    {
      EndedStream(frames, [], k);
      assert [] + ContactsIn(frames[..k]) == ContactsIn(frames[..k]);
    }
    if exists i | 0 <= i < |frames| :: Terminal(frames[i]) {
      var k := FirstEnd(frames);
    } else {
      EndlessStream(frames, []);
    }
  }

  /** Collects until the terminal frame; a stream that stops before it times out. */
  method ContactsSince(frames: seq<Frame>) returns (r: Reply)
    ensures r == Collected(frames, [])
    ensures r == Unfinished <==> forall i | 0 <= i < |frames| :: !Terminal(frames[i])
    ensures forall k: nat | EndsAt(frames, k) ::
              r == if frames[k].ErrFrame? then DeviceError(frames[k].code)
                   else Complete(ContactsIn(frames[..k]), frames[k].lastMod)
  {
    CollectedExact(frames);
    var contacts: seq<Contact> := [];
    for i := 0 to |frames|
      invariant Collected(frames[i..], contacts) == Collected(frames, [])
    {
      assert frames[i..][0] == frames[i] && frames[i..][1..] == frames[i + 1..];
      match frames[i]
      case ContactFrame(c) => contacts := contacts + [c];
      case EndOfContacts(m) => return Complete(contacts, m);
      case ErrFrame(code) => return DeviceError(code);
      case _ =>
    }
    r := Unfinished;
  }

  datatype Entry = Entry(info: Info, mark: Mark)

  predicate Returned(device: map<Key, Entry>, since: Mark, c: Contact) {
    TableKey(c) in device && device[TableKey(c)].mark > since && device[TableKey(c)].info == c.info
  }

  predicate Has(contacts: seq<Contact>, key: Key, info: Info) {
    exists i | 0 <= i < |contacts| :: TableKey(contacts[i]) == key && contacts[i].info == info
  }

  predicate DistinctKeys(contacts: seq<Contact>) {
    forall i, j | 0 <= i < j < |contacts| :: TableKey(contacts[i]) != TableKey(contacts[j])
  }

  /** The device's answer: every contact modified after `since`, once each in any order,
      then the greatest of their marks, or 0 when there are none. */
  ghost predicate Answers(device: map<Key, Entry>, since: Mark, contacts: seq<Contact>, lastMod: Mark) {
    && DistinctKeys(contacts)
    && (forall c | c in contacts :: Returned(device, since, c))
    && (forall k | k in device && device[k].mark > since :: Has(contacts, k, device[k].info))
    && (forall c | c in contacts :: device[TableKey(c)].mark <= lastMod)
    && (if contacts == [] then lastMod == 0 else exists c :: c in contacts && device[TableKey(c)].mark == lastMod)
  }

  function Stream(contacts: seq<Contact>, lastMod: Mark): seq<Frame> {
    [ContactsStart(|contacts|)]
    + seq(|contacts|, i requires 0 <= i < |contacts| => ContactFrame(contacts[i]))
    + [EndOfContacts(lastMod)]
  }

  /** The collector gives back what the device streamed, whatever follows. */
  lemma CollectorExact(contacts: seq<Contact>, lastMod: Mark, rest: seq<Frame>)
    ensures Collected(Stream(contacts, lastMod) + rest, []) == Complete(contacts, lastMod)
  {
    var fs := seq(|contacts|, i requires 0 <= i < |contacts| => ContactFrame(contacts[i]));
    assert (Stream(contacts, lastMod) + rest)[1..] == fs + ([EndOfContacts(lastMod)] + rest);
    CollectFrames(contacts, fs, [EndOfContacts(lastMod)] + rest, []);
    assert [] + contacts == contacts;
  }

  lemma {:induction false} CollectFrames(contacts: seq<Contact>, fs: seq<Frame>, rest: seq<Frame>, acc: seq<Contact>)
    requires |fs| == |contacts| && forall i | 0 <= i < |fs| :: fs[i] == ContactFrame(contacts[i])
    ensures Collected(fs + rest, acc) == Collected(rest, acc + contacts)
    decreases |fs|
  {
    if fs == [] {
      assert fs + rest == rest && acc + contacts == acc;
    } else {
      assert (fs + rest)[0] == ContactFrame(contacts[0]) && (fs + rest)[1..] == fs[1..] + rest;
      CollectFrames(contacts[1..], fs[1..], rest, acc + [contacts[0]]);
      assert acc + [contacts[0]] + contacts[1..] == acc + contacts;
    }
  }

  // ---------------------------------------------------------------------------
  // The replica
  // ---------------------------------------------------------------------------

  function Upserted(rows: map<Key, Info>, contacts: seq<Contact>): map<Key, Info> {
    if contacts == [] then rows
    else
      var n := |contacts| - 1;
      Upserted(rows, contacts[..n])[TableKey(contacts[n]) := contacts[n].info]
  }

  /** The last contact of the list with that key. */
  predicate LastWith(contacts: seq<Contact>, key: Key, i: nat) {
    && i < |contacts| && TableKey(contacts[i]) == key
    && forall j | i < j < |contacts| :: TableKey(contacts[j]) != key
  }

  lemma {:induction false} UpsertedLast(rows: map<Key, Info>, contacts: seq<Contact>, key: Key, i: nat)
    requires LastWith(contacts, key, i)
    ensures key in Upserted(rows, contacts) && Upserted(rows, contacts)[key] == contacts[i].info
  {
    var n := |contacts| - 1;
    if i < n {
      assert contacts[n] == contacts[|contacts| - 1] && TableKey(contacts[n]) != key;
      assert LastWith(contacts[..n], key, i);
      UpsertedLast(rows, contacts[..n], key, i);
    }
  }

  lemma {:induction false} UpsertedNone(rows: map<Key, Info>, contacts: seq<Contact>, key: Key)
    requires forall i | 0 <= i < |contacts| :: TableKey(contacts[i]) != key
    ensures key in Upserted(rows, contacts) <==> key in rows
    ensures key in rows ==> Upserted(rows, contacts)[key] == rows[key]
  {
    if contacts != [] {
      UpsertedNone(rows, contacts[..|contacts| - 1], key);
    }
  }

  /** After an upsert of any list a row is the last contact with its key, or as it was
      when there is none. */
  lemma UpsertedAt(rows: map<Key, Info>, contacts: seq<Contact>, key: Key)
    ensures forall i: nat | LastWith(contacts, key, i) ::
              key in Upserted(rows, contacts) && Upserted(rows, contacts)[key] == contacts[i].info
    ensures (forall i | 0 <= i < |contacts| :: TableKey(contacts[i]) != key) ==>
              && (key in Upserted(rows, contacts) <==> key in rows)
              && (key in rows ==> Upserted(rows, contacts)[key] == rows[key])
  {
    forall i: nat | LastWith(contacts, key, i)
      ensures key in Upserted(rows, contacts) && Upserted(rows, contacts)[key] == contacts[i].info
    {
      UpsertedLast(rows, contacts, key, i);
    }
    if forall i | 0 <= i < |contacts| :: TableKey(contacts[i]) != key {
      UpsertedNone(rows, contacts, key);
    }
  }

  lemma UpsertedHas(rows: map<Key, Info>, contacts: seq<Contact>, key: Key, info: Info)
    requires DistinctKeys(contacts) && Has(contacts, key, info)
    ensures key in Upserted(rows, contacts) && Upserted(rows, contacts)[key] == info
  {
    var i :| 0 <= i < |contacts| && TableKey(contacts[i]) == key && contacts[i].info == info;
    UpsertedLast(rows, contacts, key, i);
  }

  /** Which store or radio call of one sync fails, if any. */
  datatype Fault = NoFault | AtRead | AtClear | AtStream | AtUpsert | AtSetMark

  class Replica {
    var rows: map<Key, Info>
    var marker: Mark

    constructor ()
      ensures rows == map[] && marker == 0
    {
      rows, marker := map[], 0;
    }

    /** One transaction. */
    method UpsertContacts(contacts: seq<Contact>)
      modifies this`rows
      ensures rows == Upserted(old(rows), contacts)
    {
      for i := 0 to |contacts|
        invariant rows == Upserted(old(rows), contacts[..i])
      {
        assert contacts[..i + 1][..i] == contacts[..i];
        var key := contacts[i].publicKey;
        if key == "" {
          key := "name:" + ToLower(contacts[i].info.name);
        }
        rows := rows[key := contacts[i].info];
      }
      assert contacts[..|contacts|] == contacts;
    }

    /** One sync, given what the device streams back and where it fails. It succeeds exactly
        when the stream ended well and no call made failed; a failure leaves what the calls
        before it did. */
    method SyncContacts(full: bool, frames: seq<Frame>, fault: Fault) returns (ok: bool)
      modifies this
      ensures (rows, marker, ok) == Synced(old(rows), old(marker), full, Collected(frames, []), fault)
      ensures var reply := Collected(frames, []);
              ok <==>
                && !(if full then fault.AtClear? else fault.AtRead?)
                && reply.Complete? && !fault.AtStream?
                && !(fault.AtUpsert? && reply.contacts != [])
                && !(fault.AtSetMark? && (full || reply.lastMod != 0))
      ensures (if full then fault.AtClear? else fault.AtRead?) ==> rows == old(rows) && marker == old(marker)
      ensures var reply := Collected(frames, []);
              !(if full then fault.AtClear? else fault.AtRead?) ==>
                if !reply.Complete? || fault.AtStream? || (fault.AtUpsert? && reply.contacts != []) then
                  rows == (if full then map[] else old(rows)) && marker == old(marker)
                else
                  && rows == Upserted(if full then map[] else old(rows), reply.contacts)
                  && marker == if ok && (full || reply.lastMod != 0) then reply.lastMod else old(marker)
    {
      if !full {
        if fault.AtRead? {
          return false;
        }
      } else {
        if fault.AtClear? {
          return false;
        }
        rows := map[];
      }
      var reply := ContactsSince(frames);
      if fault.AtStream? || !reply.Complete? {
        return false;
      }
      if |reply.contacts| > 0 {
        if fault.AtUpsert? {
          return false;
        }
        UpsertContacts(reply.contacts);
      }
      if reply.lastMod != 0 || full {
        if fault.AtSetMark? {
          return false;
        }
        marker := reply.lastMod;
      }
      return true;
    }
  }

  function Synced(rows: map<Key, Info>, marker: Mark, full: bool, reply: Reply, fault: Fault)
    : (map<Key, Info>, Mark, bool)
  {
    if (!full && fault.AtRead?) || (full && fault.AtClear?) then (rows, marker, false)
    else
      var cleared := if full then map[] else rows;
      if fault.AtStream? || !reply.Complete? then (cleared, marker, false)
      else if reply.contacts != [] && fault.AtUpsert? then (cleared, marker, false)
      else
        var written := Upserted(cleared, reply.contacts);
        if reply.lastMod == 0 && !full then (written, marker, true)
        else if fault.AtSetMark? then (written, marker, false)
        else (written, reply.lastMod, true)
  }

  predicate Current(device: map<Key, Entry>, rows: map<Key, Info>, key: Key)
    requires key in device
  {
    key in rows && rows[key] == device[key].info
  }

  /** Every device contact modified no later than the marker is replicated as it is. */
  predicate Covers(device: map<Key, Entry>, rows: map<Key, Info>, marker: Mark) {
    forall k | k in device && device[k].mark <= marker :: Current(device, rows, k)
  }

  /** A full refresh stores exactly the device's contacts. */
  lemma FullUpsertExact(device: map<Key, Entry>, contacts: seq<Contact>, lastMod: Mark)
    requires Answers(device, 0, contacts, lastMod) && forall k | k in device :: device[k].mark > 0
    ensures Upserted(map[], contacts) == map k | k in device :: device[k].info
    ensures forall k | k in device :: device[k].mark <= lastMod
  {
    var rows' := Upserted(map[], contacts);
    forall k
      ensures k in rows' <==> k in device
      ensures k in device ==> rows'[k] == device[k].info && device[k].mark <= lastMod
    {
      if k in device {
        UpsertedHas(map[], contacts, k, device[k].info);
        var i :| 0 <= i < |contacts| && TableKey(contacts[i]) == k;
        assert contacts[i] in contacts;
      } else {
        assert forall i | 0 <= i < |contacts| :: contacts[i] in contacts && Returned(device, 0, contacts[i]);
        UpsertedNone(map[], contacts, k);
      }
    }
  }

  /** An incremental sync that completes leaves every device contact current, with its mark
      up to the new marker, and no row it had for other keys changed. */
  lemma IncrementalSyncExact(
      device: map<Key, Entry>, rows: map<Key, Info>, marker: Mark, contacts: seq<Contact>, lastMod: Mark)
    requires Covers(device, rows, marker) && Answers(device, marker, contacts, lastMod)
    ensures var (rows', marker', ok) := Synced(rows, marker, false, Complete(contacts, lastMod), NoFault);
            && ok && marker <= marker'
            && (forall k | k in device :: Current(device, rows', k) && device[k].mark <= marker')
            && (forall k | k !in device :: k in rows' <==> k in rows)
            && (forall k | k in rows && k !in device :: rows'[k] == rows[k])
  {
    if contacts != [] {
      var c :| c in contacts && device[TableKey(c)].mark == lastMod;
      assert Returned(device, marker, c);
    }
    forall i | 0 <= i < |contacts|
      ensures Returned(device, marker, contacts[i]) && device[TableKey(contacts[i])].mark <= lastMod
    {
      assert contacts[i] in contacts;
    }
    forall k | k in device
      ensures Current(device, Upserted(rows, contacts), k)
      ensures device[k].mark > marker ==> device[k].mark <= lastMod && contacts != []
    {
      if device[k].mark > marker {
        UpsertedHas(rows, contacts, k, device[k].info);
      } else {
        UpsertedNone(rows, contacts, k);
      }
    }
    forall k | k !in device
      ensures k in Upserted(rows, contacts) <==> k in rows
      ensures k in rows ==> Upserted(rows, contacts)[k] == rows[k]
    {
      UpsertedNone(rows, contacts, k);
    }
  }

  /** A full refresh that completes leaves exactly the device's contacts. */
  lemma FullRefreshExact(
      device: map<Key, Entry>, rows: map<Key, Info>, marker: Mark, contacts: seq<Contact>, lastMod: Mark)
    requires Answers(device, 0, contacts, lastMod) && forall k | k in device :: device[k].mark > 0
    ensures var (rows', marker', ok) := Synced(rows, marker, true, Complete(contacts, lastMod), NoFault);
            && ok && rows' == (map k | k in device :: device[k].info) && Covers(device, rows', marker')
            && forall k | k in device :: device[k].mark <= marker'
  {
    FullUpsertExact(device, contacts, lastMod);
  }

  /** The refresh stores the contacts, or stops before it has cleared the replica. */
  predicate StoresOrStopsFirst(reply: Reply, fault: Fault) {
    fault.AtClear? || (reply.Complete? && !fault.AtStream? && !fault.AtUpsert?)
  }

  /** A full refresh, whatever the device streams and whichever call fails, keeps coverage
      exactly when it stores the contacts or stops before clearing, or no device contact is
      old enough for the marker to claim it; a failure at the marker only does no harm. */
  lemma FullRefreshCoversIff(device: map<Key, Entry>, rows: map<Key, Info>, marker: Mark, reply: Reply, fault: Fault)
    requires Covers(device, rows, marker) && forall k | k in device :: device[k].mark > 0
    requires reply.Complete? ==> Answers(device, 0, reply.contacts, reply.lastMod)
    ensures var (rows', marker', _) := Synced(rows, marker, true, reply, fault);
            Covers(device, rows', marker')
            <==> StoresOrStopsFirst(reply, fault) || forall k | k in device :: device[k].mark > marker
  {
    if reply.Complete? {
      FullUpsertExact(device, reply.contacts, reply.lastMod);
    }
    assert forall k | k in device :: !Current(device, map[], k);
  }

  /** A modification on the device keeps coverage exactly when its mark is past the
      marker, or the replica happens to hold the new version. */
  lemma TouchIff(device: map<Key, Entry>, rows: map<Key, Info>, marker: Mark, key: Key, info: Info, mark: Mark)
    requires Covers(device, rows, marker)
    ensures Covers(device[key := Entry(info, mark)], rows, marker)
       <==> mark > marker || (key in rows && rows[key] == info)
  {
    var device' := device[key := Entry(info, mark)];
    if mark <= marker && Covers(device', rows, marker) {
      assert Current(device', rows, key);
    }
    forall k | k in device && k != key && device[k].mark <= marker
      ensures Current(device', rows, k)
    {
      assert Current(device, rows, k);
    }
  }

  function Raised(marker: Mark, mark: Mark): Mark {
    if mark > marker then mark else marker
  }

  /** An observed advert, stored with the mark it carries, keeps coverage exactly when it
      skips no other contact that is out of date and does not store an old version. */
  lemma AdvertIff(device: map<Key, Entry>, rows: map<Key, Info>, marker: Mark, key: Key, info: Info, mark: Mark)
    requires Covers(device, rows, marker)
    ensures Covers(device, rows[key := info], Raised(marker, mark)) <==>
            && (forall k | k in device && k != key && marker < device[k].mark <= Raised(marker, mark) ::
                  Current(device, rows, k))
            && (key in device && device[key].mark <= Raised(marker, mark) ==> device[key].info == info)
  {
    var rows' := rows[key := info];
    assert forall k | k in device && k != key :: Current(device, rows', k) <==> Current(device, rows, k);
    assert key in device ==> (Current(device, rows', key) <==> device[key].info == info);
  }

  // ---------------------------------------------------------------------------
  // Runs: syncs that complete or fail at any stage, while the device changes
  // ---------------------------------------------------------------------------

  datatype Stage =
    | Idle
    | Asked(full: bool, since: Mark)
    | Answered(full: bool, since: Mark, contacts: seq<Contact>, lastMod: Mark)
    | Written(full: bool, since: Mark, lastMod: Mark)

  /** `clock` is the greatest mark the device has used; `broken` says that a full refresh
      has cleared the replica and none has stored the contacts since. */
  datatype State = State(
    device: map<Key, Entry>, clock: Mark, rows: map<Key, Info>, marker: Mark, stage: Stage, broken: bool)

  const Init := State(map[], 0, map[], 0, Idle, false)

  datatype Action =
    | Touch(key: Key, info: Info, mark: Mark)
    | Remove(key: Key)
    | Advert(key: Key, info: Info, mark: Mark)
    | Ask(full: bool)
    | Answer(contacts: seq<Contact>, lastMod: Mark)
    | Upsert
    | SetMark
    | FailStage

  function Since(s: State): Mark {
    if s.stage.Idle? then s.marker else s.stage.since
  }

  ghost predicate Enabled(s: State, a: Action) {
    match a
    case Touch(_, _, _) => true
    case Remove(_) => true
    case Advert(_, _, _) => true
    case Ask(_) => s.stage.Idle?
    case Answer(contacts, lastMod) => s.stage.Asked? && Answers(s.device, Since(s), contacts, lastMod)
    case Upsert => s.stage.Answered?
    case SetMark => s.stage.Written?
    case FailStage => !s.stage.Idle?
  }

  function Apply(s: State, a: Action): State {
    match a
    case Touch(key, info, mark) => s.(device := s.device[key := Entry(info, mark)], clock := Raised(s.clock, mark))
    case Remove(key) => s.(device := s.device - {key})
    case Advert(key, info, mark) => s.(rows := s.rows[key := info], marker := Raised(s.marker, mark))
    case Ask(full) =>
      s.(stage := Asked(full, if full then 0 else s.marker), rows := if full then map[] else s.rows,
         broken := s.broken || full)
    case Answer(contacts, lastMod) =>
      if s.stage.Asked? then s.(stage := Answered(s.stage.full, s.stage.since, contacts, lastMod)) else s
    case Upsert =>
      if s.stage.Answered? then
        s.(stage := Written(s.stage.full, s.stage.since, s.stage.lastMod),
           rows := Upserted(s.rows, s.stage.contacts), broken := s.broken && !s.stage.full)
      else s
    case SetMark =>
      if s.stage.Written? then
        s.(stage := Idle, marker := if s.stage.lastMod != 0 || s.stage.full then s.stage.lastMod else s.marker)
      else s
    case FailStage => s.(stage := Idle)
  }

  ghost function After(acts: seq<Action>): Option<State> {
    if acts == [] then Some(Init)
    else
      match After(acts[..|acts| - 1])
      case None => None
      case Some(s) =>
        if Enabled(s, acts[|acts| - 1]) then Some(Apply(s, acts[|acts| - 1])) else None
  }

  /** The rows once the answer under way is stored. */
  function Upcoming(s: State): map<Key, Info> {
    if s.stage.Answered? then Upserted(s.rows, s.stage.contacts) else s.rows
  }

  /** The replica is to cover what the marker claims once the answer under way is stored. */
  predicate WillCover(s: State) {
    s.stage.Answered? && (!s.broken || s.stage.full)
  }

  /** The contact is current, now and once the answer under way is stored, as far as the
      replica is to cover anything. */
  predicate UpToDate(s: State, k: Key)
    requires k in s.device
  {
    && (!s.broken ==> Current(s.device, s.rows, k))
    && (WillCover(s) ==> Current(s.device, Upcoming(s), k))
  }

  predicate Offers(contacts: seq<Contact>, key: Key) {
    exists i | 0 <= i < |contacts| :: TableKey(contacts[i]) == key
  }

  /** The advert stores the current version of its contact, where that will be claimed, and
      the answer under way, if any, does not bring an older one. */
  predicate StoresCurrent(s: State, a: Action)
    requires a.Advert? && a.key in s.device
  {
    var e := s.device[a.key];
    && (e.mark <= Raised(s.marker, a.mark) ==>
          && (!s.broken ==> a.info == e.info)
          && (WillCover(s) ==>
                if Offers(s.stage.contacts, a.key) then Has(s.stage.contacts, a.key, e.info) else a.info == e.info))
    && (s.stage.Written? && s.stage.since < e.mark <= s.stage.lastMod ==> a.info == e.info)
  }

  /** An advert with a mark the device has used, that skips no contact out of date and
      stores no old version. */
  predicate Harmless(s: State, a: Action)
    requires a.Advert?
  {
    && Raised(s.marker, a.mark) <= s.clock
    && (forall k | k in s.device && k != a.key && s.marker < s.device[k].mark <= Raised(s.marker, a.mark) ::
          UpToDate(s, k))
    && (a.key in s.device ==> StoresCurrent(s, a))
  }

  /** The premise on the device and on adverts: marks strictly increase, and observed
      adverts are harmless. */
  ghost predicate Steady(acts: seq<Action>) {
    acts == [] ||
    (var n := |acts| - 1;
     Steady(acts[..n]) &&
     (After(acts[..n]).Some? ==>
        && (acts[n].Touch? ==> acts[n].mark > After(acts[..n]).value.clock)
        && (acts[n].Advert? ==> Harmless(After(acts[..n]).value, acts[n]))))
  }

  /** Contacts with marks in (`since`, `lastMod`] are in `contacts` as they are. */
  ghost predicate AnswerInv(s: State, contacts: seq<Contact>, lastMod: Mark) {
    && DistinctKeys(contacts)
    && (forall k | k in s.device && Since(s) < s.device[k].mark <= lastMod :: Has(contacts, k, s.device[k].info))
    && (forall i | 0 <= i < |contacts| && TableKey(contacts[i]) in s.device ::
          s.device[TableKey(contacts[i])].mark > Since(s))
  }

  /** What the sync under way was told, and has stored. */
  ghost predicate StageInv(s: State) {
    match s.stage
    case Idle => true
    case Asked(full, since) => full ==> s.broken
    case Answered(full, since, contacts, lastMod) =>
      && (full ==> s.broken) && lastMod <= s.clock && AnswerInv(s, contacts, lastMod)
      && (WillCover(s) ==> Covers(s.device, Upcoming(s), s.marker))
    case Written(full, since, lastMod) =>
      && lastMod <= s.clock
      && forall k | k in s.device && since < s.device[k].mark <= lastMod :: Current(s.device, s.rows, k)
  }

  ghost predicate Inv(s: State) {
    && s.marker <= s.clock
    && (forall k | k in s.device :: 0 < s.device[k].mark <= s.clock)
    && (!s.broken ==> Covers(s.device, s.rows, s.marker))
    && (!s.stage.Idle? ==> if s.stage.full then s.stage.since == 0 else s.stage.since <= s.marker)
    && StageInv(s)
  }

  lemma TouchKeepsInv(s: State, a: Action)
    requires Inv(s) && a.Touch? && a.mark > s.clock
    ensures Inv(Apply(s, a))
  {
    var s' := Apply(s, a);
    assert forall k | k in s'.device && k != a.key :: s'.device[k] == s.device[k];
    TouchKeepsCurrent(s, a, s.rows);
    TouchKeepsCurrent(s, a, Upcoming(s));
    match s.stage
    case Answered(_, _, contacts, lastMod) => TouchKeepsAnswer(s, a, contacts, lastMod);
    case _ =>
  }

  /** A modification leaves the contacts with earlier marks as they were. */
  lemma TouchKeepsCurrent(s: State, a: Action, rows: map<Key, Info>)
    requires a.Touch?
    ensures forall k | k in s.device && k != a.key && Current(s.device, rows, k) ::
              Current(Apply(s, a).device, rows, k)
  {
  }

  lemma TouchKeepsAnswer(s: State, a: Action, contacts: seq<Contact>, lastMod: Mark)
    requires a.Touch? && a.mark > s.clock && !s.stage.Idle? && s.stage.since <= s.clock && lastMod <= s.clock
    requires AnswerInv(s, contacts, lastMod)
    ensures AnswerInv(Apply(s, a), contacts, lastMod)
  {
    var s' := Apply(s, a);
    assert forall k | k in s'.device && k != a.key :: s'.device[k] == s.device[k];
  }

  /** An answer has every contact past what was asked for, as it is. */
  lemma AnswerTells(s: State, a: Action)
    requires a.Answer? && Enabled(s, a) && forall k | k in s.device :: s.device[k].mark <= s.clock
    ensures AnswerInv(Apply(s, a), a.contacts, a.lastMod) && a.lastMod <= s.clock
    ensures forall k | k in s.device && Since(s) < s.device[k].mark :: s.device[k].mark <= a.lastMod
  {
    forall k | k in s.device && Since(s) < s.device[k].mark
      ensures s.device[k].mark <= a.lastMod
    {
      var i :| 0 <= i < |a.contacts| && TableKey(a.contacts[i]) == k;
      assert a.contacts[i] in a.contacts;
    }
    forall i | 0 <= i < |a.contacts|
      ensures Returned(s.device, Since(s), a.contacts[i])
    {
      assert a.contacts[i] in a.contacts;
    }
    if a.contacts != [] {
      var c :| c in a.contacts && s.device[TableKey(c)].mark == a.lastMod;
    }
  }

  lemma AnswerKeepsInv(s: State, a: Action)
    requires Inv(s) && a.Answer? && Enabled(s, a)
    ensures Inv(Apply(s, a))
  {
    AnswerTells(s, a);
    UpsertStores(Apply(s, a));
  }

  lemma UpsertStores(s: State)
    requires s.stage.Answered? && AnswerInv(s, s.stage.contacts, s.stage.lastMod)
    ensures forall k | k in s.device && Since(s) < s.device[k].mark <= s.stage.lastMod ::
              Current(s.device, Apply(s, Upsert).rows, k)
    ensures forall k | k in s.device && s.device[k].mark <= Since(s) && Current(s.device, s.rows, k) ::
              Current(s.device, Apply(s, Upsert).rows, k)
  {
    var contacts := s.stage.contacts;
    forall k | k in s.device && Since(s) < s.device[k].mark <= s.stage.lastMod
      ensures Current(s.device, Apply(s, Upsert).rows, k)
    {
      UpsertedHas(s.rows, contacts, k, s.device[k].info);
    }
    forall k | k in s.device && s.device[k].mark <= Since(s) && Current(s.device, s.rows, k)
      ensures Current(s.device, Apply(s, Upsert).rows, k)
    {
      UpsertedNone(s.rows, contacts, k);
    }
  }

  lemma UpsertKeepsInv(s: State)
    requires Inv(s) && Enabled(s, Upsert)
    ensures Inv(Apply(s, Upsert))
  {
    UpsertStores(s);
  }

  lemma SetMarkKeepsInv(s: State)
    requires Inv(s) && Enabled(s, SetMark)
    ensures Inv(Apply(s, SetMark))
  {
    var s' := Apply(s, SetMark);
    forall k | !s.broken && k in s.device && s.device[k].mark <= s'.marker
      ensures Current(s.device, s.rows, k)
    {
    }
  }

  lemma AdvertKeepsOthers(s: State, a: Action)
    requires a.Advert?
    ensures forall k | k in s.device && k != a.key ::
              Current(s.device, Apply(s, a).rows, k) <==> Current(s.device, s.rows, k)
    ensures a.key in s.device ==> (Current(s.device, Apply(s, a).rows, a.key) <==> a.info == s.device[a.key].info)
  {
  }

  /** Other rows come out of an upsert as they would have, and the advert's own unless the
      upsert brings it. */
  lemma AdvertBeforeUpsert(s: State, a: Action)
    requires a.Advert? && s.stage.Answered? && DistinctKeys(s.stage.contacts)
    ensures forall k | k in s.device && k != a.key ::
              Current(s.device, Upcoming(Apply(s, a)), k) <==> Current(s.device, Upcoming(s), k)
    ensures a.key in s.device ==>
              (Current(s.device, Upcoming(Apply(s, a)), a.key) <==>
                 if Offers(s.stage.contacts, a.key) then Has(s.stage.contacts, a.key, s.device[a.key].info)
                 else a.info == s.device[a.key].info)
  {
    var contacts := s.stage.contacts;
    forall k
      ensures Offers(contacts, k) ==>
                k in Upcoming(Apply(s, a)) && k in Upcoming(s) && Upcoming(Apply(s, a))[k] == Upcoming(s)[k]
                && Has(contacts, k, Upcoming(s)[k])
      ensures !Offers(contacts, k) ==>
                && (k in Upcoming(Apply(s, a)) <==> k in Apply(s, a).rows)
                && (k in Apply(s, a).rows ==> Upcoming(Apply(s, a))[k] == Apply(s, a).rows[k])
                && (k in Upcoming(s) <==> k in s.rows) && (k in s.rows ==> Upcoming(s)[k] == s.rows[k])
    {
      if i :| 0 <= i < |contacts| && TableKey(contacts[i]) == k {
        UpsertedHas(s.rows, contacts, k, contacts[i].info);
        UpsertedHas(Apply(s, a).rows, contacts, k, contacts[i].info);
      } else {
        UpsertedNone(s.rows, contacts, k);
        UpsertedNone(Apply(s, a).rows, contacts, k);
      }
    }
    if a.key in s.device && Has(contacts, a.key, s.device[a.key].info) {
      UpsertedHas(s.rows, contacts, a.key, s.device[a.key].info);
    }
  }

  /** At every stage, an advert, whether or not it moves the marker, keeps what the runs keep
      exactly when it is harmless. */
  lemma AdvertKeepsInvIff(s: State, a: Action)
    requires Inv(s) && a.Advert?
    ensures Inv(Apply(s, a)) <==> Harmless(s, a)
  {
    if Harmless(s, a) {
      HarmlessKeepsInv(s, a);
    }
    if Inv(Apply(s, a)) {
      KeptIsHarmless(s, a);
    }
  }

  lemma HarmlessKeepsInv(s: State, a: Action)
    requires Inv(s) && a.Advert? && Harmless(s, a)
    ensures Inv(Apply(s, a))
  {
    AdvertKeepsOthers(s, a);
    if s.stage.Answered? {
      AdvertBeforeUpsert(s, a);
    }
  }

  lemma KeptIsHarmless(s: State, a: Action)
    requires Inv(s) && a.Advert? && Inv(Apply(s, a))
    ensures Harmless(s, a)
  {
    AdvertKeepsOthers(s, a);
    if s.stage.Answered? {
      AdvertBeforeUpsert(s, a);
    }
  }

  lemma OtherKeepsInv(s: State, a: Action)
    requires Inv(s) && Enabled(s, a) && (a.Remove? || a.Ask? || a.FailStage?)
    ensures Inv(Apply(s, a))
  {
    if a.Remove? {
      var s' := Apply(s, a);
      assert forall k | k in s'.device ::
          s'.device[k] == s.device[k] && (Current(s'.device, s.rows, k) <==> Current(s.device, s.rows, k));
    }
  }

  lemma {:induction false} RunKeepsInv(acts: seq<Action>)
    requires After(acts).Some? && Steady(acts)
    ensures Inv(After(acts).value)
  {
    if acts != [] {
      var n := |acts| - 1;
      var s, a := After(acts[..n]).value, acts[n];
      RunKeepsInv(acts[..n]);
      match a
      case Touch(_, _, _) => TouchKeepsInv(s, a);
      case Advert(_, _, _) => HarmlessKeepsInv(s, a);
      case Answer(_, _) => AnswerKeepsInv(s, a);
      case Upsert => UpsertKeepsInv(s);
      case SetMark => SetMarkKeepsInv(s);
      case _ => OtherKeepsInv(s, a);
    }
  }

  /** After any run of syncs, each completing or failing at any stage, with the device
      changing in between, every device contact whose mark the marker has reached is in
      the replica at its current version, unless a full refresh was left incomplete. */
  lemma ReplicaCovers(acts: seq<Action>)
    requires After(acts).Some? && Steady(acts) && !After(acts).value.broken
    ensures var s := After(acts).value; Covers(s.device, s.rows, s.marker)
  {
    RunKeepsInv(acts);
  }

  lemma Take(acts: seq<Action>, s: State, a: Action) returns (acts': seq<Action>, s': State)
    requires After(acts) == Some(s) && Enabled(s, a)
    ensures s' == Apply(s, a) && After(acts') == Some(s')
    ensures Steady(acts) && !a.Advert? && (a.Touch? ==> a.mark > s.clock) ==> Steady(acts')
  {
    acts', s' := acts + [a], Apply(s, a);
    assert acts'[..|acts|] == acts;
  }

  /** An advert that carries the newest mark makes the replica skip another contact: the
      marker claims it, and a later incremental sync is answered with nothing. */
  lemma AdvertSkipsContact(a: Key, b: Key, info: Info) returns (acts: seq<Action>, s: State)
    requires a != b
    ensures After(acts) == Some(s) && s.stage.Idle? && !s.broken
    ensures a in s.device && s.device[a].mark <= s.marker && a !in s.rows
    ensures Answers(s.device, s.marker, [], 0)
  {
    acts, s := Take([], Init, Touch(a, info, 1));
    acts, s := Take(acts, s, Touch(b, info, 2));
    acts, s := Take(acts, s, Advert(b, info, 2));
  }

  /** One contact, replicated by an incremental sync. */
  lemma OneContactSynced(a: Key, info: Info) returns (acts: seq<Action>, s: State)
    requires a != ""
    ensures After(acts) == Some(s) && Steady(acts)
    ensures s == State(map[a := Entry(info, 1)], 1, map[a := info], 1, Idle, false)
  {
    var c := Contact(a, info);
    acts, s := Take([], Init, Touch(a, info, 1));
    acts, s := Take(acts, s, Ask(false));
    assert [c][0] == c && Has([c], a, info);
    acts, s := Take(acts, s, Answer([c], 1));
    acts, s := Take(acts, s, Upsert);
    acts, s := Take(acts, s, SetMark);
    assert s.rows == map[a := info] by {
      assert [c][..0] == [];
      assert Upserted(map[], [c]) == map[][a := info];
    }
  }

  /** A full refresh that fails after clearing loses contacts the same way. */
  lemma FailedRefreshLosesContact(a: Key, info: Info) returns (acts: seq<Action>, s: State)
    requires a != ""
    ensures After(acts) == Some(s) && Steady(acts) && s.stage.Idle? && s.broken
    ensures a in s.device && s.device[a].mark <= s.marker && a !in s.rows
    ensures Answers(s.device, s.marker, [], 0)
  {
    acts, s := OneContactSynced(a, info);
    acts, s := Take(acts, s, Ask(true));
    acts, s := Take(acts, s, FailStage);
  }

  /** An advert between the answer and its storing is overwritten by the older version, and
      the marker it moved claims the contact: when the sync then fails, it stays old. */
  lemma LateUpsertLosesAdvert(a: Key, former: Info, latest: Info) returns (acts: seq<Action>, s: State)
    requires a != "" && former != latest
    ensures After(acts) == Some(s) && s.stage.Idle? && !s.broken
    ensures a in s.device && s.device[a].mark <= s.marker && !Current(s.device, s.rows, a)
    ensures Answers(s.device, s.marker, [], 0)
  {
    var c := Contact(a, former);
    acts, s := OldAnswered(a, former);
    acts, s := Take(acts, s, Touch(a, latest, 2));
    acts, s := Take(acts, s, Advert(a, latest, 2));
    UpsertedHas(s.rows, [c], a, former);
    acts, s := Take(acts, s, Upsert);
    acts, s := Take(acts, s, FailStage);
  }

  /** An answer with one contact, not yet stored. */
  lemma OldAnswered(a: Key, info: Info) returns (acts: seq<Action>, s: State)
    requires a != ""
    ensures After(acts) == Some(s)
    ensures s == State(map[a := Entry(info, 1)], 1, map[], 0, Answered(false, 0, [Contact(a, info)], 1), false)
    ensures Has([Contact(a, info)], a, info) && DistinctKeys([Contact(a, info)])
  {
    var c := Contact(a, info);
    acts, s := Take([], Init, Touch(a, info, 1));
    acts, s := Take(acts, s, Ask(false));
    assert [c][0] == c && Has([c], a, info);
    acts, s := Take(acts, s, Answer([c], 1));
  }

  /** The stages of a run, taken one after another with nothing in between, are the sync
      method, whatever the device streams and whichever call fails. */
  lemma StagesAreSync(acts: seq<Action>, s: State, full: bool, reply: Reply, fault: Fault)
    returns (acts': seq<Action>, s': State)
    requires After(acts) == Some(s) && s.stage.Idle?
    requires reply.Complete? ==> Answers(s.device, if full then 0 else s.marker, reply.contacts, reply.lastMod)
    ensures After(acts') == Some(s') && s'.stage.Idle? && s'.device == s.device
    ensures (s'.rows, s'.marker)
         == (Synced(s.rows, s.marker, full, reply, fault).0, Synced(s.rows, s.marker, full, reply, fault).1)
  {
    if (!full && fault.AtRead?) || (full && fault.AtClear?) {
      return acts, s;
    }
    acts', s' := Take(acts, s, Ask(full));
    if fault.AtStream? || !reply.Complete? {
      acts', s' := Take(acts', s', FailStage);
      return;
    }
    acts', s' := Take(acts', s', Answer(reply.contacts, reply.lastMod));
    if fault.AtUpsert? && reply.contacts != [] {
      acts', s' := Take(acts', s', FailStage);
      return;
    }
    acts', s' := Take(acts', s', Upsert);
    if fault.AtSetMark? && (reply.lastMod != 0 || full) {
      acts', s' := Take(acts', s', FailStage);
    } else {
      acts', s' := Take(acts', s', SetMark);
    }
  }
}
