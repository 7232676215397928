/**
 The companion packet decoder (protocol/companion/decode.go). Every slice the decoder
 takes is proved to lie inside the packet. Signal strengths are kept in quarter-dB,
 coordinates in millionths of a degree, keys and names as bytes, and a time as its
 32-bit number of seconds with 0 for "none".
 */
module Companion {
  import opened Common
  import PathHash

  datatype StatsBody =
    | NoStats
    | StatsCore(batteryMV: nat, uptime: nat, errorFlags: nat, queueLen: byte)
    | StatsRadio(noiseFloor: int, rssi: int, snr: int, txAir: nat, rxAir: nat)
    | StatsPackets(received: nat, sent: nat, floodTx: nat, directTx: nat, floodRx: nat, directRx: nat, errors: nat)

  const REPEATER_STATS_SIZE := 56

  datatype RepeaterStats = RepeaterStats(
    battMV: nat, txQueueLen: nat, noiseFloor: int, lastRSSI: int, packetsRecv: nat, packetsSent: nat,
    airTime: nat, upTime: nat, sentFlood: nat, sentDirect: nat, recvFlood: nat, recvDirect: nat,
    errEvents: nat, lastSNR: int, directDups: nat, floodDups: nat, rxAirTime: nat, recvErrors: nat)

  datatype Message =
    | OK
    | Err(code: byte)
    | SelfInfo(advType: byte, txPower: byte, maxTxPower: byte, publicKey: bytes, lat: int, lon: int,
               freq: nat, bw: nat, sf: byte, cr: byte, name: bytes)
    | DeviceInfo(firmware: byte, version: bytes, buildDate: bytes, model: bytes)
    | CurrentTime(secs: nat)
    | BatteryVoltage(mv: nat)
    | StatsResponse(typ: byte, stats: StatsBody)
    | ContactsStart(count: nat)
    | Contact(publicKey: bytes, typ: byte, flags: byte, hasPath: bool, outPathEnc: byte, outPath: bytes,
              name: bytes, lastAdvert: nat, lat: int, lon: int, lastMod: nat)
    | EndOfContacts(lastMod: nat)
    | ChannelInfo(index: byte, name: bytes, secret: bytes)
    | NoMoreMessages
    | Sent(result: byte, expectedAck: nat, timeoutMs: nat)
    | ContactMessage(sender: bytes, pathLen: byte, txtType: byte, timestamp: Option<nat>, snr: int, text: bytes)
    | ChannelMessage(channel: byte, pathLen: byte, txtType: byte, timestamp: Option<nat>, snr: int, text: bytes)
    | Advert(publicKey: bytes, name: bytes)
    | NewAdvert(contact: Message)
    | SendConfirmed(ack: nat, roundTripMs: nat)
    | MsgWaiting
    | TraceData(tag: nat, auth: nat, flags: byte, path: bytes, snrs: seq<int>)
    | ControlData(snr: int, rssi: int, pathLen: byte, payloadType: byte, payload: bytes)
    | NodeDiscoverResp(tag: nat, nodeType: byte, publicKey: bytes, snrUp: int, snrDown: int, rssi: int, pathLen: byte)
    | LoginSuccess(permissions: byte, prefix: bytes, serverTime: int, newPermissions: byte)
    | LoginFail(prefix: bytes)
    | StatusResponse(prefix: bytes, repeater: Option<RepeaterStats>, text: bytes)
    | RawMessage(typ: byte, payload: bytes, push: bool)

  /** Whether a message is a push rather than a reply. */
  predicate Async(m: Message) {
    match m
    case Advert(_, _) => true
    case NewAdvert(_) => true
    case SendConfirmed(_, _) => true
    case MsgWaiting => true
    case TraceData(_, _, _, _, _) => true
    case ControlData(_, _, _, _, _) => true
    case NodeDiscoverResp(_, _, _, _, _, _, _) => true
    case LoginSuccess(_, _, _, _) => true
    case LoginFail(_) => true
    case StatusResponse(_, _, _) => true
    case RawMessage(_, _, push) => push
    case _ => false
  }

  // ---------------------------------------------------------------------------
  // Fields
  // ---------------------------------------------------------------------------

  function U16(b: bytes, i: nat): nat
    requires i + 2 <= |b|
  {
    Uint16(b[i], b[i + 1])
  }

  function U32(b: bytes, i: nat): nat
    requires i + 4 <= |b|
  {
    U16(b, i) + 0x1_0000 * U16(b, i + 2)
  }

  function Int8(x: byte): int { if x < 0x80 then x else x as int - 0x100 }

  function Int16(x: nat): int { if x < 0x8000 then x else x - 0x1_0000 }

  function Int32(x: nat): int { if x < 0x8000_0000 then x else x - 0x1_0000_0000 }

  function ByteOr0(b: bytes, i: nat): byte { if i < |b| then b[i] else 0 }

  function U32Or0(b: bytes, i: nat): nat { if i + 4 <= |b| then U32(b, i) else 0 }

  function SliceOr(b: bytes, lo: nat, hi: nat): bytes
    requires lo <= hi
  {
    if hi <= |b| then b[lo..hi] else []
  }

  /** The bytes before the first NUL. */
  function TrimString(b: bytes): (r: bytes)
    ensures 0 !in r && r <= b && (|r| < |b| ==> b[|r|] == 0)
  {
    if b == [] || b[0] == 0 then [] else [b[0]] + TrimString(b[1..])
  }

  // ---------------------------------------------------------------------------
  // Device info: runs of printable characters
  // ---------------------------------------------------------------------------

  predicate Printable(c: byte) { 0x20 <= c < 0x7f }

  function TrimLeft(s: bytes): (r: bytes)
    ensures |r| <= |s| && r == s[|s| - |r|..] && (r != [] ==> r[0] != 0x20)
  {
    if s != [] && s[0] == 0x20 then TrimLeft(s[1..]) else s
  }

  function TrimRight(s: bytes): (r: bytes)
    ensures r <= s && (r != [] ==> r[|r| - 1] != 0x20)
  {
    if s != [] && s[|s| - 1] == 0x20 then TrimRight(s[..|s| - 1]) else s
  }

  function Flush(cur: bytes): seq<bytes> {
    var t := TrimRight(TrimLeft(cur));
    if |t| >= 2 then [t] else []
  }

  function Tokens(b: bytes, cur: bytes): seq<bytes> {
    if b == [] then Flush(cur)
    else if Printable(b[0]) then Tokens(b[1..], cur + [b[0]])
    else Flush(cur) + Tokens(b[1..], [])
  }

  lemma TokensStep(b: bytes, i: nat, cur: bytes, out: seq<bytes>)
    requires i < |b|
    ensures out + Tokens(b[i..], cur) ==
            if Printable(b[i]) then out + Tokens(b[i + 1..], cur + [b[i]])
            else out + Flush(cur) + Tokens(b[i + 1..], [])
  {
    assert b[i..][0] == b[i] && b[i..][1..] == b[i + 1..];
    if !Printable(b[i]) {
      var f, rest := Flush(cur), Tokens(b[i + 1..], []);
      assert out + (f + rest) == out + f + rest;
    }
  }

  method PrintableTokens(b: bytes) returns (out: seq<bytes>)
    ensures out == Tokens(b, [])
  {
    out := [];
    var cur: bytes := [];
    var i := 0;
    while i < |b|
      invariant 0 <= i <= |b| && out + Tokens(b[i..], cur) == Tokens(b, [])
    {
      TokensStep(b, i, cur, out);
      if Printable(b[i]) {
        cur := cur + [b[i]];
      } else {
        out := out + Flush(cur);
        cur := [];
      }
      i := i + 1;
    }
    assert Tokens(b[i..], cur) == Flush(cur);
    out := out + Flush(cur);
  }

  predicate GoodToken(t: bytes) {
    |t| >= 2 && t[0] != 0x20 && t[|t| - 1] != 0x20 && forall c | c in t :: Printable(c)
  }

  /** Every token has at least two characters, all printable, with no space at either end. */
  lemma {:induction false} TokensAreGood(b: bytes, cur: bytes)
    requires forall c | c in cur :: Printable(c)
    ensures forall t | t in Tokens(b, cur) :: GoodToken(t)
    decreases |b|
  {
    FlushIsGood(cur);
    if b != [] {
      TokensAreGood(b[1..], if Printable(b[0]) then cur + [b[0]] else []);
    }
  }

  lemma FlushIsGood(cur: bytes)
    requires forall c | c in cur :: Printable(c)
    ensures forall t | t in Flush(cur) :: GoodToken(t)
  {
    var l := TrimLeft(cur);
    assert forall c | c in l :: c in cur;
  }

  predicate IsDigit(c: byte) { 0x30 <= c <= 0x39 }

  predicate IsLetter(c: byte) { 0x61 <= c <= 0x7a || 0x41 <= c <= 0x5a }

  /** Reads the first character, so it must not be given an empty token. */
  predicate LooksLikeVersion(tok: bytes)
    requires tok != []
  {
    (|tok| >= 2 && (tok[0] == 0x76 || tok[0] == 0x56) && IsDigit(tok[1])) || (IsDigit(tok[0]) && 0x2e in tok)
  }

  predicate LooksLikeDate(tok: bytes) {
    0x2d in tok && exists c | c in tok :: IsLetter(c)
  }

  function Classify(toks: seq<bytes>, d: Message): Message
    requires d.DeviceInfo? && forall i | 0 <= i < |toks| :: toks[i] != []
    ensures Classify(toks, d).DeviceInfo?
  {
    if toks == [] then d
    else
      var t := toks[0];
      Classify(toks[1..],
               if LooksLikeVersion(t) then (if d.version == [] then d.(version := t) else d)
               else if LooksLikeDate(t) then (if d.buildDate == [] then d.(buildDate := t) else d)
               else if d.model == [] then d.(model := t) else d)
  }

  function DecodeDeviceInfo(b: bytes): Message {
    TokensAreGood(b, []);
    assert forall i | 0 <= i < |Tokens(b, [])| :: Tokens(b, [])[i] in Tokens(b, []);
    Classify(Tokens(b, []), DeviceInfo(ByteOr0(b, 0), [], [], []))
  }

  // ---------------------------------------------------------------------------
  // Traces
  // ---------------------------------------------------------------------------

  function Quarters(b: bytes): (r: seq<int>)
    ensures |r| == |b| && forall i | 0 <= i < |b| :: r[i] == Int8(b[i])
  {
    seq(|b|, i requires 0 <= i < |b| => Int8(b[i]))
  }

  function TraceDataOf(b: bytes): Message {
    if |b| < 11 then TraceData(0, 0, 0, [], [])
    else
      var pathEnd := Min(11 + b[1] as int, |b|);
      var snrEnd := Min(pathEnd + b[1] as int / PathHash.HashSizeFromTraceFlags(b[2]), |b|);
      TraceData(U32(b, 3), U32(b, 7), b[2], b[11..pathEnd], Quarters(b[pathEnd..Min(snrEnd + 1, |b|)]))
  }

  method DecodeTraceData(b: bytes) returns (t: Message)
    ensures t == TraceDataOf(b)
  {
    t := TraceData(0, 0, 0, [], []);
    if |b| < 11 {
      return;
    }
    var pathEnd: nat := 11 + b[1] as int;
    if pathEnd > |b| {
      pathEnd := |b|;
    }
    var snrEnd: nat := pathEnd + b[1] as int / PathHash.HashSizeFromTraceFlags(b[2]);
    if snrEnd > |b| {
      snrEnd := |b|;
    }
    var snrs: seq<int> := [];
    for i := pathEnd to snrEnd
      invariant snrs == Quarters(b[pathEnd..i])
    {
      assert b[pathEnd..i + 1] == b[pathEnd..i] + [b[i]];
      snrs := snrs + [Int8(b[i])];
    }
    if snrEnd < |b| {
      assert b[pathEnd..snrEnd + 1] == b[pathEnd..snrEnd] + [b[snrEnd]];
      snrs := snrs + [Int8(b[snrEnd])];
    }
    t := TraceData(U32(b, 3), U32(b, 7), b[2], b[11..pathEnd], snrs);
  }

  /** The little-endian bytes of a number. */
  function LE16(x: nat): (b: bytes)
    requires x < 0x1_0000
    ensures |b| == 2 && b[0] as nat + 0x100 * b[1] as nat == x
  {
    [x % 0x100, x / 0x100]
  }

  function LE32(x: nat): (b: bytes)
    requires x < 0x1_0000_0000
    ensures |b| == 4
    ensures b[0] as nat + 0x100 * b[1] as nat + 0x1_0000 * b[2] as nat + 0x100_0000 * b[3] as nat == x
  {
    var x1 := x / 0x100;
    var x2 := x1 / 0x100;
    var x3 := x2 / 0x100;
    assert x == x % 0x100 + 0x100 * x1 && x1 == x1 % 0x100 + 0x100 * x2 && x2 == x2 % 0x100 + 0x100 * x3;
    [x % 0x100, x1 % 0x100, x2 % 0x100, x3]
  }

  lemma LE32RoundTrip(x: nat, pre: bytes, post: bytes)
    requires x < 0x1_0000_0000
    ensures |pre| + 4 <= |pre + LE32(x) + post| && U32(pre + LE32(x) + post, |pre|) == x
  {
    var b, f := pre + LE32(x) + post, LE32(x);
    assert b[|pre|] == f[0] && b[|pre| + 1] == f[1] && b[|pre| + 2] == f[2] && b[|pre| + 3] == f[3];
  }

  /** A trace push as the firmware lays it out: path, then one SNR per hop and one more. */
  function TracePush(tag: nat, auth: nat, flags: byte, path: bytes, snrs: bytes): bytes
    requires tag < 0x1_0000_0000 && auth < 0x1_0000_0000 && |path| < 0x100
  {
    [0, |path|, flags] + LE32(tag) + LE32(auth) + path + snrs
  }

  /** Decoding such a push gives back every field and, for `n` hops, `n + 1` SNRs. */
  lemma TracePushDecodes(tag: nat, auth: nat, flags: byte, path: bytes, snrs: bytes)
    requires tag < 0x1_0000_0000 && auth < 0x1_0000_0000 && |path| < 0x100
    requires |snrs| == |path| / PathHash.HashSizeFromTraceFlags(flags) + 1
    ensures TraceDataOf(TracePush(tag, auth, flags, path, snrs)) == TraceData(tag, auth, flags, path, Quarters(snrs))
  {
    var b := TracePush(tag, auth, flags, path, snrs);
    var head: bytes := [0, |path|, flags];
    assert b == head + LE32(tag) + (LE32(auth) + path + snrs);
    LE32RoundTrip(tag, head, LE32(auth) + path + snrs);
    assert b == (head + LE32(tag)) + LE32(auth) + (path + snrs);
    LE32RoundTrip(auth, head + LE32(tag), path + snrs);
    assert b[1] == |path| && b[2] == flags;
    assert b[11..11 + |path|] == path;
    assert b[11 + |path|..] == snrs;
    assert b[11 + |path|..|b|] == snrs;
  }

  // ---------------------------------------------------------------------------
  // The other packets
  // ---------------------------------------------------------------------------

  function DecodeStats(b: bytes): Message {
    if b == [] then StatsResponse(0, NoStats)
    else
      var body := b[1..];
      StatsResponse(b[0],
                    if b[0] == 0 && |body| >= 9 then
                      StatsCore(U16(body, 0), U32(body, 2), U16(body, 6), body[8])
                    else if b[0] == 1 && |body| >= 12 then
                      StatsRadio(Int16(U16(body, 0)), Int8(body[2]), Int8(body[3]), U32(body, 4), U32(body, 8))
                    else if b[0] == 2 && |body| >= 28 then
                      StatsPackets(U32(body, 0), U32(body, 4), U32(body, 8), U32(body, 12), U32(body, 16),
                                   U32(body, 20), U32(body, 24))
                    else NoStats)
  }

  function DecodeSelfInfo(b: bytes): Message {
    SelfInfo(ByteOr0(b, 0), ByteOr0(b, 1), ByteOr0(b, 2), SliceOr(b, 3, 35), Int32(U32Or0(b, 35)), Int32(U32Or0(b, 39)),
             U32Or0(b, 47), U32Or0(b, 51), ByteOr0(b, 55), ByteOr0(b, 56), if |b| > 57 then TrimString(b[57..]) else [])
  }

  function DecodeContact(b: bytes): Message {
    Contact(SliceOr(b, 0, 32), ByteOr0(b, 32), ByteOr0(b, 33), |b| > 34 && b[34] != 0xff, ByteOr0(b, 34),
            SliceOr(b, 35, 99), TrimString(SliceOr(b, 99, 131)), U32Or0(b, 131),
            Int32(U32Or0(b, 135)), Int32(U32Or0(b, 139)), U32Or0(b, 143))
  }

  function DecodeChannelInfo(b: bytes): Message {
    ChannelInfo(ByteOr0(b, 0), TrimString(SliceOr(b, 1, 33)), SliceOr(b, 33, 49))
  }

  function DecodeSent(b: bytes): Message {
    Sent(ByteOr0(b, 0), U32Or0(b, 1), U32Or0(b, 5))
  }

  function TimeAt(b: bytes, i: nat): Option<nat> { if i + 4 <= |b| then Some(U32(b, i)) else None }

  function DecodeContactMessage(b: bytes, v3: bool): Message {
    var off := if v3 then 3 else 0;
    var txtType := ByteOr0(b, off + 7);
    var textOff := if txtType == 2 && |b| >= off + 16 then off + 16 else off + 12;
    ContactMessage(SliceOr(b, off, off + 6), ByteOr0(b, off + 6), txtType, TimeAt(b, off + 8),
                   if v3 then Int8(ByteOr0(b, 0)) else 0, if |b| > textOff then TrimString(b[textOff..]) else [])
  }

  function DecodeChannelMessage(b: bytes, v3: bool): Message {
    var off := if v3 then 3 else 0;
    ChannelMessage(ByteOr0(b, off), ByteOr0(b, off + 1), ByteOr0(b, off + 2), TimeAt(b, off + 3),
                   if v3 then Int8(ByteOr0(b, 0)) else 0, if |b| > off + 7 then TrimString(b[off + 7..]) else [])
  }

  function DecodeAdvert(b: bytes): Message {
    if |b| >= 32 then Advert(b[..32], TrimString(b[32..])) else Advert([], TrimString(b))
  }

  function DecodeControlData(b: bytes): Message {
    if |b| < 4 then RawMessage(0x8e, b, true)
    else
      var payload := b[3..];
      if payload[0] as int / 16 == 9 then
        var key := if |payload| > 6 then payload[6..] else [];
        NodeDiscoverResp(if |payload| >= 6 then U32(payload, 2) else 0, payload[0] % 16,
                         if |key| >= 32 then key[..32] else if |key| >= 8 then key[..8] else key,
                         if |payload| >= 2 then Int8(payload[1]) else 0, Int8(b[0]), Int8(b[1]), b[2])
      else ControlData(Int8(b[0]), Int8(b[1]), b[2], payload[0], payload[1..])
  }

  function DecodeLoginSuccess(b: bytes): Message {
    LoginSuccess(ByteOr0(b, 0), SliceOr(b, 1, 7), Int32(U32Or0(b, 7)), ByteOr0(b, 11))
  }

  /** The binary payload of a status request; None when it is too short for one. */
  function ParseRepeaterStats(b: bytes): Option<RepeaterStats> {
    if |b| < REPEATER_STATS_SIZE then None
    else
      Some(RepeaterStats(
             U16(b, 0), U16(b, 2), Int16(U16(b, 4)), Int16(U16(b, 6)), U32(b, 8), U32(b, 12), U32(b, 16), U32(b, 20),
             U32(b, 24), U32(b, 28), U32(b, 32), U32(b, 36), U16(b, 40), Int16(U16(b, 42)), U16(b, 44), U16(b, 46),
             U32(b, 48), U32(b, 52)))
  }

  function DecodeStatus(b: bytes): Message {
    var prefix := SliceOr(b, 1, 7);
    if |b| <= 7 then StatusResponse(prefix, None, [])
    else
      match ParseRepeaterStats(b[7..])
      case Some(stats) => StatusResponse(prefix, Some(stats), [])
      case None => StatusResponse(prefix, None, TrimString(b[7..]))
  }

  predicate IsPush(code: byte) { code >= 0x80 }

  function Decode(packet: bytes): Message {
    if packet == [] then RawMessage(0, [], false)
    else
      var code, body := packet[0], packet[1..];
      match code as int
      case 0 => OK
      case 1 => Err(ByteOr0(body, 0))
      case 2 => ContactsStart(U32Or0(body, 0))
      case 3 => DecodeContact(body)
      case 4 => EndOfContacts(U32Or0(body, 0))
      case 5 => DecodeSelfInfo(body)
      case 6 => DecodeSent(body)
      case 7 => DecodeContactMessage(body, false)
      case 8 => DecodeChannelMessage(body, false)
      case 9 => if |body| < 4 then RawMessage(code, body, false) else CurrentTime(U32(body, 0))
      case 10 => NoMoreMessages
      case 12 => if |body| < 2 then RawMessage(code, body, false) else BatteryVoltage(U16(body, 0))
      case 13 => DecodeDeviceInfo(body)
      case 16 => DecodeContactMessage(body, true)
      case 17 => DecodeChannelMessage(body, true)
      case 18 => DecodeChannelInfo(body)
      case 24 => DecodeStats(body)
      case 0x80 => DecodeAdvert(body)
      case 0x82 => SendConfirmed(U32Or0(body, 0), U32Or0(body, 4))
      case 0x83 => MsgWaiting
      case 0x85 => DecodeLoginSuccess(body)
      case 0x86 => LoginFail(SliceOr(body, 1, 7))
      case 0x87 => DecodeStatus(body)
      case 0x89 => TraceDataOf(body)
      case 0x8A => NewAdvert(DecodeContact(body))
      case 0x8E => DecodeControlData(body)
      case _ => RawMessage(code, body, IsPush(code))
  }

  /** For every packet, its message is a push exactly when its first byte has the high bit
      set; an empty packet is none. */
  lemma AsyncIffHighBit(packet: bytes)
    ensures Async(Decode(packet)) <==> packet != [] && packet[0] >= 0x80
  {
    if packet != [] {
      if packet[0] < 8 {
        LowReply(packet);
      } else if packet[0] < 0x80 {
        HighReply(packet);
      } else {
        Push(packet);
      }
    }
  }

  lemma LowReply(packet: bytes)
    requires packet != [] && packet[0] < 8
    ensures !Async(Decode(packet))
  {
  }

  lemma HighReply(packet: bytes)
    requires packet != [] && 8 <= packet[0] < 0x80
    ensures !Async(Decode(packet))
  {
    assert DecodeDeviceInfo(packet[1..]).DeviceInfo?;
  }

  lemma Push(packet: bytes)
    requires packet != [] && packet[0] >= 0x80
    ensures Async(Decode(packet))
  {
  }
}
