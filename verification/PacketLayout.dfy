/**
 What the companion decoder reads from where (protocol/companion/decode.go): for each packet
 code, the decoded message given where its fields lie in a packet `p`, and for every
 non-empty prefix `q` of it, that is for the packet cut at any byte. Offsets count from the
 code byte.
 */
module PacketLayout {
  import opened Common
  import opened Companion
  import PathHash

  /** The packet has `f` at offset `i`. */
  predicate At(p: bytes, i: nat, f: bytes) {
    i + |f| <= |p| && p[i..i + |f|] == f
  }

  /** A text from offset `i` to the end of the packet or to a NUL. */
  predicate TextAt(p: bytes, i: nat, text: bytes) {
    At(p, i, text) && 0 !in text && (i + |text| < |p| ==> p[i + |text|] == 0)
  }

  /** A text in a field of `w` bytes, padded with a NUL if it is shorter. */
  predicate NameAt(p: bytes, i: nat, w: nat, name: bytes) {
    && |name| <= w && i + w <= |p| && At(p, i, name) && 0 !in name
    && (|name| < w ==> p[i + |name|] == 0)
  }

  predicate IsU16(x: int) { 0 <= x < 0x1_0000 }

  predicate IsU32(x: int) { 0 <= x < 0x1_0000_0000 }

  predicate IsI8(x: int) { -0x80 <= x < 0x80 }

  predicate IsI16(x: int) { -0x8000 <= x < 0x8000 }

  predicate IsI32(x: int) { -0x8000_0000 <= x < 0x8000_0000 }

  /** Two's complement. */
  function B8(x: int): byte
    requires IsI8(x)
  {
    if x < 0 then x + 0x100 else x
  }

  function S16(x: int): bytes
    requires IsI16(x)
  {
    LE16(if x < 0 then x + 0x1_0000 else x)
  }

  function S32(x: int): bytes
    requires IsI32(x)
  {
    LE32(if x < 0 then x + 0x1_0000_0000 else x)
  }

  predicate Cut(q: bytes, p: bytes) {
    q <= p && q != []
  }

  /** The part of a text at offset `i` that is left of the packet. */
  function Left(q: bytes, i: nat, text: bytes): bytes {
    if |q| <= i then [] else text[..Min(|text|, |q| - i)]
  }

  // ---------------------------------------------------------------------------
  // One field
  // ---------------------------------------------------------------------------

  lemma Read16(b: bytes, i: nat, x: nat)
    requires IsU16(x) && At(b, i, LE16(x))
    ensures U16(b, i) == x
  {
    assert b[i] == b[i..i + 2][0] && b[i + 1] == b[i..i + 2][1];
  }

  lemma Read32(b: bytes, i: nat, x: nat)
    requires IsU32(x) && At(b, i, LE32(x))
    ensures U32(b, i) == x
  {
    var f := b[i..i + 4];
    assert b[i] == f[0] && b[i + 1] == f[1] && b[i + 2] == f[2] && b[i + 3] == f[3];
  }

  lemma AtBody(q: bytes, p: bytes, i: nat, f: bytes)
    requires Cut(q, p) && 1 <= i && At(p, i, f) && i + |f| <= |q|
    ensures At(q[1..], i - 1, f)
  {
    assert q[1..][i - 1..i - 1 + |f|] == q[i..i + |f|] == p[i..i + |f|];
  }

  lemma Cut16(q: bytes, p: bytes, i: nat, x: nat)
    requires Cut(q, p) && 1 <= i && IsU16(x) && At(p, i, LE16(x)) && i + 2 <= |q|
    ensures U16(q[1..], i - 1) == x
  {
    AtBody(q, p, i, LE16(x));
    Read16(q[1..], i - 1, x);
  }

  lemma Cut32(q: bytes, p: bytes, i: nat, x: nat)
    requires Cut(q, p) && 1 <= i && IsU32(x) && At(p, i, LE32(x))
    ensures U32Or0(q[1..], i - 1) == if i + 4 <= |q| then x else 0
  {
    if i + 4 <= |q| {
      AtBody(q, p, i, LE32(x));
      Read32(q[1..], i - 1, x);
    }
  }

  lemma CutS32(q: bytes, p: bytes, i: nat, x: int)
    requires Cut(q, p) && 1 <= i && IsI32(x) && At(p, i, S32(x))
    ensures Int32(U32Or0(q[1..], i - 1)) == if i + 4 <= |q| then x else 0
  {
    Cut32(q, p, i, if x < 0 then x + 0x1_0000_0000 else x);
  }

  lemma Cut8(q: bytes, p: bytes, i: nat, x: byte)
    requires Cut(q, p) && 1 <= i && At(p, i, [x])
    ensures ByteOr0(q[1..], i - 1) == if i < |q| then x else 0
  {
    assert p[i] == p[i..i + 1][0];
  }

  lemma CutSlice(q: bytes, p: bytes, i: nat, f: bytes)
    requires Cut(q, p) && 1 <= i && At(p, i, f)
    ensures SliceOr(q[1..], i - 1, i - 1 + |f|) == if i + |f| <= |q| then f else []
  {
    if i + |f| <= |q| {
      AtBody(q, p, i, f);
    }
  }

  /** The same, read from the part of the packet after `off`. */
  lemma From16(q: bytes, p: bytes, off: nat, i: nat, x: nat)
    requires Cut(q, p) && off <= i && IsU16(x) && At(p, i, LE16(x)) && i + 2 <= |q|
    ensures U16(q[off..], i - off) == x
  {
    var b := q[off..];
    assert b[i - off..i - off + 2] == q[i..i + 2] == p[i..i + 2];
    Read16(b, i - off, x);
  }

  lemma FromS16(q: bytes, p: bytes, off: nat, i: nat, x: int)
    requires Cut(q, p) && off <= i && IsI16(x) && At(p, i, S16(x)) && i + 2 <= |q|
    ensures Int16(U16(q[off..], i - off)) == x
  {
    From16(q, p, off, i, if x < 0 then x + 0x1_0000 else x);
  }

  lemma From32(q: bytes, p: bytes, off: nat, i: nat, x: nat)
    requires Cut(q, p) && off <= i && IsU32(x) && At(p, i, LE32(x)) && i + 4 <= |q|
    ensures U32(q[off..], i - off) == x
  {
    var b := q[off..];
    assert b[i - off..i - off + 4] == q[i..i + 4] == p[i..i + 4];
    Read32(b, i - off, x);
  }

  lemma {:induction false} TrimExact(b: bytes, text: bytes)
    requires text <= b && 0 !in text && (|text| < |b| ==> b[|text|] == 0)
    ensures TrimString(b) == text
  {
    if text != [] {
      TrimExact(b[1..], text[1..]);
    }
  }

  lemma CutText(q: bytes, p: bytes, i: nat, text: bytes)
    requires Cut(q, p) && 1 <= i && TextAt(p, i, text)
    ensures (if |q| > i then TrimString(q[i..]) else []) == Left(q, i, text)
  {
    if |q| > i {
      var t := Left(q, i, text);
      assert q[i..][..|t|] == p[i..i + |text|][..|t|] == t;
      TrimExact(q[i..], t);
    }
  }

  lemma SubPrefix(p: bytes, i: nat, w: nat, n: nat)
    requires n <= w && i + w <= |p|
    ensures p[i..i + w][..n] == p[i..i + n]
  {
  }

  lemma NameField(p: bytes, i: nat, w: nat, name: bytes)
    requires NameAt(p, i, w, name)
    ensures TrimString(p[i..i + w]) == name
  {
    var f := p[i..i + w];
    SubPrefix(p, i, w, |name|);
    assert |name| < w ==> f[|name|] == p[i + |name|];
    TrimExact(f, name);
  }

  lemma DropTwice(q: bytes, n: nat)
    requires 1 + n <= |q|
    ensures q[1..][n..] == q[1 + n..]
  {
  }

  lemma CutField(q: bytes, p: bytes, i: nat, w: nat)
    requires Cut(q, p) && 1 <= i && i + w <= |p|
    ensures SliceOr(q[1..], i - 1, i - 1 + w) == if i + w <= |q| then p[i..i + w] else []
  {
    var f := p[i..i + w];
    assert At(p, i, f);
    CutSlice(q, p, i, f);
  }

  lemma CutName(q: bytes, p: bytes, i: nat, w: nat, name: bytes)
    requires Cut(q, p) && 1 <= i && NameAt(p, i, w, name)
    ensures TrimString(SliceOr(q[1..], i - 1, i - 1 + w)) == if i + w <= |q| then name else []
  {
    NameField(p, i, w, name);
    CutField(q, p, i, w);
  }

  // ---------------------------------------------------------------------------
  // Replies
  // ---------------------------------------------------------------------------

  /** Packets without fields, packets of one number, and packets that are kept as they are. */
  lemma PlainLayout(q: bytes)
    requires q != []
    ensures q[0] == 0 ==> Decode(q) == OK
    ensures q[0] == 10 ==> Decode(q) == NoMoreMessages
    ensures q[0] == 0x83 ==> Decode(q) == MsgWaiting
    ensures q[0] == 1 ==> Decode(q) == Err(if |q| >= 2 then q[1] else 0)
    ensures q[0] == 9 && |q| < 5 ==> Decode(q) == RawMessage(9, q[1..], false)
    ensures q[0] == 12 && |q| < 3 ==> Decode(q) == RawMessage(12, q[1..], false)
    ensures q[0] in {11, 14, 15} || 19 <= q[0] <= 23 || 25 <= q[0] < 0x80 ==>
              Decode(q) == RawMessage(q[0], q[1..], false)
    ensures q[0] in {0x81, 0x84, 0x88, 0x8b, 0x8c, 0x8d} || q[0] > 0x8e ==>
              Decode(q) == RawMessage(q[0], q[1..], true)
  {
  }

  lemma NumberLayout(p: bytes, q: bytes, x: nat)
    requires Cut(q, p) && IsU32(x) && At(p, 1, LE32(x))
    ensures p[0] == 2 ==> Decode(q) == ContactsStart(if |q| >= 5 then x else 0)
    ensures p[0] == 4 ==> Decode(q) == EndOfContacts(if |q| >= 5 then x else 0)
    ensures p[0] == 9 && |q| >= 5 ==> Decode(q) == CurrentTime(x)
  {
    Cut32(q, p, 1, x);
  }

  lemma BatteryLayout(p: bytes, q: bytes, mv: nat)
    requires Cut(q, p) && IsU16(mv) && p[0] == 12 && At(p, 1, LE16(mv)) && |q| >= 3
    ensures Decode(q) == BatteryVoltage(mv)
  {
    Cut16(q, p, 1, mv);
  }

  lemma SentLayout(p: bytes, q: bytes, result: byte, ack: nat, ms: nat)
    requires Cut(q, p) && IsU32(ack) && IsU32(ms)
    requires At(p, 0, [6, result]) && At(p, 2, LE32(ack)) && At(p, 6, LE32(ms))
    ensures Decode(q) == Sent(if |q| >= 2 then result else 0, if |q| >= 6 then ack else 0, if |q| >= 10 then ms else 0)
  {
    assert p[0] == p[0..2][0] && p[1] == p[0..2][1];
    Cut32(q, p, 2, ack);
    Cut32(q, p, 6, ms);
  }

  lemma ContactHead(p: bytes, q: bytes, key: bytes, typ: byte, flags: byte, enc: byte, path: bytes)
    requires Cut(q, p) && |key| == 32 && |path| == 64
    requires At(p, 1, key) && At(p, 33, [typ]) && At(p, 34, [flags]) && At(p, 35, [enc]) && At(p, 36, path)
    ensures var c := DecodeContact(q[1..]);
            && c.publicKey == (if |q| >= 33 then key else []) && c.typ == (if |q| > 33 then typ else 0)
            && c.flags == (if |q| > 34 then flags else 0) && c.outPathEnc == (if |q| > 35 then enc else 0)
            && c.hasPath == (|q| > 35 && enc != 0xff) && c.outPath == (if |q| >= 100 then path else [])
  {
    CutSlice(q, p, 1, key);
    Cut8(q, p, 33, typ);
    Cut8(q, p, 34, flags);
    Cut8(q, p, 35, enc);
    CutSlice(q, p, 36, path);
  }

  lemma ContactTail(p: bytes, q: bytes, name: bytes, lastAdvert: nat, lat: int, lon: int, lastMod: nat)
    requires Cut(q, p) && IsU32(lastAdvert) && IsI32(lat) && IsI32(lon) && IsU32(lastMod)
    requires NameAt(p, 100, 32, name) && At(p, 132, LE32(lastAdvert)) && At(p, 136, S32(lat)) && At(p, 140, S32(lon))
    requires At(p, 144, LE32(lastMod))
    ensures var c := DecodeContact(q[1..]);
            && c.name == (if |q| >= 132 then name else []) && c.lastAdvert == (if |q| >= 136 then lastAdvert else 0)
            && c.lat == (if |q| >= 140 then lat else 0) && c.lon == (if |q| >= 144 then lon else 0)
            && c.lastMod == (if |q| >= 148 then lastMod else 0)
  {
    CutName(q, p, 100, 32, name);
    Cut32(q, p, 132, lastAdvert);
    CutS32(q, p, 136, lat);
    CutS32(q, p, 140, lon);
    Cut32(q, p, 144, lastMod);
  }

  /** A contact, and the advert that announces one. */
  lemma ContactLayout(
      p: bytes, q: bytes, key: bytes, typ: byte, flags: byte, enc: byte, path: bytes, name: bytes,
      lastAdvert: nat, lat: int, lon: int, lastMod: nat)
    requires Cut(q, p) && (p[0] == 3 || p[0] == 0x8a)
    requires |key| == 32 && |path| == 64 && IsU32(lastAdvert) && IsI32(lat) && IsI32(lon) && IsU32(lastMod)
    requires At(p, 1, key) && At(p, 33, [typ]) && At(p, 34, [flags]) && At(p, 35, [enc]) && At(p, 36, path)
    requires NameAt(p, 100, 32, name) && At(p, 132, LE32(lastAdvert)) && At(p, 136, S32(lat)) && At(p, 140, S32(lon))
    requires At(p, 144, LE32(lastMod))
    ensures var c := if p[0] == 0x8a && Decode(q).NewAdvert? then Decode(q).contact else Decode(q);
            && (p[0] == 0x8a ==> Decode(q).NewAdvert?) && c.Contact?
            && c.publicKey == (if |q| >= 33 then key else []) && c.typ == (if |q| > 33 then typ else 0)
            && c.flags == (if |q| > 34 then flags else 0) && c.outPathEnc == (if |q| > 35 then enc else 0)
            && c.hasPath == (|q| > 35 && enc != 0xff) && c.outPath == (if |q| >= 100 then path else [])
            && c.name == (if |q| >= 132 then name else []) && c.lastAdvert == (if |q| >= 136 then lastAdvert else 0)
            && c.lat == (if |q| >= 140 then lat else 0) && c.lon == (if |q| >= 144 then lon else 0)
            && c.lastMod == (if |q| >= 148 then lastMod else 0)
  {
    ContactHead(p, q, key, typ, flags, enc, path);
    ContactTail(p, q, name, lastAdvert, lat, lon, lastMod);
  }

  lemma SelfInfoHead(
      p: bytes, q: bytes, advType: byte, txPower: byte, maxTxPower: byte, key: bytes, lat: int, lon: int)
    requires Cut(q, p) && |key| == 32 && IsI32(lat) && IsI32(lon)
    requires At(p, 1, [advType]) && At(p, 2, [txPower]) && At(p, 3, [maxTxPower]) && At(p, 4, key)
    requires At(p, 36, S32(lat)) && At(p, 40, S32(lon))
    ensures var m := DecodeSelfInfo(q[1..]);
            && m.advType == (if |q| > 1 then advType else 0) && m.txPower == (if |q| > 2 then txPower else 0)
            && m.maxTxPower == (if |q| > 3 then maxTxPower else 0) && m.publicKey == (if |q| >= 36 then key else [])
            && m.lat == (if |q| >= 40 then lat else 0) && m.lon == (if |q| >= 44 then lon else 0)
  {
    Cut8(q, p, 1, advType);
    Cut8(q, p, 2, txPower);
    Cut8(q, p, 3, maxTxPower);
    CutSlice(q, p, 4, key);
    CutS32(q, p, 36, lat);
    CutS32(q, p, 40, lon);
  }

  lemma SelfInfoTail(p: bytes, q: bytes, freq: nat, bw: nat, sf: byte, cr: byte, name: bytes)
    requires Cut(q, p) && IsU32(freq) && IsU32(bw)
    requires At(p, 48, LE32(freq)) && At(p, 52, LE32(bw)) && At(p, 56, [sf]) && At(p, 57, [cr]) && TextAt(p, 58, name)
    ensures var m := DecodeSelfInfo(q[1..]);
            && m.freq == (if |q| >= 52 then freq else 0) && m.bw == (if |q| >= 56 then bw else 0)
            && m.sf == (if |q| > 56 then sf else 0) && m.cr == (if |q| > 57 then cr else 0)
            && m.name == Left(q, 58, name)
  {
    Cut32(q, p, 48, freq);
    Cut32(q, p, 52, bw);
    Cut8(q, p, 56, sf);
    Cut8(q, p, 57, cr);
    CutText(q, p, 58, name);
    assert |q| > 58 ==> q[1..][57..] == q[58..];
  }

  lemma SelfInfoLayout(
      p: bytes, q: bytes, advType: byte, txPower: byte, maxTxPower: byte, key: bytes, lat: int, lon: int,
      freq: nat, bw: nat, sf: byte, cr: byte, name: bytes)
    requires Cut(q, p) && |key| == 32 && IsI32(lat) && IsI32(lon) && IsU32(freq) && IsU32(bw)
    requires p[0] == 5 && At(p, 1, [advType]) && At(p, 2, [txPower]) && At(p, 3, [maxTxPower]) && At(p, 4, key)
    requires At(p, 36, S32(lat)) && At(p, 40, S32(lon)) && At(p, 48, LE32(freq)) && At(p, 52, LE32(bw))
    requires At(p, 56, [sf]) && At(p, 57, [cr]) && TextAt(p, 58, name)
    ensures Decode(q) == SelfInfo(
              if |q| > 1 then advType else 0, if |q| > 2 then txPower else 0, if |q| > 3 then maxTxPower else 0,
              if |q| >= 36 then key else [], if |q| >= 40 then lat else 0, if |q| >= 44 then lon else 0,
              if |q| >= 52 then freq else 0, if |q| >= 56 then bw else 0, if |q| > 56 then sf else 0,
              if |q| > 57 then cr else 0, Left(q, 58, name))
  {
    SelfInfoHead(p, q, advType, txPower, maxTxPower, key, lat, lon);
    SelfInfoTail(p, q, freq, bw, sf, cr, name);
  }

  lemma ChannelInfoLayout(p: bytes, q: bytes, index: byte, name: bytes, secret: bytes)
    requires Cut(q, p) && |secret| == 16
    requires p[0] == 18 && At(p, 1, [index]) && NameAt(p, 2, 32, name) && At(p, 34, secret)
    ensures Decode(q) == ChannelInfo(
              if |q| > 1 then index else 0, if |q| >= 34 then name else [], if |q| >= 50 then secret else [])
  {
    Cut8(q, p, 1, index);
    CutName(q, p, 2, 32, name);
    CutSlice(q, p, 34, secret);
  }

  // ---------------------------------------------------------------------------
  // Messages
  // ---------------------------------------------------------------------------

  /** Where the text of a contact message starts: after a signature if the message is signed
      and the packet holds one. `k` is 3 for the V3 layout and 0 for the other. */
  function TextStart(q: bytes, k: nat, txtType: byte): nat {
    if txtType == 2 && |q| >= 17 + k then 17 + k else 13 + k
  }

  lemma ContactMessageHead(p: bytes, q: bytes, k: nat, sender: bytes, pathLen: byte, txtType: byte, time: nat)
    requires Cut(q, p) && |sender| == 6 && IsU32(time) && k in {0, 3}
    requires At(p, 1 + k, sender) && At(p, 7 + k, [pathLen]) && At(p, 8 + k, [txtType]) && At(p, 9 + k, LE32(time))
    ensures var m := DecodeContactMessage(q[1..], k == 3);
            && m.sender == (if |q| >= 7 + k then sender else []) && m.pathLen == (if |q| > 7 + k then pathLen else 0)
            && m.txtType == (if |q| > 8 + k then txtType else 0)
            && m.timestamp == (if |q| >= 13 + k then Some(time) else None)
  {
    CutSlice(q, p, 1 + k, sender);
    Cut8(q, p, 7 + k, pathLen);
    Cut8(q, p, 8 + k, txtType);
    Cut32(q, p, 9 + k, time);
  }

  lemma ContactMessageText(p: bytes, q: bytes, k: nat, txtType: byte, text: bytes)
    requires Cut(q, p) && k in {0, 3} && At(p, 8 + k, [txtType]) && TextAt(p, TextStart(q, k, txtType), text)
    ensures DecodeContactMessage(q[1..], k == 3).text == Left(q, TextStart(q, k, txtType), text)
  {
    Cut8(q, p, 8 + k, txtType);
    var i := TextStart(q, k, txtType);
    CutText(q, p, i, text);
    assert |q| > i ==> q[1..][i - 1..] == q[i..];
  }

  lemma ContactMessageLayout(
      p: bytes, q: bytes, k: nat, snr: int, sender: bytes, pathLen: byte, txtType: byte, time: nat, text: bytes)
    requires Cut(q, p) && |sender| == 6 && IsI8(snr) && IsU32(time)
    requires (p[0] == 7 && k == 0 && snr == 0) || (p[0] == 16 && k == 3 && At(p, 1, [B8(snr)]))
    requires At(p, 1 + k, sender) && At(p, 7 + k, [pathLen]) && At(p, 8 + k, [txtType]) && At(p, 9 + k, LE32(time))
    requires TextAt(p, TextStart(q, k, txtType), text)
    ensures Decode(q) == ContactMessage(
              if |q| >= 7 + k then sender else [], if |q| > 7 + k then pathLen else 0,
              if |q| > 8 + k then txtType else 0, if |q| >= 13 + k then Some(time) else None,
              if |q| > 1 then snr else 0, Left(q, TextStart(q, k, txtType), text))
  {
    ContactMessageHead(p, q, k, sender, pathLen, txtType, time);
    ContactMessageText(p, q, k, txtType, text);
    if k == 3 {
      Cut8(q, p, 1, B8(snr));
    }
  }

  lemma ChannelMessageLayout(
      p: bytes, q: bytes, k: nat, snr: int, channel: byte, pathLen: byte, txtType: byte, time: nat, text: bytes)
    requires Cut(q, p) && IsI8(snr) && IsU32(time)
    requires (p[0] == 8 && k == 0 && snr == 0) || (p[0] == 17 && k == 3 && At(p, 1, [B8(snr)]))
    requires At(p, 1 + k, [channel]) && At(p, 2 + k, [pathLen]) && At(p, 3 + k, [txtType]) && At(p, 4 + k, LE32(time))
    requires TextAt(p, 8 + k, text)
    ensures Decode(q) == ChannelMessage(
              if |q| > 1 + k then channel else 0, if |q| > 2 + k then pathLen else 0,
              if |q| > 3 + k then txtType else 0, if |q| >= 8 + k then Some(time) else None,
              if |q| > 1 then snr else 0, Left(q, 8 + k, text))
  {
    Cut8(q, p, 1 + k, channel);
    Cut8(q, p, 2 + k, pathLen);
    Cut8(q, p, 3 + k, txtType);
    Cut32(q, p, 4 + k, time);
    CutText(q, p, 8 + k, text);
    if k == 3 {
      Cut8(q, p, 1, B8(snr));
    }
    assert |q| > 8 + k ==> q[1..][7 + k..] == q[8 + k..];
  }

  // ---------------------------------------------------------------------------
  // Statistics
  // ---------------------------------------------------------------------------

  /** Statistics of the core, and of a packet that is too short for its type or has none. */
  lemma StatsCoreLayout(p: bytes, q: bytes, mv: nat, uptime: nat, errors: nat, queue: byte)
    requires Cut(q, p) && IsU16(mv) && IsU32(uptime) && IsU16(errors)
    requires At(p, 0, [24, 0]) && At(p, 2, LE16(mv)) && At(p, 4, LE32(uptime)) && At(p, 8, LE16(errors))
    requires At(p, 10, [queue])
    ensures Decode(q) == StatsResponse(0, if |q| >= 11 then StatsCore(mv, uptime, errors, queue) else NoStats)
  {
    assert p[0] == p[0..2][0] && p[1] == p[0..2][1] && p[10] == p[10..11][0];
    if |q| >= 11 {
      assert q[1..][1..] == q[2..];
      From16(q, p, 2, 2, mv);
      From32(q, p, 2, 4, uptime);
      From16(q, p, 2, 8, errors);
    }
  }

  lemma StatsRadioLayout(p: bytes, q: bytes, noise: int, rssi: int, snr: int, txAir: nat, rxAir: nat)
    requires Cut(q, p) && IsI16(noise) && IsI8(rssi) && IsI8(snr) && IsU32(txAir) && IsU32(rxAir)
    requires At(p, 0, [24, 1]) && At(p, 2, S16(noise)) && At(p, 4, [B8(rssi), B8(snr)])
    requires At(p, 6, LE32(txAir)) && At(p, 10, LE32(rxAir))
    ensures Decode(q) == StatsResponse(
              if |q| >= 2 then 1 else 0, if |q| >= 14 then StatsRadio(noise, rssi, snr, txAir, rxAir) else NoStats)
  {
    assert p[0] == p[0..2][0] && p[1] == p[0..2][1] && p[4] == p[4..6][0] && p[5] == p[4..6][1];
    if |q| >= 14 {
      assert q[1..][1..] == q[2..];
      FromS16(q, p, 2, 2, noise);
      From32(q, p, 2, 6, txAir);
      From32(q, p, 2, 10, rxAir);
    }
  }

  lemma StatsPacketsLayout(
      p: bytes, q: bytes, received: nat, sent: nat, floodTx: nat, directTx: nat, floodRx: nat, directRx: nat,
      errors: nat)
    requires Cut(q, p) && IsU32(received) && IsU32(sent) && IsU32(floodTx) && IsU32(directTx)
    requires IsU32(floodRx) && IsU32(directRx) && IsU32(errors)
    requires At(p, 0, [24, 2]) && At(p, 2, LE32(received)) && At(p, 6, LE32(sent)) && At(p, 10, LE32(floodTx))
    requires At(p, 14, LE32(directTx)) && At(p, 18, LE32(floodRx)) && At(p, 22, LE32(directRx))
    requires At(p, 26, LE32(errors))
    ensures Decode(q) == StatsResponse(
              if |q| >= 2 then 2 else 0,
              if |q| >= 30 then StatsPackets(received, sent, floodTx, directTx, floodRx, directRx, errors) else NoStats)
  {
    assert p[0] == p[0..2][0] && p[1] == p[0..2][1];
    if |q| >= 30 {
      assert q[1..][1..] == q[2..];
      From32(q, p, 2, 2, received);
      From32(q, p, 2, 6, sent);
      From32(q, p, 2, 10, floodTx);
      From32(q, p, 2, 14, directTx);
      From32(q, p, 2, 18, floodRx);
      From32(q, p, 2, 22, directRx);
      From32(q, p, 2, 26, errors);
    }
  }

  // ---------------------------------------------------------------------------
  // Pushes
  // ---------------------------------------------------------------------------

  lemma SendConfirmedLayout(p: bytes, q: bytes, ack: nat, ms: nat)
    requires Cut(q, p) && p[0] == 0x82 && IsU32(ack) && IsU32(ms) && At(p, 1, LE32(ack)) && At(p, 5, LE32(ms))
    ensures Decode(q) == SendConfirmed(if |q| >= 5 then ack else 0, if |q| >= 9 then ms else 0)
  {
    Cut32(q, p, 1, ack);
    Cut32(q, p, 5, ms);
  }

  lemma KeyPart(q: bytes, p: bytes, key: bytes)
    requires Cut(q, p) && |key| == 32 && At(p, 1, key) && |q| >= 33
    ensures q[1..][..32] == key
  {
    assert forall i | 0 <= i < 32 :: q[1..][i] == p[i + 1] == p[1..33][i];
  }

  lemma AdvertLayout(p: bytes, q: bytes, key: bytes, name: bytes)
    requires Cut(q, p) && p[0] == 0x80 && |key| == 32 && At(p, 1, key) && TextAt(p, 33, name) && |q| >= 33
    ensures Decode(q) == Advert(key, Left(q, 33, name))
  {
    KeyPart(q, p, key);
    DropTwice(q, 32);
    if |q| > 33 {
      CutText(q, p, 33, name);
    } else {
      assert q[33..] == [];
    }
  }

  /** An advert too short for a key is a name. */
  lemma ShortAdvertLayout(p: bytes, q: bytes, name: bytes)
    requires Cut(q, p) && p[0] == 0x80 && TextAt(p, 1, name) && |q| < 33
    ensures Decode(q) == Advert([], Left(q, 1, name))
  {
    CutText(q, p, 1, name);
    if |q| == 1 {
      assert q[1..] == [];
    }
  }

  lemma LoginLayout(p: bytes, q: bytes, permissions: byte, prefix: bytes, time: int, newPermissions: byte)
    requires Cut(q, p) && p[0] == 0x85 && |prefix| == 6 && IsI32(time)
    requires At(p, 1, [permissions]) && At(p, 2, prefix) && At(p, 8, S32(time)) && At(p, 12, [newPermissions])
    ensures Decode(q) == LoginSuccess(
              if |q| > 1 then permissions else 0, if |q| >= 8 then prefix else [],
              if |q| >= 12 then time else 0, if |q| > 12 then newPermissions else 0)
  {
    Cut8(q, p, 1, permissions);
    CutSlice(q, p, 2, prefix);
    CutS32(q, p, 8, time);
    Cut8(q, p, 12, newPermissions);
  }

  lemma LoginFailLayout(p: bytes, q: bytes, prefix: bytes)
    requires Cut(q, p) && p[0] == 0x86 && |prefix| == 6 && At(p, 2, prefix)
    ensures Decode(q) == LoginFail(if |q| >= 8 then prefix else [])
  {
    CutSlice(q, p, 2, prefix);
  }

  lemma StatusParts(q: bytes)
    requires q != [] && q[0] == 0x87 && |q| < 64
    ensures Decode(q)
         == StatusResponse(SliceOr(q[1..], 1, 7), None, if |q| > 8 then TrimString(q[8..]) else [])
  {
    if |q| > 8 {
      DropTwice(q, 7);
    }
  }

  /** A status too short for repeater statistics is a text. */
  lemma StatusTextLayout(p: bytes, q: bytes, prefix: bytes, text: bytes)
    requires Cut(q, p) && p[0] == 0x87 && |prefix| == 6 && At(p, 2, prefix) && TextAt(p, 8, text) && |q| < 64
    ensures Decode(q) == StatusResponse(if |q| >= 8 then prefix else [], None, Left(q, 8, text))
  {
    CutSlice(q, p, 2, prefix);
    CutText(q, p, 8, text);
    StatusParts(q);
  }

  /** The fields of repeater statistics, by their offsets. */
  predicate LinkStatsAt(p: bytes, st: RepeaterStats) {
    && IsU16(st.battMV) && At(p, 8, LE16(st.battMV))
    && IsU16(st.txQueueLen) && At(p, 10, LE16(st.txQueueLen))
    && IsI16(st.noiseFloor) && At(p, 12, S16(st.noiseFloor))
    && IsI16(st.lastRSSI) && At(p, 14, S16(st.lastRSSI))
    && IsU32(st.packetsRecv) && At(p, 16, LE32(st.packetsRecv))
    && IsU32(st.packetsSent) && At(p, 20, LE32(st.packetsSent))
  }

  predicate RouteStatsAt(p: bytes, st: RepeaterStats) {
    && IsU32(st.airTime) && At(p, 24, LE32(st.airTime))
    && IsU32(st.upTime) && At(p, 28, LE32(st.upTime))
    && IsU32(st.sentFlood) && At(p, 32, LE32(st.sentFlood))
    && IsU32(st.sentDirect) && At(p, 36, LE32(st.sentDirect))
    && IsU32(st.recvFlood) && At(p, 40, LE32(st.recvFlood))
    && IsU32(st.recvDirect) && At(p, 44, LE32(st.recvDirect))
  }

  predicate ErrorStatsAt(p: bytes, st: RepeaterStats) {
    && IsU16(st.errEvents) && At(p, 48, LE16(st.errEvents))
    && IsI16(st.lastSNR) && At(p, 50, S16(st.lastSNR))
    && IsU16(st.directDups) && At(p, 52, LE16(st.directDups))
    && IsU16(st.floodDups) && At(p, 54, LE16(st.floodDups))
    && IsU32(st.rxAirTime) && At(p, 56, LE32(st.rxAirTime))
    && IsU32(st.recvErrors) && At(p, 60, LE32(st.recvErrors))
  }

  lemma LinkStats(p: bytes, q: bytes, st: RepeaterStats)
    requires Cut(q, p) && |q| >= 64 && LinkStatsAt(p, st)
    ensures var r := ParseRepeaterStats(q[8..]);
            && r.Some?
            && r.value.battMV == st.battMV
            && r.value.txQueueLen == st.txQueueLen
            && r.value.noiseFloor == st.noiseFloor
            && r.value.lastRSSI == st.lastRSSI
            && r.value.packetsRecv == st.packetsRecv
            && r.value.packetsSent == st.packetsSent
  {
    From16(q, p, 8, 8, st.battMV);
    From16(q, p, 8, 10, st.txQueueLen);
    FromS16(q, p, 8, 12, st.noiseFloor);
    FromS16(q, p, 8, 14, st.lastRSSI);
    From32(q, p, 8, 16, st.packetsRecv);
    From32(q, p, 8, 20, st.packetsSent);
  }

  lemma RouteStats(p: bytes, q: bytes, st: RepeaterStats)
    requires Cut(q, p) && |q| >= 64 && RouteStatsAt(p, st)
    ensures var r := ParseRepeaterStats(q[8..]);
            && r.Some?
            && r.value.airTime == st.airTime
            && r.value.upTime == st.upTime
            && r.value.sentFlood == st.sentFlood
            && r.value.sentDirect == st.sentDirect
            && r.value.recvFlood == st.recvFlood
            && r.value.recvDirect == st.recvDirect
  {
    From32(q, p, 8, 24, st.airTime);
    From32(q, p, 8, 28, st.upTime);
    From32(q, p, 8, 32, st.sentFlood);
    From32(q, p, 8, 36, st.sentDirect);
    From32(q, p, 8, 40, st.recvFlood);
    From32(q, p, 8, 44, st.recvDirect);
  }

  lemma ErrorStats(p: bytes, q: bytes, st: RepeaterStats)
    requires Cut(q, p) && |q| >= 64 && ErrorStatsAt(p, st)
    ensures var r := ParseRepeaterStats(q[8..]);
            && r.Some?
            && r.value.errEvents == st.errEvents
            && r.value.lastSNR == st.lastSNR
            && r.value.directDups == st.directDups
            && r.value.floodDups == st.floodDups
            && r.value.rxAirTime == st.rxAirTime
            && r.value.recvErrors == st.recvErrors
  {
    From16(q, p, 8, 48, st.errEvents);
    FromS16(q, p, 8, 50, st.lastSNR);
    From16(q, p, 8, 52, st.directDups);
    From16(q, p, 8, 54, st.floodDups);
    From32(q, p, 8, 56, st.rxAirTime);
    From32(q, p, 8, 60, st.recvErrors);
  }

  lemma StatusStatsLayout(p: bytes, q: bytes, prefix: bytes, st: RepeaterStats)
    requires Cut(q, p) && p[0] == 0x87 && |prefix| == 6 && At(p, 2, prefix) && |q| >= 64
    requires LinkStatsAt(p, st) && RouteStatsAt(p, st) && ErrorStatsAt(p, st)
    ensures Decode(q) == StatusResponse(prefix, Some(st), [])
  {
    CutSlice(q, p, 2, prefix);
    assert q[1..][7..] == q[8..];
    LinkStats(p, q, st);
    RouteStats(p, q, st);
    ErrorStats(p, q, st);
    assert ParseRepeaterStats(q[8..]) == Some(st);
  }

  /** Control data: kept whole when it is too short for its header. */
  lemma ControlLayout(p: bytes, q: bytes, snr: int, rssi: int, pathLen: byte, typ: byte)
    requires Cut(q, p) && p[0] == 0x8e && IsI8(snr) && IsI8(rssi)
    requires At(p, 1, [B8(snr), B8(rssi), pathLen, typ]) && !(0x90 <= typ < 0xa0)
    ensures Decode(q)
         == if |q| < 5 then RawMessage(0x8e, q[1..], true) else ControlData(snr, rssi, pathLen, typ, q[5..])
  {
    assert p[1] == p[1..5][0] && p[2] == p[1..5][1] && p[3] == p[1..5][2] && p[4] == p[1..5][3];
    if |q| >= 5 {
      assert q[1..][3..][1..] == q[5..];
    }
  }

  /** A node-discovery response; of its key, 32 bytes, or 8, or what there is. */
  lemma DiscoverLayout(
      p: bytes, q: bytes, snr: int, rssi: int, pathLen: byte, nodeType: nat, snrUp: int, tag: nat, key: bytes)
    requires Cut(q, p) && p[0] == 0x8e && IsI8(snr) && IsI8(rssi) && IsI8(snrUp) && nodeType < 16 && IsU32(tag)
    requires At(p, 1, [B8(snr), B8(rssi), pathLen, 0x90 + nodeType, B8(snrUp)]) && At(p, 6, LE32(tag))
    requires |p| == 10 + |key| && At(p, 10, key) && |q| >= 5
    ensures Decode(q) == NodeDiscoverResp(
              if |q| >= 10 then tag else 0, nodeType, KeyLeft(q, key), if |q| > 5 then snrUp else 0, snr, rssi, pathLen)
  {
    var h := p[1..6];
    assert p[1] == h[0] && p[2] == h[1] && p[3] == h[2] && p[4] == h[3] && p[5] == h[4];
    var payload := q[1..][3..];
    assert payload == q[4..];
    if |q| >= 10 {
      assert payload[2..6] == q[6..10] == p[6..10];
      Read32(payload, 2, tag);
      assert payload[6..] == q[10..] == key[..|q| - 10];
    }
  }

  function KeyLeft(q: bytes, key: bytes): bytes {
    var n: int := if |q| - 10 < |key| then |q| - 10 else |key|;
    if n >= 32 then key[..32] else if n >= 8 then key[..8] else if n >= 0 then key[..n] else []
  }

  lemma TraceFields(p: bytes, q: bytes, flags: byte, tag: nat, auth: nat, n: nat)
    requires Cut(q, p) && IsU32(tag) && IsU32(auth) && n < 0x100 && |q| >= 12
    requires At(p, 2, [n, flags]) && At(p, 4, LE32(tag)) && At(p, 8, LE32(auth))
    ensures q[1..][1] == n && q[1..][2] == flags && U32(q[1..], 3) == tag && U32(q[1..], 7) == auth
  {
    assert p[2] == p[2..4][0] && p[3] == p[2..4][1];
    From32(q, p, 1, 4, tag);
    From32(q, p, 1, 8, auth);
  }

  /** A slice of the packet from `i`, cut where the packet ends, read from after the code. */
  lemma CutPart(q: bytes, p: bytes, i: nat, f: bytes, lo: nat, hi: nat)
    requires Cut(q, p) && At(p, i, f) && 1 <= i
    requires lo == Min(i - 1, |q| - 1) && hi == Min(i - 1 + |f|, |q| - 1)
    ensures q[1..][lo..hi] == Left(q, i, f)
  {
    if |q| > i {
      assert q[1..][lo..hi] == p[i..i + |f|][..hi - lo];
    }
  }

  lemma TraceCuts(p: bytes, q: bytes, path: bytes, snrs: bytes)
    requires Cut(q, p) && |q| >= 12 && snrs != [] && At(p, 12, path) && At(p, 12 + |path|, snrs)
    ensures var b := q[1..];
            var pathEnd := Min(11 + |path|, |b|);
            var snrEnd := Min(pathEnd + |snrs| - 1, |b|);
            b[11..pathEnd] == Left(q, 12, path) && b[pathEnd..Min(snrEnd + 1, |b|)] == Left(q, 12 + |path|, snrs)
  {
    var n := |q| - 1;
    var pathEnd := Min(11 + |path|, n);
    CutPart(q, p, 12, path, 11, pathEnd);
    CutPart(q, p, 12 + |path|, snrs, pathEnd, Min(Min(pathEnd + |snrs| - 1, n) + 1, n));
  }

  /** A trace: its path, then as many signal strengths as hops and one more, each cut where
      the packet ends; nothing of a packet too short for the header. */
  lemma TraceLayout(p: bytes, q: bytes, flags: byte, tag: nat, auth: nat, path: bytes, snrs: bytes)
    requires Cut(q, p) && p[0] == 0x89 && IsU32(tag) && IsU32(auth) && |path| < 0x100
    requires At(p, 2, [|path|, flags]) && At(p, 4, LE32(tag)) && At(p, 8, LE32(auth))
    requires At(p, 12, path) && At(p, 12 + |path|, snrs)
    requires |snrs| == |path| / PathHash.HashSizeFromTraceFlags(flags) + 1
    ensures |q| < 12 ==> Decode(q) == TraceData(0, 0, 0, [], [])
    ensures |q| >= 12 ==>
              Decode(q) == TraceData(tag, auth, flags, Left(q, 12, path), Quarters(Left(q, 12 + |path|, snrs)))
  {
    if |q| >= 12 {
      TraceFields(p, q, flags, tag, auth, |path|);
      TraceCuts(p, q, path, snrs);
    }
  }

  // ---------------------------------------------------------------------------
  // Device info
  // ---------------------------------------------------------------------------

  /** Printable texts, each after a gap, and a last gap. */
  function Spread(runs: seq<(bytes, bytes)>, tail: bytes): bytes {
    if runs == [] then tail else runs[0].0 + runs[0].1 + Spread(runs[1..], tail)
  }

  function Texts(runs: seq<(bytes, bytes)>): (ts: seq<bytes>)
    ensures |ts| == |runs| && forall i | 0 <= i < |runs| :: ts[i] == runs[i].1
  {
    seq(|runs|, i requires 0 <= i < |runs| => runs[i].1)
  }

  predicate IsGap(g: bytes) {
    forall i | 0 <= i < |g| :: g[i] < 0x20 || g[i] >= 0x7f
  }

  /** At least two characters from 0x20 to 0x7e, with no blank at either end. */
  predicate IsToken(t: bytes) {
    && |t| >= 2 && t[0] != 0x20 && t[|t| - 1] != 0x20
    && forall i | 0 <= i < |t| :: 0x20 <= t[i] <= 0x7e
  }

  lemma {:induction false} TokensGap(g: bytes, rest: bytes)
    requires IsGap(g)
    ensures Tokens(g + rest, []) == Tokens(rest, [])
  {
    if g == [] {
      assert g + rest == rest;
    } else {
      assert (g + rest)[1..] == g[1..] + rest;
      assert Flush([]) == [];
      TokensGap(g[1..], rest);
    }
  }

  lemma {:induction false} TokensText(t: bytes, rest: bytes, cur: bytes)
    requires forall i | 0 <= i < |t| :: 0x20 <= t[i] <= 0x7e
    ensures Tokens(t + rest, cur) == Tokens(rest, cur + t)
    decreases |t|
  {
    if t == [] {
      assert t + rest == rest && cur + t == cur;
    } else {
      assert (t + rest)[1..] == t[1..] + rest;
      TokensText(t[1..], rest, cur + [t[0]]);
      MoveHead(cur, t);
    }
  }

  predicate StartsGap(rest: bytes) {
    rest != [] ==> rest[0] < 0x20 || rest[0] >= 0x7f
  }

  lemma TextEnds(t: bytes, rest: bytes)
    requires StartsGap(rest)
    ensures Tokens(rest, t) == Flush(t) + Tokens(rest, [])
  {
    assert Flush([]) == [];
    if rest == [] {
      assert Flush(t) + [] == Flush(t);
    } else {
      assert [] + Tokens(rest[1..], []) == Tokens(rest[1..], []);
    }
  }

  lemma TokenFirst(g: bytes, t: bytes, rest: bytes)
    requires IsGap(g) && IsToken(t) && StartsGap(rest)
    ensures Tokens(g + t + rest, []) == [t] + Tokens(rest, [])
  {
    assert g + t + rest == g + (t + rest);
    TokensGap(g, t + rest);
    TokensText(t, rest, []);
    assert [] + t == t && Flush(t) == [t];
    TextEnds(t, rest);
  }

  predicate WellSpread(runs: seq<(bytes, bytes)>, tail: bytes) {
    && IsGap(tail)
    && (forall i | 0 <= i < |runs| :: IsGap(runs[i].0) && IsToken(runs[i].1))
    && (forall i | 0 < i < |runs| :: runs[i].0 != [])
  }

  lemma RestStartsGap(runs: seq<(bytes, bytes)>, tail: bytes)
    requires WellSpread(runs, tail) && runs != []
    ensures WellSpread(runs[1..], tail) && StartsGap(Spread(runs[1..], tail))
  {
    if |runs| > 1 {
      assert runs[1..][0] == runs[1] && IsGap(runs[1].0);
      assert Spread(runs[1..], tail)[0] == runs[1].0[0];
    }
  }

  /** The tokens of a packet are its printable texts. */
  lemma {:induction false} TokensExact(runs: seq<(bytes, bytes)>, tail: bytes)
    requires WellSpread(runs, tail)
    ensures Tokens(Spread(runs, tail), []) == Texts(runs)
    decreases |runs|
  {
    if runs == [] {
      TokensGap(tail, []);
      assert tail + [] == tail;
    } else {
      RestStartsGap(runs, tail);
      TokenFirst(runs[0].0, runs[0].1, Spread(runs[1..], tail));
      TokensExact(runs[1..], tail);
      TextsFirst(runs);
    }
  }

  lemma TextsFirst(runs: seq<(bytes, bytes)>)
    requires runs != []
    ensures Texts(runs) == [runs[0].1] + Texts(runs[1..])
  {
  }

  datatype Kind = Version | Date | Model

  predicate Digit(c: byte) { 0x30 <= c <= 0x39 }

  predicate Letter(c: byte) { 0x41 <= c <= 0x5a || 0x61 <= c <= 0x7a }

  /** A "v" before a digit, or a digit first and a point somewhere, makes a version; else a
      hyphen and a letter make a date. */
  function KindOf(t: bytes): Kind
    requires IsToken(t)
  {
    if ((t[0] == 0x76 || t[0] == 0x56) && Digit(t[1])) || (Digit(t[0]) && 0x2e in t) then Version
    else if 0x2d in t && exists i | 0 <= i < |t| :: Letter(t[i]) then Date
    else Model
  }

  /** The first text of a kind, or none. */
  function First(ts: seq<bytes>, k: Kind): bytes
    requires forall i | 0 <= i < |ts| :: IsToken(ts[i])
  {
    if ts == [] then [] else if KindOf(ts[0]) == k then ts[0] else First(ts[1..], k)
  }

  lemma DateIff(t: bytes)
    ensures LooksLikeDate(t) <==> 0x2d in t && exists i | 0 <= i < |t| :: Letter(t[i])
  {
    if c :| c in t && IsLetter(c) {
      var i :| 0 <= i < |t| && t[i] == c;
      assert Letter(t[i]);
    }
    if i :| 0 <= i < |t| && Letter(t[i]) {
      assert t[i] in t && IsLetter(t[i]);
    }
  }

  lemma {:induction false} ClassifyExact(ts: seq<bytes>, d: Message)
    requires d.DeviceInfo? && forall i | 0 <= i < |ts| :: IsToken(ts[i]) && ts[i] != []
    ensures var r := Classify(ts, d);
            && r.firmware == d.firmware
            && r.version == (if d.version != [] then d.version else First(ts, Version))
            && r.buildDate == (if d.buildDate != [] then d.buildDate else First(ts, Date))
            && r.model == (if d.model != [] then d.model else First(ts, Model))
  {
    if ts != [] {
      var t := ts[0];
      DateIff(t);
      ClassifyExact(ts[1..],
                    if LooksLikeVersion(t) then (if d.version == [] then d.(version := t) else d)
                    else if LooksLikeDate(t) then (if d.buildDate == [] then d.(buildDate := t) else d)
                    else if d.model == [] then d.(model := t) else d);
    }
  }

  /** Device info: the code byte's successor, and the first version, date and other text
      among the printable texts of the packet, in whatever order they come. */
  lemma DeviceInfoLayout(q: bytes, runs: seq<(bytes, bytes)>, tail: bytes)
    requires WellSpread(runs, tail)
    requires q != [] && q[0] == 13 && q[1..] == Spread(runs, tail)
    ensures Decode(q) == DeviceInfo(
              if |q| > 1 then q[1] else 0,
              First(Texts(runs), Version), First(Texts(runs), Date), First(Texts(runs), Model))
  {
    TokensExact(runs, tail);
    ClassifyExact(Texts(runs), DeviceInfo(ByteOr0(q[1..], 0), [], [], []));
  }
}
