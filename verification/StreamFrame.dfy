/**
 Companion stream framing (transport/internal/streamframe/streamframe.go): a marker byte,
 a little-endian 16-bit length and the payload, read back from a stream that may carry
 noise between frames.
 */
module StreamFrame {
  import opened Common

  const MAX_LEN: nat := 8192

  datatype Error = EOF | UnexpectedEOF | TooLong(n: nat) | TooLarge(n: nat)

  datatype Result = Ok(payload: seq<byte>) | Err(error: Error)

  function Frame(marker: byte, payload: seq<byte>): seq<byte>
    requires |payload| <= MAX_LEN
  {
    [marker, |payload| % 256, |payload| / 256] + payload
  }

  /** What reading one frame from `s` yields and what it leaves unread. */
  function ReadSpec(s: seq<byte>, marker: byte, resync: bool): (Result, seq<byte>) {
    if s == [] then (Err(EOF), [])
    else if s[0] != marker then ReadSpec(s[1..], marker, resync)
    else if |s| < 3 then (Err(if |s| == 1 then EOF else UnexpectedEOF), [])
    else
      var n: nat := Uint16(s[1], s[2]);
      var body := s[3..];
      if n > MAX_LEN then
        if resync then ReadSpec(body, marker, true) else (Err(TooLong(n)), body)
      else if |body| < n then (Err(if body == [] then EOF else UnexpectedEOF), [])
      else (Ok(body[..n]), body[n..])
  }

  /** A buffered reader over the bytes that are still to come. */
  class ByteReader {
    var rest: seq<byte>

    constructor (s: seq<byte>)
      ensures rest == s
    {
      rest := s;
    }

    method ReadByte() returns (b: Option<byte>)
      modifies this
      ensures old(rest) == [] ==> b.None? && rest == []
      ensures old(rest) != [] ==> b == Some(old(rest)[0]) && rest == old(rest)[1..]
    {
      if rest == [] {
        b := None;
      } else {
        b := Some(rest[0]);
        rest := rest[1..];
      }
    }

    /** io.ReadFull: all `n` bytes, or an error that has consumed what there was. */
    method ReadFull(n: nat) returns (r: Result)
      modifies this
      ensures n <= |old(rest)| ==> r == Ok(old(rest)[..n]) && rest == old(rest)[n..]
      ensures n > |old(rest)| ==> r == Err(if old(rest) == [] then EOF else UnexpectedEOF) && rest == []
    {
      if n <= |rest| {
        r := Ok(rest[..n]);
        rest := rest[n..];
      } else {
        r := Err(if rest == [] then EOF else UnexpectedEOF);
        rest := [];
      }
    }

    method Read(marker: byte, resync: bool) returns (r: Result)
      modifies this
      ensures (r, rest) == ReadSpec(old(rest), marker, resync)
      decreases |rest|
    {
      while true
        invariant |rest| <= |old(rest)|
        invariant ReadSpec(rest, marker, resync) == ReadSpec(old(rest), marker, resync)
        decreases |rest|
      {
        var b := ReadByte();
        if b.None? {
          return Err(EOF);
        }
        if b.value == marker {
          break;
        }
      }
      var len := ReadFull(2);
      if len.Err? {
        return len;
      }
      var n: nat := Uint16(len.payload[0], len.payload[1]);
      if n > MAX_LEN {
        if resync {
          r := Read(marker, true);
          return;
        }
        return Err(TooLong(n));
      }
      r := ReadFull(n);
    }
  }

  /** A stream the host or the device writes to. */
  class ByteWriter {
    var out: seq<byte>

    constructor ()
      ensures out == []
    {
      out := [];
    }

    method Write(marker: byte, payload: seq<byte>) returns (err: Option<Error>)
      modifies this
      ensures |payload| > 8192 ==> err == Some(TooLarge(|payload|)) && out == old(out)
      ensures |payload| <= 8192 ==>
                err.None? && out == old(out) + [marker, |payload| % 256, |payload| / 256] + payload
    {
      if |payload| > MAX_LEN {
        return Some(TooLarge(|payload|));
      }
      var hdr := [marker, |payload| % 256, |payload| / 256];
      out := out + hdr;
      out := out + payload;
      assert out == old(out) + Frame(marker, payload);
      return None;
    }
  }

  // ---------------------------------------------------------------------------
  // Reading accepts exactly what the grammar generates
  // ---------------------------------------------------------------------------

  /** What may precede a frame: bytes that are not the marker, and, when the reader
      resynchronises, a marker whose length field is over the maximum. */
  datatype Junk = Noise(b: byte) | BadHeader(lo: byte, hi: byte)

  predicate ValidJunk(j: Junk, marker: byte, resync: bool) {
    match j
    case Noise(b) => b != marker
    case BadHeader(lo, hi) => resync && Uint16(lo, hi) > MAX_LEN
  }

  predicate ValidGap(gap: seq<Junk>, marker: byte, resync: bool) {
    forall j | j in gap :: ValidJunk(j, marker, resync)
  }

  function GapBytes(gap: seq<Junk>, marker: byte): seq<byte> {
    if gap == [] then []
    else (match gap[0] case Noise(b) => [b] case BadHeader(lo, hi) => [marker, lo, hi]) + GapBytes(gap[1..], marker)
  }

  predicate Shape(s: seq<byte>, marker: byte, gap: seq<Junk>, payload: seq<byte>, rest: seq<byte>) {
    |payload| <= MAX_LEN && s == GapBytes(gap, marker) + Frame(marker, payload) + rest
  }

  /** Any gap followed by a frame is read as that frame and leaves the rest. */
  lemma {:induction false} ReadAccepts(s: seq<byte>, marker: byte, resync: bool, gap: seq<Junk>,
                                       payload: seq<byte>, rest: seq<byte>)
    requires Shape(s, marker, gap, payload, rest) && ValidGap(gap, marker, resync)
    ensures ReadSpec(s, marker, resync) == (Ok(payload), rest)
    decreases |gap|
  {
    if gap == [] {
      assert s[3..] == payload + rest;
      assert s[0] == marker && s[1] == |payload| % 256 && s[2] == |payload| / 256;
    } else {
      assert ValidJunk(gap[0], marker, resync);
      var w := if gap[0].Noise? then 1 else 3;
      assert s[w..] == GapBytes(gap[1..], marker) + Frame(marker, payload) + rest;
      ReadAccepts(s[w..], marker, resync, gap[1..], payload, rest);
      if gap[0].BadHeader? {
        assert s[1] == gap[0].lo && s[2] == gap[0].hi;
      }
    }
  }

  lemma JunkBefore(s: seq<byte>, marker: byte, j: Junk, w: nat, gap: seq<Junk>, payload: seq<byte>, rest: seq<byte>)
    requires w <= |s| && Shape(s[w..], marker, gap, payload, rest)
    requires w == |GapBytes([j], marker)| && s[..w] == GapBytes([j], marker)
    ensures Shape(s, marker, [j] + gap, payload, rest)
  {
    assert ([j] + gap)[1..] == gap && [j][1..] == [];
    assert s == s[..w] + s[w..];
  }

  lemma FrameFirst(s: seq<byte>, marker: byte, n: nat)
    requires 3 + n <= |s| && n <= MAX_LEN && s[0] == marker && n == Uint16(s[1], s[2])
    ensures Shape(s, marker, [], s[3..][..n], s[3..][n..])
  {
    assert s == [marker, s[1], s[2]] + (s[3..][..n] + s[3..][n..]);
  }

  /** Whatever is read as a frame was a gap followed by that frame. */
  lemma {:induction false} ReadSound(s: seq<byte>, marker: byte, resync: bool) returns (gap: seq<Junk>)
    requires ReadSpec(s, marker, resync).0.Ok?
    ensures ValidGap(gap, marker, resync)
    ensures Shape(s, marker, gap, ReadSpec(s, marker, resync).0.payload, ReadSpec(s, marker, resync).1)
    decreases |s|
  {
    var payload, rest := ReadSpec(s, marker, resync).0.payload, ReadSpec(s, marker, resync).1;
    if s[0] != marker {
      var gap' := ReadSound(s[1..], marker, resync);
      gap := [Noise(s[0])] + gap';
      JunkBefore(s, marker, Noise(s[0]), 1, gap', payload, rest);
    } else if Uint16(s[1], s[2]) > MAX_LEN {
      var gap' := ReadSound(s[3..], marker, true);
      gap := [BadHeader(s[1], s[2])] + gap';
      JunkBefore(s, marker, BadHeader(s[1], s[2]), 3, gap', payload, rest);
    } else {
      gap := [];
      FrameFirst(s, marker, |payload|);
    }
  }

  /** What the reader makes of the input after a gap: the frame, or which error, and how much
      is consumed. */
  function Ending(end: seq<byte>): (Result, seq<byte>) {
    if |end| <= 1 then (Err(EOF), [])
    else if |end| == 2 then (Err(UnexpectedEOF), [])
    else
      var n: nat := end[1] as nat + 256 * end[2] as nat;
      if n > 8192 then (Err(TooLong(n)), end[3..])
      else if |end| >= 3 + n then (Ok(end[3..3 + n]), end[3 + n..])
      else (Err(if |end| == 3 then EOF else UnexpectedEOF), [])
  }

  /** The end of the input, or the marker of a header that the reader does not skip. */
  predicate AfterGap(end: seq<byte>, marker: byte, resync: bool) {
    end == [] || (end[0] == marker && !(resync && |end| >= 3 && end[1] as nat + 256 * end[2] as nat > 8192))
  }

  lemma {:induction false} ReadEnds(s: seq<byte>, marker: byte, resync: bool, gap: seq<Junk>, end: seq<byte>)
    requires s == GapBytes(gap, marker) + end && ValidGap(gap, marker, resync) && AfterGap(end, marker, resync)
    ensures ReadSpec(s, marker, resync) == Ending(end)
    decreases |gap|
  {
    if gap == [] {
      assert s == end;
      assert |s| >= 3 ==> forall n | 0 <= n && 3 + n <= |s| :: s[3..][..n] == s[3..3 + n] && s[3..][n..] == s[3 + n..];
    } else {
      assert ValidJunk(gap[0], marker, resync);
      var w := if gap[0].Noise? then 1 else 3;
      assert s[w..] == GapBytes(gap[1..], marker) + end;
      ReadEnds(s[w..], marker, resync, gap[1..], end);
      if gap[0].BadHeader? {
        assert s[1] == gap[0].lo && s[2] == gap[0].hi;
      }
    }
  }

  /** Every input is a gap and such an end, so that this says what every read gives. */
  lemma {:induction false} EveryInput(s: seq<byte>, marker: byte, resync: bool) returns (gap: seq<Junk>, end: seq<byte>)
    ensures s == GapBytes(gap, marker) + end && ValidGap(gap, marker, resync) && AfterGap(end, marker, resync)
    ensures ReadSpec(s, marker, resync) == Ending(end)
    decreases |s|
  {
    if AfterGap(s, marker, resync) {
      gap, end := [], s;
      assert s == [] + s;
    } else {
      var j := if s[0] != marker then Noise(s[0]) else BadHeader(s[1], s[2]);
      var w := if j.Noise? then 1 else 3;
      gap, end := EveryInput(s[w..], marker, resync);
      GapMore(s, marker, j, w, gap, end);
      gap := [j] + gap;
    }
    ReadEnds(s, marker, resync, gap, end);
  }

  lemma GapMore(s: seq<byte>, marker: byte, j: Junk, w: nat, gap: seq<Junk>, end: seq<byte>)
    requires w <= |s| && s[w..] == GapBytes(gap, marker) + end
    requires w == |GapBytes([j], marker)| && s[..w] == GapBytes([j], marker)
    ensures s == GapBytes([j] + gap, marker) + end
  {
    assert ([j] + gap)[1..] == gap && [j][1..] == [];
    assert s == s[..w] + s[w..];
  }

  /** Reading a frame succeeds with a payload and a remainder exactly when the input is
      some gap, that payload framed, and that remainder. */
  lemma ReadExact(s: seq<byte>, marker: byte, resync: bool, payload: seq<byte>, rest: seq<byte>)
    ensures ReadSpec(s, marker, resync) == (Ok(payload), rest)
       <==> exists gap :: ValidGap(gap, marker, resync) && Shape(s, marker, gap, payload, rest)
  {
    if ReadSpec(s, marker, resync) == (Ok(payload), rest) {
      var gap := ReadSound(s, marker, resync);
    } else {
      forall gap | ValidGap(gap, marker, resync) && Shape(s, marker, gap, payload, rest)
        ensures false
      {
        ReadAccepts(s, marker, resync, gap, payload, rest);
      }
    }
  }

  /** Resynchronising changes nothing for input that the strict reader accepts. */
  lemma ResyncAgrees(s: seq<byte>, marker: byte)
    requires ReadSpec(s, marker, false).0.Ok?
    ensures ReadSpec(s, marker, true) == ReadSpec(s, marker, false)
  {
    var gap := ReadSound(s, marker, false);
    assert forall j | j in gap :: ValidJunk(j, marker, false);
    ReadAccepts(s, marker, true, gap, ReadSpec(s, marker, false).0.payload, ReadSpec(s, marker, false).1);
  }

  datatype Item = Item(gap: seq<Junk>, payload: seq<byte>)

  predicate ValidItems(items: seq<Item>, marker: byte, resync: bool) {
    forall it | it in items :: ValidGap(it.gap, marker, resync) && |it.payload| <= MAX_LEN
  }

  function Encode(items: seq<Item>, marker: byte): seq<byte>
    requires forall it | it in items :: |it.payload| <= MAX_LEN
  {
    if items == [] then []
    else GapBytes(items[0].gap, marker) + Frame(marker, items[0].payload) + Encode(items[1..], marker)
  }

  function Payloads(items: seq<Item>): seq<seq<byte>> {
    if items == [] then [] else [items[0].payload] + Payloads(items[1..])
  }

  lemma ReadShrinks(s: seq<byte>, marker: byte, resync: bool)
    ensures ReadSpec(s, marker, resync).0.Ok? ==> |ReadSpec(s, marker, resync).1| < |s|
  {
  }

  /** Reading frame after frame until an error: the payloads and that error. */
  function ReadAllSpec(s: seq<byte>, marker: byte, resync: bool): (seq<seq<byte>>, Error)
    decreases |s|
  {
    var (r, rest) := ReadSpec(s, marker, resync);
    ReadShrinks(s, marker, resync);
    match r
    case Err(e) => ([], e)
    case Ok(p) => var tail := ReadAllSpec(rest, marker, resync); ([p] + tail.0, tail.1)
  }

  /** Any list of payloads, framed and separated by gaps, is read back exactly, in order,
      and reading then ends at the end of the stream. */
  lemma {:induction false} StreamReadsBack(items: seq<Item>, marker: byte, resync: bool)
    requires ValidItems(items, marker, resync)
    ensures ReadAllSpec(Encode(items, marker), marker, resync)
         == (Payloads(items), EOF)
  {
    if items != [] {
      var s := Encode(items, marker);
      ReadAccepts(s, marker, resync, items[0].gap, items[0].payload, Encode(items[1..], marker));
      StreamReadsBack(items[1..], marker, resync);
    }
  }
}
