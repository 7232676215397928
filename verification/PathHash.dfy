/**
 Path hashes (protocol/pathhash/pathhash.go): the metadata and trace-flag bytes, the
 conversion of stored routes, and the text form of trace paths.
 */
module PathHash {
  import opened Common
  import opened Hex

  const OUT_PATH_UNKNOWN: byte := 0xff
  const MAX_PATH_SIZE := 64

  function HashSizeFromTraceFlags(flags: byte): nat {
    var k := flags % 4;
    if k == 0 then 1 else if k == 1 then 2 else if k == 2 then 4 else 8
  }

  predicate Supported(size: nat) {
    size == 1 || size == 2 || size == 4 || size == 8
  }

  function TraceFlagsFromHashSize(size: nat): Option<byte> {
    if size == 1 then Some(0)
    else if size == 2 then Some(1)
    else if size == 4 then Some(2)
    else if size == 8 then Some(3)
    else None
  }

  /** A hash size has flags exactly when some flags byte decodes to it, and the flags
      given do. */
  lemma FlagsRoundTrip(size: nat)
    ensures TraceFlagsFromHashSize(size).Some? <==> exists f: byte :: HashSizeFromTraceFlags(f) == size
    ensures TraceFlagsFromHashSize(size).Some? ==> HashSizeFromTraceFlags(TraceFlagsFromHashSize(size).value) == size
  {
    if TraceFlagsFromHashSize(size).Some? {
      assert HashSizeFromTraceFlags(TraceFlagsFromHashSize(size).value) == size;
    }
  }

  function HashSizeFromPathMeta(encoded: byte): nat {
    encoded as int / 64 + 1
  }

  function HopCountFromPathMeta(encoded: byte): nat {
    encoded as int % 64
  }

  /** The metadata byte of a width and a hop count, and the trace flags of a width. */
  lemma MetaExact(width: nat, hops: nat)
    requires 1 <= width <= 4 && hops < 64
    ensures var encoded := (width - 1) * 64 + hops;
            && HashSizeFromPathMeta(encoded) == width && HopCountFromPathMeta(encoded) == hops
            && (IsDirectOutPath(encoded) <==> hops == 0)
            && (HasStoredOutPath(encoded, []) <==> false)
  {
  }

  lemma FlagsExact(flags: byte)
    ensures HashSizeFromTraceFlags(flags) == [1, 2, 4, 8][flags % 4]
    ensures TraceFlagsFromHashSize(1) == Some(0) && TraceFlagsFromHashSize(2) == Some(1)
    ensures TraceFlagsFromHashSize(4) == Some(2) && TraceFlagsFromHashSize(8) == Some(3)
    ensures forall n: nat | n !in {1, 2, 4, 8} :: TraceFlagsFromHashSize(n) == None
  {
  }

  /** A stored path is what its metadata asks for, as far as there are bytes, and there is one
      exactly when it asks for hops and there are bytes; 0xff stands for no path. */
  lemma PathBytesExact(encoded: byte, raw: bytes)
    ensures var n := (encoded as int % 64) * (encoded as int / 64 + 1);
            && PathBytes(encoded, raw) <= raw && |PathBytes(encoded, raw)| == Min(n, |raw|)
            && (HasStoredOutPath(encoded, raw) <==> encoded != 0xff && encoded as int % 64 != 0 && raw != [])
            && (IsDirectOutPath(encoded) <==> encoded as int % 64 == 0)
  {
    var h, w := encoded as int % 64, encoded as int / 64 + 1;
    MulAtLeast(h, w);
  }

  function PathBytes(encoded: byte, raw: bytes): bytes {
    var n := HopCountFromPathMeta(encoded) * HashSizeFromPathMeta(encoded);
    if n > |raw| then raw else raw[..n]
  }

  function NearestTraceHashSize(n: int): nat {
    if n <= 1 then 1 else if n <= 2 then 2 else if n <= 4 then 4 else 8
  }

  /** The least supported width not below the one asked for, and 8 above that. */
  lemma NearestIsLeast(n: int)
    ensures Supported(NearestTraceHashSize(n))
    ensures n <= 8 ==> NearestTraceHashSize(n) >= n
    ensures forall size: nat | Supported(size) && size >= n :: NearestTraceHashSize(n) <= size
    ensures n > 8 ==> NearestTraceHashSize(n) == 8
  {
  }

  predicate IsDirectOutPath(encoded: byte) {
    encoded != OUT_PATH_UNKNOWN && HopCountFromPathMeta(encoded) == 0
  }

  predicate HasStoredOutPath(encoded: byte, raw: bytes) {
    encoded != OUT_PATH_UNKNOWN && HopCountFromPathMeta(encoded) != 0 && PathBytes(encoded, raw) != []
  }

  datatype Route = Route(path: bytes, hashSize: nat, flags: byte)

  /** The first `n` hops of a 3-byte path cut to two bytes each, stopping where the path
      does not have two bytes of a hop. */
  function CutHops(path: bytes, n: nat): bytes {
    if n == 0 then []
    else
      var off := 3 * (n - 1);
      if off + 2 > |path| then CutHops(path, n - 1) else CutHops(path, n - 1) + path[off..off + 2]
  }

  function RouteSpec(encoded: byte, raw: bytes): Option<Route> {
    var size, path := HashSizeFromPathMeta(encoded), PathBytes(encoded, raw);
    if path == [] then None
    else if size == 3 then
      var cut := CutHops(path, HopCountFromPathMeta(encoded));
      if cut == [] then None else Some(Route(cut, 2, 1))
    else match TraceFlagsFromHashSize(size)
      case Some(flags) => Some(Route(path, size, flags))
      case None => None
  }

  lemma {:induction false} CutStops(path: bytes, n: nat, m: nat)
    requires n <= m && 3 * n + 2 > |path|
    ensures CutHops(path, m) == CutHops(path, n)
    decreases m
  {
    if n < m {
      CutStops(path, n, m - 1);
    }
  }

  method TracePathFromOutPath(encoded: byte, raw: bytes) returns (r: Option<Route>)
    ensures r == RouteSpec(encoded, raw)
  {
    var size, hops := HashSizeFromPathMeta(encoded), HopCountFromPathMeta(encoded);
    var path := PathBytes(encoded, raw);
    if path == [] {
      return None;
    }
    if size == 3 {
      var cut: bytes := [];
      var i := 0;
      while i < hops
        invariant 0 <= i <= hops && cut == CutHops(path, i)
      {
        var off := i * 3;
        if off + 2 > |path| {
          CutStops(path, i, hops);
          break;
        }
        cut := cut + path[off..off + 2];
        i := i + 1;
      }
      return if cut == [] then None else Some(Route(cut, 2, 1));
    }
    var flags := TraceFlagsFromHashSize(size);
    return if flags.Some? then Some(Route(path, size, flags.value)) else None;
  }

  // ---------------------------------------------------------------------------
  // Splitting, printing and parsing
  // ---------------------------------------------------------------------------

  function SplitSpec(path: bytes, size: nat): (hops: seq<bytes>)
    requires size > 0 && |path| % size == 0
    ensures forall h | h in hops :: |h| == size
    decreases |path|
  {
    if path == [] then []
    else
      ShorterBy(|path|, size);
      [path[..size]] + SplitSpec(path[size..], size)
  }

  lemma MulAtLeast(s: int, k: int)
    requires s >= 0
    ensures k >= 1 ==> s * k >= s
    ensures k <= -1 ==> s * k <= -s
  {
    assert s * k == s * (k - 1) + s;
    assert s * k == s * (k + 1) - s;
    assert k >= 1 ==> s * (k - 1) >= 0;
    assert k <= -1 ==> s * (k + 1) <= 0;
  }

  lemma AddMod(n: nat, size: nat)
    requires size > 0
    ensures (n + size) % size == n % size
  {
    var k := (n + size) / size - n / size - 1;
    assert n % size - (n + size) % size == size * k;
    MulAtLeast(size, k);
  }

  lemma {:induction false} MulMod(q: nat, size: nat)
    requires size > 0
    ensures (size * q) % size == 0
  {
    if q > 0 {
      MulMod(q - 1, size);
      AddMod(size * (q - 1), size);
      assert size * q == size * (q - 1) + size;
    }
  }

  lemma SmallMod(n: nat, size: nat)
    requires n < size
    ensures n % size == n
  {
  }

  lemma ShorterBy(n: nat, size: nat)
    requires 0 < size && n % size == 0 && n > 0
    ensures size <= n && (n - size) % size == 0
  {
    if n < size {
      SmallMod(n, size);
    } else {
      AddMod(n - size, size);
    }
  }

  lemma SplitNext(hops: seq<bytes>, path: bytes, i: nat, size: nat)
    requires size > 0 && i < |path| && (|path| - i) % size == 0
    ensures i + size <= |path| && (|path| - i - size) % size == 0
    ensures hops + SplitSpec(path[i..], size) == hops + [path[i..i + size]] + SplitSpec(path[i + size..], size)
  {
    ShorterBy(|path| - i, size);
    assert path[i..][..size] == path[i..i + size] && path[i..][size..] == path[i + size..];
  }

  method Split(path: bytes, size: int) returns (hops: seq<bytes>)
    ensures hops == if size <= 0 || |path| % size != 0 then [] else SplitSpec(path, size)
  {
    if size <= 0 || |path| == 0 || |path| % size != 0 {
      return [];
    }
    hops := [];
    var i := 0;
    while i < |path|
      invariant 0 <= i <= |path| && (|path| - i) % size == 0
      invariant hops + SplitSpec(path[i..], size) == SplitSpec(path, size)
    {
      SplitNext(hops, path, i, size);
      hops := hops + [path[i..i + size]];
      i := i + size;
    }
  }

  function Concat(hops: seq<bytes>): bytes {
    if hops == [] then [] else hops[0] + Concat(hops[1..])
  }

  predicate Uniform(hops: seq<bytes>, size: nat) {
    forall i | 0 <= i < |hops| :: |hops[i]| == size
  }

  lemma {:induction false} ConcatLength(hops: seq<bytes>, size: nat)
    requires Uniform(hops, size)
    ensures |Concat(hops)| == size * |hops|
  {
    if hops != [] {
      ConcatLength(hops[1..], size);
      assert size * |hops| == size * (|hops| - 1) + size;
    }
  }

  lemma {:induction false} SplitConcat(hops: seq<bytes>, size: nat)
    requires size > 0 && Uniform(hops, size)
    ensures |Concat(hops)| % size == 0 && SplitSpec(Concat(hops), size) == hops
  {
    ConcatLength(hops, size);
    MulMod(|hops|, size);
    if hops != [] {
      SplitConcat(hops[1..], size);
      assert Concat(hops)[..size] == hops[0] && Concat(hops)[size..] == Concat(hops[1..]);
    }
  }

  lemma {:induction false} ConcatSplit(path: bytes, size: nat)
    requires size > 0 && |path| % size == 0
    ensures Uniform(SplitSpec(path, size), size) && Concat(SplitSpec(path, size)) == path
    decreases |path|
  {
    if path != [] {
      ShorterBy(|path|, size);
      ConcatSplit(path[size..], size);
      var tail := SplitSpec(path[size..], size);
      assert SplitSpec(path, size) == [path[..size]] + tail;
      assert ([path[..size]] + tail)[1..] == tail;
      assert path == path[..size] + path[size..];
    }
  }

  predicate IsSep(c: char) {
    c == ',' || c == ' '
  }

  /** The maximal runs of characters that are not separators. */
  function Fields(s: string, cur: string): seq<string>
    decreases |s|
  {
    if s == "" then (if cur == "" then [] else [cur])
    else if IsSep(s[0]) then (if cur == "" then [] else [cur]) + Fields(s[1..], "")
    else Fields(s[1..], cur + [s[0]])
  }

  function DecodeFields(fields: seq<string>, size: nat): Option<bytes> {
    if fields == [] then Some([])
    else
      var n := |fields| - 1;
      match DecodeFields(fields[..n], size)
      case None => None
      case Some(path) =>
        if |fields[n]| != 2 * size then None
        else match Decode(fields[n])
          case None => None
          case Some(hop) => Some(path + hop)
  }

  datatype Parsed = Path(path: bytes, size: nat) | Rejected

  function ParseFields(fields: seq<string>): Parsed {
    if fields == [] then Rejected
    else
      var size := |fields[0]| / 2;
      if size == 0 || |fields[0]| % 2 != 0 || TraceFlagsFromHashSize(size).None? then Rejected
      else match DecodeFields(fields, size)
        case None => Rejected
        case Some(path) => if |path| > MAX_PATH_SIZE then Rejected else Path(path, size)
  }

  function ParseSpec(s: string): Parsed {
    ParseFields(Fields(s, ""))
  }

  lemma {:induction false} DecodeFails(fields: seq<string>, size: nat, n: nat, m: nat)
    requires n <= m <= |fields| && DecodeFields(fields[..n], size).None?
    ensures DecodeFields(fields[..m], size).None?
    decreases m
  {
    if n < m {
      DecodeFails(fields, size, n, m - 1);
      assert fields[..m][..m - 1] == fields[..m - 1];
    }
  }

  method ParsePath(s: string) returns (r: Parsed)
    ensures r == ParseSpec(s)
  {
    var fields := Fields(s, "");
    if |fields| == 0 {
      return Rejected;
    }
    var size := |fields[0]| / 2;
    if size == 0 || |fields[0]| % 2 != 0 || TraceFlagsFromHashSize(size).None? {
      return Rejected;
    }
    var path: bytes := [];
    for i := 0 to |fields|
      invariant DecodeFields(fields[..i], size) == Some(path)
    {
      assert fields[..i + 1][..i] == fields[..i];
      assert fields[..|fields|] == fields;
      var f := fields[i];
      if |f| != size * 2 || Decode(f).None? {
        DecodeFails(fields, size, i + 1, |fields|);
        return Rejected;
      }
      path := path + Decode(f).value;
    }
    assert fields[..|fields|] == fields;
    return if |path| > MAX_PATH_SIZE then Rejected else Path(path, size);
  }

  function Join(parts: seq<string>): string {
    if parts == [] then ""
    else if |parts| == 1 then parts[0]
    else parts[0] + "," + Join(parts[1..])
  }

  /** Commas, and nothing else, between the parts. */
  lemma {:induction false} JoinMore(parts: seq<string>, part: string)
    requires parts != []
    ensures Join(parts + [part]) == Join(parts) + "," + part
  {
    assert (parts + [part])[1..] == parts[1..] + [part];
    if |parts| > 1 {
      JoinMore(parts[1..], part);
    } else {
      assert parts[1..] + [part] == [part];
    }
  }

  function Texts(hops: seq<bytes>): (r: seq<string>)
    ensures |r| == |hops| && forall i | 0 <= i < |hops| :: r[i] == Encode(hops[i])
  {
    seq(|hops|, i requires 0 <= i < |hops| => Encode(hops[i]))
  }

  lemma {:induction false} FieldsRun(part: string, rest: string, cur: string)
    requires forall c | c in part :: !IsSep(c)
    ensures Fields(part + rest, cur) == Fields(rest, cur + part)
    decreases |part|
  {
    if part == "" {
      assert part + rest == rest && cur + part == cur;
    } else {
      assert part[0] in part;
      assert (part + rest)[1..] == part[1..] + rest;
      assert cur + [part[0]] + part[1..] == cur + part;
      FieldsRun(part[1..], rest, cur + [part[0]]);
    }
  }

  predicate Plain(part: string) {
    part != "" && forall c | c in part :: !IsSep(c)
  }

  /** Parts, each before a run of separators. */
  function Spaced(parts: seq<(string, string)>): string {
    if parts == [] then "" else parts[0].0 + parts[0].1 + Spaced(parts[1..])
  }

  predicate IsRun(run: string) {
    forall i | 0 <= i < |run| :: run[i] == ',' || run[i] == ' '
  }

  /** A part has no blank and no comma. */
  predicate IsPart(part: string) {
    part != "" && forall i | 0 <= i < |part| :: part[i] != ',' && part[i] != ' '
  }

  lemma {:induction false} FieldsSkip(run: string, rest: string)
    requires IsRun(run)
    ensures Fields(run + rest, "") == Fields(rest, "")
  {
    if run == "" {
      assert run + rest == rest;
    } else {
      assert (run + rest)[1..] == run[1..] + rest;
      FieldsSkip(run[1..], rest);
      assert [] + Fields(run[1..] + rest, "") == Fields(run[1..] + rest, "");
    }
  }

  lemma FieldsPart(part: string, run: string, rest: string)
    requires IsPart(part) && IsRun(run) && (run != "" || rest == "")
    ensures Fields(part + run + rest, "") == [part] + Fields(rest, "")
  {
    Regroup(part, run, rest);
    FieldsRun(part, run + rest, "");
    assert "" + part == part;
    if run != "" {
      assert (run + rest)[1..] == run[1..] + rest;
      FieldsSkip(run[1..], rest);
    } else {
      assert run + rest == "" && [part] + [] == [part];
    }
  }

  /** Hops may be separated, preceded and followed by any blanks and commas. */
  lemma {:induction false} FieldsExact(lead: string, parts: seq<(string, string)>)
    requires IsRun(lead) && forall i | 0 <= i < |parts| :: IsPart(parts[i].0) && IsRun(parts[i].1)
    requires forall i | 0 <= i < |parts| - 1 :: parts[i].1 != ""
    ensures |Fields(lead + Spaced(parts), "")| == |parts|
    ensures forall i | 0 <= i < |parts| :: Fields(lead + Spaced(parts), "")[i] == parts[i].0
    decreases |parts|
  {
    FieldsSkip(lead, Spaced(parts));
    if parts != [] {
      assert |parts| == 1 ==> Spaced(parts[1..]) == "";
      FieldsPart(parts[0].0, parts[0].1, Spaced(parts[1..]));
      FieldsExact("", parts[1..]);
      assert "" + Spaced(parts[1..]) == Spaced(parts[1..]);
    }
  }

  lemma {:induction false} FieldsOfJoin(parts: seq<string>)
    requires forall i | 0 <= i < |parts| :: Plain(parts[i])
    ensures Fields(Join(parts), "") == parts
  {
    if |parts| == 1 {
      assert Plain(parts[0]);
      FieldsRun(parts[0], "", "");
      assert parts[0] + "" == parts[0] && "" + parts[0] == parts[0];
    } else if |parts| > 1 {
      assert Plain(parts[0]);
      FieldsOfJoin(parts[1..]);
      var rest := "," + Join(parts[1..]);
      assert Join(parts) == parts[0] + rest;
      FieldsRun(parts[0], rest, "");
      assert "" + parts[0] == parts[0] && rest[1..] == Join(parts[1..]);
      assert parts == [parts[0]] + parts[1..];
    }
  }

  lemma DecodeLast(fields: seq<string>, size: nat, path: bytes, hop: bytes)
    requires |hop| == size && DecodeFields(fields, size) == Some(path)
    ensures DecodeFields(fields + [Encode(hop)], size) == Some(path + hop)
  {
    DecodeEncode(hop);
    assert (fields + [Encode(hop)])[..|fields|] == fields;
  }

  lemma TextsAppend(hops: seq<bytes>, hop: bytes)
    ensures Texts(hops + [hop]) == Texts(hops) + [Encode(hop)]
  {
  }

  lemma InitAndLast(hops: seq<bytes>)
    requires hops != []
    ensures hops == hops[..|hops| - 1] + [hops[|hops| - 1]]
  {
  }

  lemma LastHop(hops: seq<bytes>, init: seq<bytes>, last: bytes)
    requires hops == init + [last]
    ensures Texts(hops) == Texts(init) + [Encode(last)] && Concat(hops) == Concat(init) + last
  {
    TextsAppend(init, last);
    ConcatAppend(init, last);
  }

  lemma {:induction false} DecodeTexts(hops: seq<bytes>, size: nat)
    requires Uniform(hops, size)
    ensures DecodeFields(Texts(hops), size) == Some(Concat(hops))
  {
    if hops != [] {
      var n := |hops| - 1;
      var init, last := hops[..n], hops[n];
      DecodeTexts(init, size);
      DecodeLast(Texts(init), size, Concat(init), last);
      InitAndLast(hops);
      LastHop(hops, init, last);
    }
  }

  lemma {:induction false} ConcatAppend(hops: seq<bytes>, hop: bytes)
    ensures Concat(hops + [hop]) == Concat(hops) + hop
  {
    if hops == [] {
      assert hops + [hop] == [hop];
    } else {
      assert (hops + [hop])[1..] == hops[1..] + [hop];
      ConcatAppend(hops[1..], hop);
    }
  }

  lemma {:induction false} HexIsPlain(s: string)
    requires s != "" && Decode(s).Some?
    ensures Plain(s)
  {
    DecodesIff(s);
  }

  lemma TextsArePlain(hops: seq<bytes>, size: nat)
    requires size > 0 && Uniform(hops, size)
    ensures forall i | 0 <= i < |hops| :: Plain(Texts(hops)[i])
  {
    forall i | 0 <= i < |hops|
      ensures Plain(Texts(hops)[i])
    {
      DecodeEncode(hops[i]);
      HexIsPlain(Encode(hops[i]));
    }
  }

  lemma ParseTexts(fields: seq<string>, path: bytes, size: nat)
    requires fields != [] && Supported(size) && |fields[0]| == 2 * size
    requires DecodeFields(fields, size) == Some(path)
    ensures ParseFields(fields) == if |path| <= MAX_PATH_SIZE then Path(path, size) else Rejected
  {
  }

  /** Printing hops of one supported width and parsing the text gives the same path and
      width, and so the same hops, exactly when they fit. */
  lemma PrintParse(hops: seq<bytes>, size: nat)
    requires hops != [] && Supported(size) && Uniform(hops, size)
    ensures ParseSpec(Join(Texts(hops)))
         == if size * |hops| <= MAX_PATH_SIZE then Path(Concat(hops), size) else Rejected
    ensures |Concat(hops)| % size == 0 && SplitSpec(Concat(hops), size) == hops
  {
    TextsArePlain(hops, size);
    FieldsOfJoin(Texts(hops));
    DecodeTexts(hops, size);
    ConcatLength(hops, size);
    SplitConcat(hops, size);
    ParseTexts(Texts(hops), Concat(hops), size);
  }

  // ---------------------------------------------------------------------------
  // Which texts are paths
  // ---------------------------------------------------------------------------

  /** The characters Go's TrimSpace removes. */
  predicate IsSpace(c: char) {
    var n := c as int;
    9 <= n <= 13 || n == 0x20 || n == 0x85 || n == 0xa0 || n == 0x1680 || 0x2000 <= n <= 0x200a
    || n == 0x2028 || n == 0x2029 || n == 0x202f || n == 0x205f || n == 0x3000
  }

  function TrimLeft(s: string): string {
    if s != "" && IsSpace(s[0]) then TrimLeft(s[1..]) else s
  }

  function TrimRight(s: string): string {
    if s != "" && IsSpace(s[|s| - 1]) then TrimRight(s[..|s| - 1]) else s
  }

  /** White space: tab to carriage return, blank, next line, and the Unicode spaces. */
  predicate White(c: char) {
    c as int in {9, 10, 11, 12, 13, 0x20, 0x85, 0xa0, 0x1680, 0x2000, 0x2001, 0x2002, 0x2003, 0x2004, 0x2005, 0x2006,
                 0x2007, 0x2008, 0x2009, 0x200a, 0x2028, 0x2029, 0x202f, 0x205f, 0x3000}
  }

  lemma {:induction false} TrimLeftExact(lead: string, text: string)
    requires (forall i | 0 <= i < |lead| :: White(lead[i])) && (text != "" ==> !White(text[0]))
    ensures TrimLeft(lead + text) == text
  {
    if lead == "" {
      assert lead + text == text;
    } else {
      assert (lead + text)[1..] == lead[1..] + text;
      TrimLeftExact(lead[1..], text);
    }
  }

  lemma {:induction false} TrimRightExact(text: string, trail: string)
    requires (forall i | 0 <= i < |trail| :: White(trail[i])) && (text != "" ==> !White(text[|text| - 1]))
    ensures TrimRight(text + trail) == text
  {
    if trail == "" {
      assert text + trail == text;
    } else {
      var n := |trail| - 1;
      assert (text + trail)[..|text| + n] == text + trail[..n];
      TrimRightExact(text, trail[..n]);
    }
  }

  /** White space around a text does not count, and nothing else is dropped. */
  lemma TrimExact(lead: string, text: string, trail: string)
    requires forall i | 0 <= i < |lead| :: White(lead[i])
    requires forall i | 0 <= i < |trail| :: White(trail[i])
    requires text != "" && !White(text[0]) && !White(text[|text| - 1])
    ensures TrimRight(TrimLeft(lead + text + trail)) == text
  {
    Regroup(lead, text, trail);
    TrimLeftExact(lead, text + trail);
    TrimRightExact(text, trail);
  }

  predicate AllHex(f: string) {
    forall i | 0 <= i < |f| :: IsHexDigit(f[i])
  }

  predicate HexHop(f: string) {
    f != "" && |f| % 2 == 0 && AllHex(f)
  }

  predicate HexTarget(s: string) {
    var fields := Fields(TrimRight(TrimLeft(s)), "");
    fields != [] && forall i | 0 <= i < |fields| :: HexHop(fields[i])
  }

  method IsHexTraceTarget(s: string) returns (ok: bool)
    ensures ok == HexTarget(s)
  {
    var fields := Fields(TrimRight(TrimLeft(s)), "");
    if |fields| == 0 {
      return false;
    }
    for k := 0 to |fields|
      invariant forall i | 0 <= i < k :: HexHop(fields[i])
    {
      var f := fields[k];
      if f == "" || |f| % 2 != 0 {
        assert !HexHop(fields[k]);
        return false;
      }
      for j := 0 to |f|
        invariant forall i | 0 <= i < j :: IsHexDigit(f[i])
      {
        if !IsHexDigit(f[j]) {
          assert !HexHop(fields[k]);
          return false;
        }
      }
    }
    return true;
  }

  predicate HopsOf(fields: seq<string>, size: nat) {
    forall i | 0 <= i < |fields| :: |fields[i]| == 2 * size && AllHex(fields[i])
  }

  lemma {:induction false} FieldsDecodeIff(fields: seq<string>, size: nat)
    ensures DecodeFields(fields, size).Some? <==> HopsOf(fields, size)
    ensures DecodeFields(fields, size).Some? ==> |DecodeFields(fields, size).value| == size * |fields|
  {
    if fields != [] {
      var n := |fields| - 1;
      FieldsDecodeIff(fields[..n], size);
      DecodesIff(fields[n]);
      assert HopsOf(fields, size) <==> HopsOf(fields[..n], size) && |fields[n]| == 2 * size && AllHex(fields[n]);
      assert size * |fields| == size * n + size;
    }
  }

  /** The texts taken as paths: one to 64 bytes of hops of one supported width. */
  lemma ParseAcceptsIff(s: string)
    ensures ParseSpec(s).Path?
       <==> exists size: nat :: Supported(size) && HopsOf(Fields(s, ""), size)
                           && 0 < size * |Fields(s, "")| <= MAX_PATH_SIZE
    ensures ParseSpec(s).Path? ==>
      var size := ParseSpec(s).size;
      Supported(size) && HopsOf(Fields(s, ""), size)
      && |ParseSpec(s).path| == size * |Fields(s, "")| && 0 < size * |Fields(s, "")| <= MAX_PATH_SIZE
  {
    var fields := Fields(s, "");
    if fields != [] {
      FieldsDecodeIff(fields, |fields[0]| / 2);
    }
  }

  lemma {:induction false} FieldChars(s: string, cur: string)
    requires forall i | 0 <= i < |Fields(s, cur)| :: AllHex(Fields(s, cur)[i])
    ensures AllHex(cur)
    ensures forall i | 0 <= i < |s| :: IsSep(s[i]) || IsHexDigit(s[i])
    decreases |s|
  {
    if s != "" {
      if IsSep(s[0]) {
        var head, tail := if cur == "" then [] else [cur], Fields(s[1..], "");
        assert Fields(s, cur) == head + tail;
        assert forall i | 0 <= i < |tail| :: tail[i] == (head + tail)[i + |head|];
        FieldChars(s[1..], "");
        assert cur != "" ==> cur == (head + tail)[0];
      } else {
        assert Fields(s, cur) == Fields(s[1..], cur + [s[0]]);
        FieldChars(s[1..], cur + [s[0]]);
        assert (cur + [s[0]])[|cur|] == s[0];
        assert forall i | 0 <= i < |cur| :: cur[i] == (cur + [s[0]])[i];
      }
      assert forall i | 1 <= i < |s| :: s[i] == s[1..][i - 1];
    } else if cur != "" {
      assert cur == Fields(s, cur)[0];
    }
  }

  predicate PathChars(s: string) {
    forall i | 0 <= i < |s| :: IsSep(s[i]) || IsHexDigit(s[i])
  }

  lemma {:induction false} FieldsTrailing(s: string, cur: string)
    ensures Fields(s + " ", cur) == Fields(s, cur)
    decreases |s|
  {
    if s != "" {
      assert (s + " ")[1..] == s[1..] + " ";
      FieldsTrailing(s[1..], if IsSep(s[0]) then "" else cur + [s[0]]);
    }
  }

  lemma {:induction false} TrimLeftKeepsFields(s: string)
    requires PathChars(s)
    ensures Fields(TrimLeft(s), "") == Fields(s, "") && PathChars(TrimLeft(s))
  {
    if s != "" && IsSpace(s[0]) {
      TrimLeftKeepsFields(s[1..]);
    }
  }

  lemma {:induction false} TrimRightKeepsFields(s: string)
    requires PathChars(s)
    ensures Fields(TrimRight(s), "") == Fields(s, "")
  {
    if s != "" && IsSpace(s[|s| - 1]) {
      var t := s[..|s| - 1];
      TrimRightKeepsFields(t);
      FieldsTrailing(t, "");
      assert s == t + " ";
    }
  }

  /** Every text taken as a path is recognised as a trace target rather than a name. */
  lemma AcceptedIsTarget(s: string)
    requires ParseSpec(s).Path?
    ensures HexTarget(s)
  {
    ParseAcceptsIff(s);
    FieldChars(s, "");
    TrimLeftKeepsFields(s);
    TrimRightKeepsFields(TrimLeft(s));
  }

  predicate OneWidth(fields: seq<string>, size: nat) {
    Supported(size) && size * |fields| <= MAX_PATH_SIZE
    && forall i | 0 <= i < |fields| :: |fields[i]| == 2 * size
  }

  lemma WidthOfHex(fields: seq<string>, size: nat)
    requires fields != [] && OneWidth(fields, size) && forall i | 0 <= i < |fields| :: HexHop(fields[i])
    ensures HopsOf(fields, size) && size * |fields| > 0
  {
    MulAtLeast(size, |fields|);
  }

  /** A target is taken as a path exactly when nothing but blanks surrounds it, its hops
      have one supported width, and they fit. */
  lemma TargetParsesIff(s: string)
    requires HexTarget(s)
    ensures ParseSpec(s).Path?
       <==> PathChars(s) && exists size: nat :: OneWidth(Fields(s, ""), size)
  {
    var fields := Fields(s, "");
    ParseAcceptsIff(s);
    if ParseSpec(s).Path? {
      FieldChars(s, "");
      assert OneWidth(fields, ParseSpec(s).size);
    }
    if PathChars(s) {
      TrimLeftKeepsFields(s);
      TrimRightKeepsFields(TrimLeft(s));
      forall size: nat | OneWidth(fields, size)
        ensures HopsOf(fields, size) && size * |fields| > 0
      {
        WidthOfHex(fields, size);
      }
    }
  }

  /** A tab before a path: recognised as a target, rejected as a path. */
  lemma TabbedTargetIsRejected()
    ensures HexTarget("\tab") && ParseSpec("\tab") == Rejected
  {
    var s := "\tab";
    assert s[1..] == "ab" && TrimLeft("ab") == "ab" && TrimRight("ab") == "ab";
    FieldsRun("ab", "", "");
    assert "ab" + "" == "ab" && "" + "ab" == "ab";
    FieldsRun(s, "", "");
    assert s + "" == s && "" + s == s;
    assert Fields(s, "") == [s];
  }

  /** Splitting an accepted path and printing its hops gives a text for the same path. */
  lemma ReprintParses(s: string)
    requires ParseSpec(s).Path?
    ensures var r := ParseSpec(s);
            r.size > 0 && |r.path| % r.size == 0
            && ParseSpec(Join(Texts(SplitSpec(r.path, r.size)))) == r
            && |SplitSpec(r.path, r.size)| == |Fields(s, "")|
  {
    var r, n := ParseSpec(s), |Fields(s, "")|;
    ParseAcceptsIff(s);
    MulMod(n, r.size);
    ConcatSplit(r.path, r.size);
    var hops := SplitSpec(r.path, r.size);
    ConcatLength(hops, r.size);
    SameFactor(r.size, |hops|, n);
    PrintParse(hops, r.size);
  }

  lemma SameFactor(size: nat, n: nat, m: nat)
    requires size > 0 && size * n == size * m
    ensures n == m
  {
    MulAtLeast(size, n - m);
    assert size * (n - m) == 0;
  }
}
