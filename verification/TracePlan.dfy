/**
 Planning a trace to a contact (paths.go): along its stored route when there is one, else
 straight to a prefix of its key.
 */
module TracePlan {
  import opened Common
  import opened Hex
  import opened PathHash

  const KEY_LEN := 32

  /** A contact as the planner sees it; the key is hexadecimal text. */
  datatype Contact = Contact(name: string, publicKey: string, hasPath: bool, outPathEnc: byte, outPath: bytes)

  datatype Source = ContactOutPath | ContactDirectPath | ContactKeyFallback | ExplicitPath

  datatype Traced =
    | Traced(route: Route)
    | Failed          // an error is returned
    | SlicesPastKey   // the key is sliced beyond its length

  datatype Planned =
    | Plan(name: string, source: Source, route: Route, hopCount: nat, outPathEnc: byte, prefixHint: int)
    | NoPlan(why: Traced)

  predicate UsesStoredRoute(ct: Contact) {
    ct.hasPath && HasStoredOutPath(ct.outPathEnc, ct.outPath)
  }

  predicate IsDirect(ct: Contact) {
    ct.hasPath && IsDirectOutPath(ct.outPathEnc)
  }

  function TraceKeyFallback(ct: Contact, hint: int): Traced {
    match Decode(ct.publicKey)
    case None => Failed
    case Some(key) =>
      if key == [] then Failed
      else
        var wanted := NearestTraceHashSize(if hint <= 0 then 2 else hint);
        var size := if wanted > |key| then NearestTraceHashSize(|key|) else wanted;
        match TraceFlagsFromHashSize(size)
        case None => Failed
        case Some(flags) =>
          if size > |key| then SlicesPastKey else Traced(Route(key[..size], size, flags))
  }

  function TracePathForContact(ct: Contact, hint: int): Traced {
    if UsesStoredRoute(ct) then
      match RouteSpec(ct.outPathEnc, ct.outPath)
      case None => Failed
      case Some(route) => Traced(route)
    else if IsDirect(ct) && hint <= 0 then
      TraceKeyFallback(ct, HashSizeFromPathMeta(ct.outPathEnc))
    else
      TraceKeyFallback(ct, hint)
  }

  function HopCount(path: bytes, size: nat): nat {
    if size == 0 || path == [] then 0 else |path| / size
  }

  function PlanTraceContact(ct: Contact, hint: int): Planned {
    match TracePathForContact(ct, hint)
    case Traced(route) =>
      var hops := HopCount(route.path, route.hashSize);
      if UsesStoredRoute(ct) then Plan(ct.name, ContactOutPath, route, hops, ct.outPathEnc, hint)
      else if IsDirect(ct) then Plan(ct.name, ContactDirectPath, route, hops, ct.outPathEnc, hint)
      else Plan(ct.name, ContactKeyFallback, route, hops, 0, hint)
    case failure => NoPlan(failure)
  }

  // ---------------------------------------------------------------------------
  // Stored routes
  // ---------------------------------------------------------------------------

  /** `path` is `n` hops of `size` bytes, each the start of the matching `width`-byte hop
      of `raw`. */
  ghost predicate HopsOfRoute(path: bytes, size: nat, raw: bytes, width: nat, n: nat) {
    && |path| == size * n
    && forall i | 0 <= i < n ::
         size * i + size <= |path| && width * i + size <= |raw|
         && path[size * i..size * i + size] == raw[width * i..width * i + size]
  }

  lemma {:induction false} CutHopsMatch(path: bytes, n: nat)
    requires 3 * n <= |path| + 1
    ensures HopsOfRoute(CutHops(path, n), 2, path, 3, n)
  {
    if n > 0 {
      CutHopsMatch(path, n - 1);
      var init, off := CutHops(path, n - 1), 3 * (n - 1);
      assert CutHops(path, n) == init + path[off..off + 2];
      forall i | 0 <= i < n
        ensures 2 * i + 2 <= 2 * n
                && CutHops(path, n)[2 * i..2 * i + 2] == path[3 * i..3 * i + 2]
      {
        if i < n - 1 {
          assert CutHops(path, n)[2 * i..2 * i + 2] == init[2 * i..2 * i + 2];
        }
      }
    }
  }

  lemma PrefixMatches(raw: bytes, width: nat, n: nat)
    requires 0 < width <= 4 && width * n <= |raw|
    ensures HopsOfRoute(raw[..width * n], width, raw, width, n)
  {
    forall i | 0 <= i < n
      ensures width * i + width <= width * n
    {
      MulAtLeast(width, n - i);
      assert width * n == width * i + width * (n - i);
    }
  }

  /** The hops that 64 stored bytes hold. */
  function StoredHops(encoded: byte): nat {
    Min(HopCountFromPathMeta(encoded), MAX_PATH_SIZE / HashSizeFromPathMeta(encoded))
  }

  /** How much of 64 stored bytes a route takes: whole hops, except that a 3-byte route
      that overruns them leaves one byte over. */
  lemma StoredBytes(encoded: byte, raw: bytes)
    requires |raw| == MAX_PATH_SIZE
    ensures var width, hops, n := HashSizeFromPathMeta(encoded), HopCountFromPathMeta(encoded), StoredHops(encoded);
            && width * n <= |raw|
            && (width != 3 ==> PathBytes(encoded, raw) == raw[..width * n])
            && (width == 3 ==>
                  && PathBytes(encoded, raw) <= raw && 3 * n <= |PathBytes(encoded, raw)|
                  && (n < hops ==> 3 * n + 2 > |PathBytes(encoded, raw)|))
  {
    var width := HashSizeFromPathMeta(encoded);
    if width == 1 {
    } else if width == 2 {
    } else if width == 3 {
    } else {
      assert width == 4;
    }
  }

  /** `r` is the stored route: the hops that 64 bytes hold, 3-byte hops cut to two. */
  ghost predicate IsStoredRoute(r: Route, encoded: byte, raw: bytes) {
    var width := HashSizeFromPathMeta(encoded);
    && r.hashSize == (if width == 3 then 2 else width)
    && TraceFlagsFromHashSize(r.hashSize) == Some(r.flags)
    && HopsOfRoute(r.path, r.hashSize, raw, width, StoredHops(encoded))
  }

  /** A route stored in 64 bytes becomes as many of its hops as those bytes hold, 3-byte
      hops cut to two bytes. */
  lemma StoredRouteExact(encoded: byte, raw: bytes)
    requires HasStoredOutPath(encoded, raw) && |raw| == MAX_PATH_SIZE
    ensures RouteSpec(encoded, raw).Some? && IsStoredRoute(RouteSpec(encoded, raw).value, encoded, raw)
  {
    var width, hops, n := HashSizeFromPathMeta(encoded), HopCountFromPathMeta(encoded), StoredHops(encoded);
    var path := PathBytes(encoded, raw);
    StoredBytes(encoded, raw);
    if width == 3 {
      if n < hops {
        CutStops(path, n, hops);
      }
      CutHopsMatch(path, n);
      CutOfRaw(path, raw, n);
    } else {
      PrefixMatches(raw, width, n);
    }
  }

  lemma CutOfRaw(path: bytes, raw: bytes, n: nat)
    requires path <= raw && HopsOfRoute(CutHops(path, n), 2, path, 3, n)
    ensures HopsOfRoute(CutHops(path, n), 2, raw, 3, n)
  {
    forall i | 0 <= i < n
      ensures 3 * i + 2 <= |raw| && CutHops(path, n)[2 * i..2 * i + 2] == raw[3 * i..3 * i + 2]
    {
      assert path[3 * i..3 * i + 2] == raw[3 * i..3 * i + 2];
    }
  }

  // ---------------------------------------------------------------------------
  // Plans
  // ---------------------------------------------------------------------------

  /** The key fallback reaches past the key exactly for keys of 3, 5, 6 or 7 bytes shorter
      than the width wanted. */
  lemma FallbackPastKeyIff(ct: Contact, hint: int)
    requires Decode(ct.publicKey).Some?
    ensures TraceKeyFallback(ct, hint) == SlicesPastKey
       <==> |Decode(ct.publicKey).value| in {3, 5, 6, 7}
            && NearestTraceHashSize(if hint <= 0 then 2 else hint) > |Decode(ct.publicKey).value|
  {
  }

  /** A 3-byte key and a 4-byte hint. */
  lemma ShortKeySlicesPast(name: string)
    ensures PlanTraceContact(Contact(name, "a1b2c3", false, OUT_PATH_UNKNOWN, []), 4) == NoPlan(SlicesPastKey)
  {
    DecodesIff("a1b2c3");
  }

  ghost predicate WellFormed(p: Planned) {
    && p.Plan?
    && HashSizeFromTraceFlags(p.route.flags) == p.route.hashSize
    && p.route.path != []
    && |p.route.path| == p.hopCount * p.route.hashSize
    && |p.route.path| <= MAX_PATH_SIZE
  }

  predicate FromDevice(ct: Contact) {
    && Decode(ct.publicKey).Some?
    && |Decode(ct.publicKey).value| == KEY_LEN
    && (|ct.outPath| == 0 || |ct.outPath| == MAX_PATH_SIZE)
  }

  lemma StoredPlanRoute(ct: Contact, hint: int)
    requires UsesStoredRoute(ct) && RouteSpec(ct.outPathEnc, ct.outPath).Some?
    ensures var p, route := PlanTraceContact(ct, hint), RouteSpec(ct.outPathEnc, ct.outPath).value;
            p.Plan? && p.route == route && p.hopCount == HopCount(route.path, route.hashSize)
  {
  }

  lemma RouteHopCount(r: Route, encoded: byte, raw: bytes)
    requires IsStoredRoute(r, encoded, raw)
    ensures HopCount(r.path, r.hashSize) == StoredHops(encoded)
    ensures HashSizeFromTraceFlags(r.flags) == r.hashSize
  {
    CountHops(r.hashSize, StoredHops(encoded));
  }

  /** Along a stored route the plan visits the first hops of that route, in order, as many
      as 64 bytes hold. */
  lemma StoredPlanFollowsRoute(ct: Contact, hint: int)
    requires FromDevice(ct) && UsesStoredRoute(ct)
    ensures var p, width := PlanTraceContact(ct, hint), HashSizeFromPathMeta(ct.outPathEnc);
            && p.Plan?
            && p.hopCount == Min(HopCountFromPathMeta(ct.outPathEnc), MAX_PATH_SIZE / width)
            && p.route.hashSize == (if width == 3 then 2 else width)
            && HashSizeFromTraceFlags(p.route.flags) == p.route.hashSize
            && HopsOfRoute(p.route.path, p.route.hashSize, ct.outPath, width, p.hopCount)
  {
    StoredRouteExact(ct.outPathEnc, ct.outPath);
    StoredPlanRoute(ct, hint);
    RouteHopCount(RouteSpec(ct.outPathEnc, ct.outPath).value, ct.outPathEnc, ct.outPath);
  }

  /** Without a stored route the plan is one hop: the key's first bytes, as many as the
      nearest width not below the one wanted. */
  lemma DirectPlanIsKeyPrefix(ct: Contact, hint: int)
    requires FromDevice(ct) && !UsesStoredRoute(ct)
    ensures var p, key := PlanTraceContact(ct, hint), Decode(ct.publicKey).value;
            var wanted := if hint > 0 then hint
                          else if ct.hasPath && ct.outPathEnc % 64 == 0 then ct.outPathEnc as int / 64 + 1 else 2;
            && p.Plan? && p.hopCount == 1 && p.route.path <= key && |p.route.path| == p.route.hashSize
            && (if wanted > 8 then p.route.hashSize == 8
                else p.route.hashSize in {1, 2, 4, 8} && wanted <= p.route.hashSize
                     && (p.route.hashSize == 1 || p.route.hashSize < 2 * wanted))
            && p.source == (if ct.hasPath && ct.outPathEnc % 64 == 0 then ContactDirectPath else ContactKeyFallback)
  {
    PathBytesExact(ct.outPathEnc, ct.outPath);
    NearestIsLeast(if hint > 0 then hint else if IsDirect(ct) then HashSizeFromPathMeta(ct.outPathEnc) else 2);
  }

  /** What a plan says of the contact it was made for. */
  lemma PlanNames(ct: Contact, hint: int)
    requires PlanTraceContact(ct, hint).Plan?
    ensures var p := PlanTraceContact(ct, hint);
            && p.name == ct.name && p.prefixHint == hint
            && p.outPathEnc == (if p.source.ContactKeyFallback? then 0 else ct.outPathEnc)
            && (p.source.ContactOutPath? <==>
                  ct.hasPath && ct.outPathEnc != 0xff && ct.outPathEnc % 64 != 0 && ct.outPath != [])
  {
    PathBytesExact(ct.outPathEnc, ct.outPath);
  }

  lemma PlanIsWellFormed(ct: Contact, hint: int)
    requires FromDevice(ct)
    ensures WellFormed(PlanTraceContact(ct, hint))
    ensures PlanTraceContact(ct, hint).source.ContactOutPath? <==> UsesStoredRoute(ct)
  {
    if UsesStoredRoute(ct) {
      StoredPlanFollowsRoute(ct, hint);
    } else {
      DirectPlanIsKeyPrefix(ct, hint);
    }
  }

  function ExplicitTracePlan(target: string): Planned {
    match ParseSpec(target)
    case Rejected => NoPlan(Failed)
    case Path(path, size) =>
      match TraceFlagsFromHashSize(size)
      case None => NoPlan(Failed)
      case Some(flags) => Plan(target, ExplicitPath, Route(path, size, flags), HopCount(path, size), 0, 0)
  }

  lemma CountHops(size: nat, n: nat)
    requires Supported(size)
    ensures (size * n) / size == n
  {
  }

  /** An explicit path is planned exactly when it parses, with one hop for each that was
      written. */
  lemma ExplicitPlanIsWellFormed(target: string)
    ensures ExplicitTracePlan(target).Plan? <==> ParseSpec(target).Path?
    ensures ExplicitTracePlan(target).Plan? ==>
              var p := ExplicitTracePlan(target);
              && WellFormed(p) && p.hopCount == |Fields(target, "")|
              && p == Plan(target, ExplicitPath, p.route, p.hopCount, 0, 0)
  {
    if ParseSpec(target).Path? {
      ParseAcceptsIff(target);
      CountHops(ParseSpec(target).size, |Fields(target, "")|);
    }
  }
}
