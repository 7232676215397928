/**
 The return target of a trace (traceReturnTarget in cmd/mc/internal/cli/messaging.go):
 there and back again along an explicit path.
 */
module ReturnTarget {
  import opened Common
  import opened Hex
  import opened PathHash

  datatype Target = Target(text: string) | NotAPath | BadPath

  function Backwards(hops: seq<bytes>): (r: seq<bytes>)
    requires hops != []
    ensures |r| == |hops| - 1 && forall i | 0 <= i < |r| :: r[i] == hops[|hops| - 2 - i]
  {
    seq(|hops| - 1, i requires 0 <= i < |hops| - 1 => hops[|hops| - 2 - i])
  }

  /** The hops out, then all but the last of them in reverse. */
  function Palindrome(hops: seq<bytes>): (r: seq<bytes>)
    requires hops != []
    ensures |r| == 2 * |hops| - 1
  {
    hops + Backwards(hops)
  }

  function HopsOfPath(path: bytes, size: nat): seq<bytes> {
    if size == 0 || |path| % size != 0 then [] else SplitSpec(path, size)
  }

  function TargetSpec(target: string): Target {
    if !HexTarget(target) then NotAPath
    else match ParseSpec(target)
      case Rejected => BadPath
      case Path(path, size) =>
        var hops := HopsOfPath(path, size);
        if |hops| < 2 then Target(target) else Target(Join(Texts(Palindrome(hops))))
  }

  method TraceReturnTarget(target: string) returns (r: Target)
    ensures r == TargetSpec(target)
  {
    var ok := IsHexTraceTarget(target);
    if !ok {
      return NotAPath;
    }
    var parsed := ParsePath(target);
    if parsed.Rejected? {
      return BadPath;
    }
    var hops := Split(parsed.path, parsed.size);
    if |hops| < 2 {
      return Target(target);
    }
    var parts := PrintOutAndBack(hops);
    return Target(Join(parts));
  }

  lemma TextOut(hops: seq<bytes>, k: nat)
    requires k < |hops|
    ensures var all := Texts(Palindrome(hops)); all[..k + 1] == all[..k] + [Encode(hops[k])]
  {
    var all := Texts(Palindrome(hops));
    assert all[k] == Encode(hops[k]);
  }

  lemma TextBack(hops: seq<bytes>, i: nat)
    requires i <= |hops| - 2
    ensures var all, k := Texts(Palindrome(hops)), 2 * |hops| - 2 - i; all[..k + 1] == all[..k] + [Encode(hops[i])]
  {
    var all, k := Texts(Palindrome(hops)), 2 * |hops| - 2 - i;
    assert Palindrome(hops)[k] == Backwards(hops)[k - |hops|] == hops[i];
  }

  method PrintOutAndBack(hops: seq<bytes>) returns (parts: seq<string>)
    requires hops != []
    ensures parts == Texts(Palindrome(hops))
  {
    ghost var all := Texts(Palindrome(hops));
    parts := [];
    for k := 0 to |hops|
      invariant parts == all[..k]
    {
      TextOut(hops, k);
      parts := parts + [Encode(hops[k])];
    }
    var i := |hops| - 2;
    while i >= 0
      invariant -1 <= i <= |hops| - 2
      invariant parts == all[..2 * |hops| - 2 - i]
    {
      TextBack(hops, i);
      parts := parts + [Encode(hops[i])];
      i := i - 1;
    }
  }

  ghost predicate SameBothWays(hops: seq<bytes>) {
    forall i | 0 <= i < |hops| :: hops[i] == hops[|hops| - 1 - i]
  }

  lemma PalindromeReads(hops: seq<bytes>)
    requires hops != []
    ensures hops <= Palindrome(hops)
    ensures SameBothWays(Palindrome(hops))
    ensures forall size: nat :: Uniform(hops, size) ==> Uniform(Palindrome(hops), size)
  {
  }

  /** `back` is a path of 2n - 1 hops, the same both ways, that begins with the n hops of
      `path`. */
  ghost predicate ReadsOutAndBack(path: bytes, back: Parsed, size: nat, n: nat) {
    && back.Path? && back.size == size
    && path <= back.path
    && var hops := HopsOfPath(back.path, size);
       |hops| == 2 * n - 1
       && SameBothWays(hops)
       && hops[..n] == HopsOfPath(path, size)
  }

  lemma HopsOutAndBack(hops: seq<bytes>, size: nat)
    requires hops != [] && Supported(size) && Uniform(hops, size)
    ensures var n, back := |hops|, ParseSpec(Join(Texts(Palindrome(hops))));
            if size * (2 * n - 1) <= MAX_PATH_SIZE then ReadsOutAndBack(Concat(hops), back, size, n)
            else back == Rejected
  {
    var all := Palindrome(hops);
    PalindromeReads(hops);
    PrintParse(all, size);
    SplitConcat(hops, size);
    ConcatPrefix(hops, all);
    assert all[..|hops|] == hops;
  }

  /** The return target of two or more hops, when it fits, parses to the path out and back
      that starts with the original one; when it does not fit it is rejected as a path. */
  lemma ReturnParses(target: string)
    requires ParseSpec(target).Path? && |Fields(target, "")| >= 2
    ensures TargetSpec(target).Target?
    ensures var size, n, back := ParseSpec(target).size, |Fields(target, "")|, ParseSpec(TargetSpec(target).text);
            if size * (2 * n - 1) <= MAX_PATH_SIZE then
              ReadsOutAndBack(ParseSpec(target).path, back, size, n)
            else
              back == Rejected
  {
    var parsed := ParseSpec(target);
    AcceptedIsTarget(target);
    ReprintParses(target);
    ParseAcceptsIff(target);
    ConcatSplit(parsed.path, parsed.size);
    HopsOutAndBack(SplitSpec(parsed.path, parsed.size), parsed.size);
  }

  lemma {:induction false} ConcatPrefix(a: seq<bytes>, b: seq<bytes>)
    requires a <= b
    ensures Concat(a) <= Concat(b)
  {
    if a != [] {
      ConcatPrefix(a[1..], b[1..]);
      assert a[0] == b[0];
    }
  }

  /** A single hop is its own return target, and every text that is no path is refused. */
  lemma ReturnOtherwise(target: string)
    ensures ParseSpec(target).Path? && |Fields(target, "")| < 2 ==> TargetSpec(target) == Target(target)
    ensures ParseSpec(target).Rejected? <==> !TargetSpec(target).Target?
    ensures TargetSpec(target) == NotAPath <==> !HexTarget(target)
  {
    if ParseSpec(target).Path? {
      AcceptedIsTarget(target);
      ReprintParses(target);
    }
  }
}
