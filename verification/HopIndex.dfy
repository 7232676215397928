/**
 Naming the hops of a trace (cmd/mc/internal/cli/messaging.go): an index from the text of
 key prefixes of 8, 4, 2 and 1 bytes to contact names, built once, and the lookup of a
 hop in it.
 */
module HopIndex {
  import opened Common
  import opened Hex
  import opened TextOrder

  datatype Contact = Contact(name: string, publicKey: string)

  /** What a hop resolves to. */
  datatype Node = Node(hash: string, name: string, names: seq<string>, ambiguous: bool)

  const WIDTHS: seq<nat> := [8, 4, 2, 1]

  type Index = map<string, seq<string>>

  function KeyBytes(ct: Contact): Option<bytes> {
    match Decode(ct.publicKey)
    case None => None
    case Some(key) => if key == [] then None else Some(key)
  }

  function Lookup(idx: Index, prefix: string): seq<string> {
    if prefix in idx then idx[prefix] else []
  }

  function WithName(names: seq<string>, name: string): seq<string> {
    if name in names then names else names + [name]
  }

  // ---------------------------------------------------------------------------
  // Building the index
  // ---------------------------------------------------------------------------

  /** `prefix` is the text of the key's first bytes, for one of the first `n` widths. */
  predicate IsPrefixText(key: bytes, prefix: string, n: nat)
    requires n <= |WIDTHS|
  {
    OneOfPrefixes(key, prefix, WIDTHS[..n])
  }

  predicate OneOfPrefixes(key: bytes, prefix: string, widths: seq<nat>) {
    exists j | 0 <= j < |widths| :: widths[j] <= |key| && Encode(key[..widths[j]]) == prefix
  }

  predicate Listed(ct: Contact, prefix: string) {
    KeyBytes(ct).Some? && ct.name != "" && IsPrefixText(KeyBytes(ct).value, prefix, |WIDTHS|)
  }

  /** The names under one prefix, by a scan over all contacts. */
  function Scan(contacts: seq<Contact>, prefix: string): seq<string> {
    if contacts == [] then []
    else
      var n := |contacts| - 1;
      var names := Scan(contacts[..n], prefix);
      if Listed(contacts[n], prefix) then WithName(names, contacts[n].name) else names
  }

  ghost predicate Indexes(idx: Index, contacts: seq<Contact>) {
    forall prefix :: Lookup(idx, prefix) == Scan(contacts, prefix)
  }

  /** `idx` is the index of `contacts` with `name` added under the first `n` prefixes. */
  ghost predicate Partly(idx: Index, contacts: seq<Contact>, key: bytes, name: string, n: nat)
    requires n <= |WIDTHS|
  {
    forall prefix :: Lookup(idx, prefix)
      == if IsPrefixText(key, prefix, n) then WithName(Scan(contacts, prefix), name) else Scan(contacts, prefix)
  }

  lemma OneMoreWidth(key: bytes, prefix: string, widths: seq<nat>, width: nat)
    ensures OneOfPrefixes(key, prefix, widths + [width])
       <==> OneOfPrefixes(key, prefix, widths) || (width <= |key| && Encode(key[..width]) == prefix)
  {
    var all := widths + [width];
    assert all[|widths|] == width;
    assert forall j | 0 <= j < |widths| :: all[j] == widths[j];
  }

  lemma NextWidth(key: bytes, prefix: string, n: nat)
    requires n < |WIDTHS|
    ensures IsPrefixText(key, prefix, n + 1)
       <==> IsPrefixText(key, prefix, n) || (WIDTHS[n] <= |key| && Encode(key[..WIDTHS[n]]) == prefix)
  {
    OneMoreWidth(key, prefix, WIDTHS[..n], WIDTHS[n]);
    assert WIDTHS[..n + 1] == WIDTHS[..n] + [WIDTHS[n]];
  }

  lemma AddKeepsPartly(idx: Index, idx': Index, contacts: seq<Contact>, key: bytes, name: string, n: nat, text: string)
    requires n < |WIDTHS| && Partly(idx, contacts, key, name, n)
    requires WIDTHS[n] <= |key| && text == Encode(key[..WIDTHS[n]])
    requires forall p :: Lookup(idx', p) == if p == text then WithName(Lookup(idx, p), name) else Lookup(idx, p)
    ensures Partly(idx', contacts, key, name, n + 1)
  {
    forall prefix
      ensures Lookup(idx', prefix)
        == if IsPrefixText(key, prefix, n + 1) then WithName(Scan(contacts, prefix), name) else Scan(contacts, prefix)
    {
      NextWidth(key, prefix, n);
    }
  }

  lemma SkipKeepsPartly(idx: Index, contacts: seq<Contact>, key: bytes, name: string, n: nat)
    requires n < |WIDTHS| && Partly(idx, contacts, key, name, n) && |key| < WIDTHS[n]
    ensures Partly(idx, contacts, key, name, n + 1)
  {
    forall prefix
      ensures IsPrefixText(key, prefix, n + 1) <==> IsPrefixText(key, prefix, n)
    {
      NextWidth(key, prefix, n);
    }
  }

  lemma PartlyIsAll(idx: Index, contacts: seq<Contact>, ct: Contact)
    requires KeyBytes(ct).Some? && ct.name != "" && Partly(idx, contacts, KeyBytes(ct).value, ct.name, |WIDTHS|)
    ensures Indexes(idx, contacts + [ct])
  {
    forall prefix
      ensures Lookup(idx, prefix) == Scan(contacts + [ct], prefix)
    {
      assert (contacts + [ct])[..|contacts|] == contacts;
    }
  }

  lemma UnlistedChangesNothing(idx: Index, contacts: seq<Contact>, ct: Contact)
    requires Indexes(idx, contacts) && (KeyBytes(ct).None? || ct.name == "")
    ensures Indexes(idx, contacts + [ct])
  {
    forall prefix
      ensures Lookup(idx, prefix) == Scan(contacts + [ct], prefix)
    {
      assert (contacts + [ct])[..|contacts|] == contacts;
    }
  }

  method ContainsString(list: seq<string>, s: string) returns (found: bool)
    ensures found <==> s in list
  {
    for i := 0 to |list|
      invariant s !in list[..i]
    {
      if list[i] == s {
        return true;
      }
    }
    return false;
  }

  method TraceNameIndexFromContacts(contacts: seq<Contact>) returns (idx: Index)
    ensures Indexes(idx, contacts)
  {
    idx := map[];
    for k := 0 to |contacts|
      invariant Indexes(idx, contacts[..k])
    {
      var ct := contacts[k];
      assert contacts[..k + 1] == contacts[..k] + [ct];
      var key := KeyBytes(ct);
      if key.None? || ct.name == "" {
        UnlistedChangesNothing(idx, contacts[..k], ct);
        continue;
      }
      idx := AddContact(idx, contacts[..k], key.value, ct.name);
      PartlyIsAll(idx, contacts[..k], ct);
    }
    assert contacts[..|contacts|] == contacts;
  }

  /** The inner loop: one contact's name goes under each of its prefixes. */
  method AddContact(idx0: Index, ghost contacts: seq<Contact>, key: bytes, name: string) returns (idx: Index)
    requires Indexes(idx0, contacts)
    ensures Partly(idx, contacts, key, name, |WIDTHS|)
  {
    idx := idx0;
    for j := 0 to |WIDTHS|
      invariant Partly(idx, contacts, key, name, j)
    {
      if |key| < WIDTHS[j] {
        SkipKeepsPartly(idx, contacts, key, name, j);
        continue;
      }
      var prefix := Encode(key[..WIDTHS[j]]);
      var present := ContainsString(Lookup(idx, prefix), name);
      ghost var before := idx;
      if !present {
        idx := idx[prefix := Lookup(idx, prefix) + [name]];
      }
      AddKeepsPartly(before, idx, contacts, key, name, j, prefix);
    }
  }

  // ---------------------------------------------------------------------------
  // Name order
  // ---------------------------------------------------------------------------

  predicate Ascending(s: seq<string>) {
    forall i, j | 0 <= i < j < |s| :: Less(s[i], s[j])
  }

  function Insert(x: string, s: seq<string>): (r: seq<string>)
    ensures |r| == |s| + 1
    ensures forall n :: n in r <==> n == x || n in s
  {
    if s == [] then [x]
    else if Less(x, s[0]) then [x] + s
    else
      assert forall n :: n in s <==> n == s[0] || n in s[1..];
      [s[0]] + Insert(x, s[1..])
  }

  function SortNames(s: seq<string>): (r: seq<string>)
    ensures |r| == |s|
    ensures forall n :: n in r <==> n in s
  {
    if s == [] then []
    else
      assert forall n :: n in s <==> n == s[0] || n in s[1..];
      Insert(s[0], SortNames(s[1..]))
  }

  lemma {:induction false} InsertAscends(x: string, s: seq<string>)
    requires Ascending(s) && x !in s
    ensures Ascending(Insert(x, s))
  {
    if s != [] {
      if Less(x, s[0]) {
        forall j | 0 <= j < |s|
          ensures Less(x, s[j])
        {
          if j > 0 {
            LessTransitive(x, s[0], s[j]);
          }
        }
      } else {
        LessTotal(x, s[0]);
        var tail := Insert(x, s[1..]);
        InsertAscends(x, s[1..]);
        forall j | 0 <= j < |tail|
          ensures Less(s[0], tail[j])
        {
          assert tail[j] in tail;
        }
      }
    }
  }

  predicate Distinct(s: seq<string>) {
    forall i, j | 0 <= i < j < |s| :: s[i] != s[j]
  }

  lemma {:induction false} SortAscends(s: seq<string>)
    requires Distinct(s)
    ensures Ascending(SortNames(s))
  {
    if s != [] {
      SortAscends(s[1..]);
      InsertAscends(s[0], SortNames(s[1..]));
    }
  }

  // ---------------------------------------------------------------------------
  // Resolving a hop
  // ---------------------------------------------------------------------------

  function ResolveNode(idx: Index, hop: bytes): Node {
    var hash := Encode(hop);
    var names := SortNames(Lookup(idx, hash));
    if |names| == 0 then Node(hash, "", [], false)
    else if |names| == 1 then Node(hash, names[0], names, false)
    else Node(hash, "", names, true)
  }

  /** A contact of that name whose key, in hexadecimal and not empty, starts with the hop. */
  predicate Bears(ct: Contact, hop: bytes, name: string) {
    && ct.name == name && name != ""
    && Decode(ct.publicKey).Some? && ct.publicKey != "" && hop <= Decode(ct.publicKey).value
  }

  predicate SomeBears(contacts: seq<Contact>, hop: bytes, name: string) {
    exists i | 0 <= i < |contacts| :: Bears(contacts[i], hop, name)
  }

  ghost predicate OnlyBears(contacts: seq<Contact>, hop: bytes, name: string) {
    SomeBears(contacts, hop, name) && forall other | SomeBears(contacts, hop, other) :: other == name
  }

  lemma PrefixIs(key: bytes, hop: bytes, width: nat)
    requires width <= |key|
    ensures key[..width] == hop <==> width == |hop| && hop <= key
  {
  }

  lemma TextOfPrefix(key: bytes, hop: bytes, width: nat)
    requires width <= |key|
    ensures Encode(key[..width]) == Encode(hop) <==> width == |hop| && hop <= key
  {
    EncodeInjective(key[..width], hop);
    PrefixIs(key, hop, width);
  }

  lemma PrefixTextIff(key: bytes, hop: bytes, widths: seq<nat>)
    ensures OneOfPrefixes(key, Encode(hop), widths) <==> |hop| in widths && hop <= key
  {
    forall j | 0 <= j < |widths| && widths[j] <= |key|
      ensures Encode(key[..widths[j]]) == Encode(hop) <==> widths[j] == |hop| && hop <= key
    {
      TextOfPrefix(key, hop, widths[j]);
    }
  }

  lemma FullPrefixText(key: bytes, prefix: string, widths: seq<nat>)
    requires widths == WIDTHS
    ensures IsPrefixText(key, prefix, |WIDTHS|) <==> OneOfPrefixes(key, prefix, widths)
  {
    assert WIDTHS[..|WIDTHS|] == widths;
  }

  lemma ListedIff(ct: Contact, hop: bytes)
    ensures Listed(ct, Encode(hop)) <==> |hop| in WIDTHS && Bears(ct, hop, ct.name)
  {
    if KeyBytes(ct).Some? {
      PrefixTextIff(KeyBytes(ct).value, hop, WIDTHS);
      FullPrefixText(KeyBytes(ct).value, Encode(hop), WIDTHS);
    }
  }

  lemma {:induction false} ScanExact(contacts: seq<Contact>, hop: bytes)
    ensures Distinct(Scan(contacts, Encode(hop)))
    ensures forall name :: name in Scan(contacts, Encode(hop)) <==> |hop| in WIDTHS && SomeBears(contacts, hop, name)
  {
    if contacts != [] {
      var n := |contacts| - 1;
      ScanExact(contacts[..n], hop);
      ListedIff(contacts[n], hop);
      forall name
        ensures SomeBears(contacts, hop, name) <==> SomeBears(contacts[..n], hop, name) || Bears(contacts[n], hop, name)
      {
        BearsLast(contacts, hop, name);
      }
    }
  }

  lemma BearsLast(contacts: seq<Contact>, hop: bytes, name: string)
    requires contacts != []
    ensures SomeBears(contacts, hop, name)
       <==> SomeBears(contacts[..|contacts| - 1], hop, name) || Bears(contacts[|contacts| - 1], hop, name)
  {
    var init := contacts[..|contacts| - 1];
    if SomeBears(init, hop, name) {
      var i :| 0 <= i < |init| && Bears(init[i], hop, name);
      assert Bears(contacts[i], hop, name);
    }
  }

  lemma WidthsExact(n: nat)
    ensures n in WIDTHS <==> n in {1, 2, 4, 8}
  {
    assert WIDTHS[0] == 8 && WIDTHS[1] == 4 && WIDTHS[2] == 2 && WIDTHS[3] == 1;
  }

  /** The index agrees with a linear scan: the names a hop resolves to are, in order and
      without repetition, the non-empty names of the contacts whose key starts with it. */
  lemma ResolveExact(idx: Index, contacts: seq<Contact>, hop: bytes)
    requires Indexes(idx, contacts)
    ensures var node := ResolveNode(idx, hop);
            Ascending(node.names)
            && node.hash == Encode(hop)
            && forall name :: name in node.names <==> |hop| in {1, 2, 4, 8} && SomeBears(contacts, hop, name)
  {
    WidthsExact(|hop|);
    ScanExact(contacts, hop);
    SortAscends(Scan(contacts, Encode(hop)));
  }

  /** A hop is ambiguous exactly when two contacts of different names match it, and is
      given a name exactly when all that match it share that name. */
  lemma AmbiguousIff(idx: Index, contacts: seq<Contact>, hop: bytes)
    requires Indexes(idx, contacts) && |hop| in {1, 2, 4, 8}
    ensures ResolveNode(idx, hop).ambiguous
       <==> exists a, b :: a != b && SomeBears(contacts, hop, a) && SomeBears(contacts, hop, b)
    ensures forall name | name != "" :: ResolveNode(idx, hop).name == name <==> OnlyBears(contacts, hop, name)
  {
    WidthsExact(|hop|);
    var names := ResolveNode(idx, hop).names;
    ResolveExact(idx, contacts, hop);
    if |names| >= 2 {
      assert names[0] in names && names[1] in names;
      assert Less(names[0], names[1]);
      LessIrreflexive(names[0]);
    } else if |names| == 1 {
      assert names[0] in names;
    }
  }
}
