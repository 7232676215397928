/**
 The interactive shell's field splitter (cmd/mc/internal/cli/shell.go) against the
 quoting applied to completions (cmd/mc/internal/cli/shell_complete.go).
 */
module Shell {
  import opened Common

  datatype Result = Fields(fields: seq<string>) | UnfinishedEscape | UnterminatedQuote

  /** The splitter's variables between two characters. */
  datatype Scan = Scan(fields: seq<string>, b: string, quote: Option<char>, escaped: bool, inField: bool)

  const Start := Scan([], "", None, false, false)

  function Step(t: Scan, r: char): Scan {
    if t.escaped then t.(b := t.b + [r], escaped := false, inField := true)
    else if r == '\\' then t.(escaped := true, inField := true)
    else if t.quote.Some? then
      if t.quote == Some(r) then t.(quote := None) else t.(b := t.b + [r])
    else if r == '\'' || r == '"' then t.(quote := Some(r), inField := true)
    else if r == ' ' || r == '\t' then
      if t.inField then t.(fields := t.fields + [t.b], b := "", inField := false) else t
    else t.(b := t.b + [r], inField := true)
  }

  function Run(t: Scan, s: string): Scan
    decreases |s|
  {
    if s == [] then t else Run(Step(t, s[0]), s[1..])
  }

  function Finish(t: Scan): Result {
    if t.escaped then UnfinishedEscape
    else if t.quote.Some? then UnterminatedQuote
    else Fields(if t.inField then t.fields + [t.b] else t.fields)
  }

  function Split(s: string): Result {
    Finish(Run(Start, s))
  }

  method SplitShellFields(s: string) returns (r: Result)
    ensures r == Split(s)
  {
    var fields: seq<string> := [];
    var b: string := "";
    var quote: Option<char> := None;
    var escaped, inField := false, false;
    for i := 0 to |s|
      invariant Run(Scan(fields, b, quote, escaped, inField), s[i..]) == Run(Start, s)
    {
      assert s[i..][0] == s[i] && s[i..][1..] == s[i + 1..];
      var c := s[i];
      if escaped {
        b, escaped, inField := b + [c], false, true;
      } else if c == '\\' {
        escaped, inField := true, true;
      } else if quote.Some? {
        if quote == Some(c) {
          quote := None;
        } else {
          b := b + [c];
        }
      } else if c == '\'' || c == '"' {
        quote, inField := Some(c), true;
      } else if c == ' ' || c == '\t' {
        if inField {
          fields, b, inField := fields + [b], "", false;
        }
      } else {
        b, inField := b + [c], true;
      }
    }
    if escaped {
      return UnfinishedEscape;
    }
    if quote.Some? {
      return UnterminatedQuote;
    }
    if inField {
      fields := fields + [b];
    }
    return Fields(fields);
  }

  // ---------------------------------------------------------------------------
  // Quoting
  // ---------------------------------------------------------------------------

  predicate Special(c: char) {
    c == ' ' || c == '\t' || c == '"' || c == '\'' || c == '\\'
  }

  function EscapeQuotes(v: string): string {
    if v == "" then "" else (if v[0] == '"' then "\\\"" else [v[0]]) + EscapeQuotes(v[1..])
  }

  function QuoteCompletion(v: string): string {
    if v == "" then "\"\""
    else if exists c | c in v :: Special(c) then "\"" + EscapeQuotes(v) + "\""
    else v
  }

  function Line(vs: seq<string>): string {
    if vs == [] then ""
    else if |vs| == 1 then QuoteCompletion(vs[0])
    else QuoteCompletion(vs[0]) + " " + Line(vs[1..])
  }

  /** A value is left as it is exactly when it is not empty and has no blank, tab, quote or
      backslash; otherwise it is put in double quotes. */
  lemma QuotesIff(v: string)
    ensures QuoteCompletion(v) == v <==>
            v != "" && forall i | 0 <= i < |v| :: v[i] !in {' ', '\t', '"', '\'', '\\'}
    ensures QuoteCompletion(v) != v ==> QuoteCompletion(v) == "\"" + EscapeQuotes(v) + "\""
  {
    EscapeLength(v);
    assert forall i | 0 <= i < |v| :: Special(v[i]) <==> v[i] in {' ', '\t', '"', '\'', '\\'};
    if exists c | c in v :: Special(c) {
      var c :| c in v && Special(c);
      var i :| 0 <= i < |v| && v[i] == c;
      assert |QuoteCompletion(v)| > |v|;
    }
  }

  lemma {:induction false} EscapeLength(v: string)
    ensures |EscapeQuotes(v)| >= |v|
  {
    if v != "" {
      EscapeLength(v[1..]);
    }
  }

  lemma {:induction false} RunAppend(t: Scan, s: string, u: string)
    ensures Run(t, s + u) == Run(Run(t, s), u)
    decreases |s|
  {
    if s == [] {
      assert s + u == u;
    } else {
      assert (s + u)[1..] == s[1..] + u;
      RunAppend(Step(t, s[0]), s[1..], u);
    }
  }

  lemma {:induction false} RunEscaped(t: Scan, v: string)
    requires t.quote == Some('"') && !t.escaped && t.inField && '\\' !in v
    ensures Run(t, EscapeQuotes(v)) == t.(b := t.b + v)
    decreases |v|
  {
    if v == "" {
      assert t.b + v == t.b;
    } else {
      var head := if v[0] == '"' then "\\\"" else [v[0]];
      var t' := t.(b := t.b + [v[0]]);
      assert Run(t, head) == t' by {
        if v[0] == '"' {
          assert head[1..] == "\"" && "\""[1..] == "";
          assert Run(t.(escaped := true), "\"") == t';
        }
      }
      RunAppend(t, head, EscapeQuotes(v[1..]));
      RunEscaped(t', v[1..]);
      MoveHead(t.b, v);
    }
  }

  lemma {:induction false} RunPlain(t: Scan, v: string)
    requires t.quote.None? && !t.escaped && (v != "" || t.inField) && forall c | c in v :: !Special(c)
    ensures Run(t, v) == t.(b := t.b + v, inField := true)
    decreases |v|
  {
    if v == "" {
      assert t.b + v == t.b;
    } else {
      var t' := t.(b := t.b + [v[0]], inField := true);
      assert !Special(v[0]);
      assert Step(t, v[0]) == t';
      RunPlain(t', v[1..]);
      MoveHead(t.b, v);
    }
  }

  /** A quoted value without backslash is taken as one field with its original text. */
  lemma RunQuoted(t: Scan, v: string)
    requires t.quote.None? && !t.escaped && !t.inField && t.b == "" && '\\' !in v
    ensures Run(t, QuoteCompletion(v)) == t.(b := v, inField := true)
  {
    var open := t.(quote := Some('"'), inField := true);
    if v == "" {
      assert "\"\""[1..] == "\"" && "\""[1..] == "";
      assert Run(open, "\"") == t.(inField := true);
    } else if exists c | c in v :: Special(c) {
      var e := EscapeQuotes(v);
      assert QuoteCompletion(v)[1..] == e + "\"";
      RunAppend(open, e, "\"");
      RunEscaped(open, v);
      assert "" + v == v;
      assert Run(open.(b := v), "\"") == t.(b := v, inField := true) by {
        assert "\""[1..] == "";
      }
    } else {
      RunPlain(t, v);
      assert "" + v == v;
    }
  }

  /** A quoted value and the separator after it complete one field. */
  lemma RunQuotedAndSpace(t: Scan, v: string, rest: string)
    requires t.quote.None? && !t.escaped && !t.inField && t.b == "" && '\\' !in v
    ensures Run(t, QuoteCompletion(v) + " " + rest) == Run(t.(fields := t.fields + [v]), rest)
  {
    var t1 := t.(b := v, inField := true);
    RunQuoted(t, v);
    RunAppend(t, QuoteCompletion(v) + " ", rest);
    RunAppend(t, QuoteCompletion(v), " ");
    assert Run(t1, " ") == Step(t1, ' ') by {
      assert " "[1..] == "";
    }
  }

  predicate NoBackslash(vs: seq<string>) {
    forall i | 0 <= i < |vs| :: '\\' !in vs[i]
  }

  lemma RunShort(t: Scan, vs: seq<string>)
    requires t.quote.None? && !t.escaped && !t.inField && t.b == ""
    requires |vs| <= 1 && NoBackslash(vs)
    ensures Finish(Run(t, Line(vs))) == Fields(t.fields + vs)
  {
    if vs == [] {
      assert t.fields + vs == t.fields;
    } else {
      RunQuoted(t, vs[0]);
      assert vs == [vs[0]];
    }
  }

  lemma RunFirst(t: Scan, vs: seq<string>)
    requires t.quote.None? && !t.escaped && !t.inField && t.b == ""
    requires |vs| > 1 && '\\' !in vs[0]
    ensures Run(t, Line(vs)) == Run(t.(fields := t.fields + [vs[0]]), Line(vs[1..]))
  {
    RunQuotedAndSpace(t, vs[0], Line(vs[1..]));
  }

  lemma {:induction false} RunLine(t: Scan, vs: seq<string>)
    requires t.quote.None? && !t.escaped && !t.inField && t.b == ""
    requires NoBackslash(vs)
    ensures Finish(Run(t, Line(vs))) == Fields(t.fields + vs)
    decreases |vs|
  {
    if |vs| <= 1 {
      RunShort(t, vs);
    } else {
      var t' := t.(fields := t.fields + [vs[0]]);
      RunFirst(t, vs);
      RunLine(t', vs[1..]);
      MoveHead(t.fields, vs);
    }
  }

  // ---------------------------------------------------------------------------
  // No value with a backslash survives: counting what the splitter consumes
  // ---------------------------------------------------------------------------

  function Count(s: string, c: char): nat {
    if s == "" then 0 else (if s[0] == c then 1 else 0) + Count(s[1..], c)
  }

  function CountAll(vs: seq<string>, c: char): nat {
    if vs == [] then 0 else Count(vs[0], c) + CountAll(vs[1..], c)
  }

  /** How many characters `c` the splitter has put out. */
  function Out(t: Scan, c: char): nat {
    CountAll(t.fields, c) + Count(t.b, c)
  }

  lemma {:induction false} CountAppend(s: string, u: string, c: char)
    ensures Count(s + u, c) == Count(s, c) + Count(u, c)
  {
    if s == "" {
      assert s + u == u;
    } else {
      assert (s + u)[1..] == s[1..] + u;
      CountAppend(s[1..], u, c);
    }
  }

  lemma {:induction false} CountAllAppend(vs: seq<string>, v: string, c: char)
    ensures CountAll(vs + [v], c) == CountAll(vs, c) + Count(v, c)
  {
    if vs == [] {
      assert vs + [v] == [v];
    } else {
      assert (vs + [v])[1..] == vs[1..] + [v];
      CountAllAppend(vs[1..], v, c);
    }
  }

  /** Outside a field nothing is being built. */
  predicate Good(t: Scan) {
    t.inField || (t.b == "" && t.quote.None? && !t.escaped)
  }

  /** The next character is put out rather than acted on. */
  predicate IsPutOut(t: Scan, r: char) {
    t.escaped || (r != '\\' && if t.quote.Some? then t.quote != Some(r) else !Special(r))
  }

  lemma StepOut(t: Scan, r: char, c: char)
    requires Good(t)
    ensures Good(Step(t, r))
    ensures Out(Step(t, r), c) == Out(t, c) + (if r == c && IsPutOut(t, r) then 1 else 0)
  {
    CountAppend(t.b, [r], c);
    CountAllAppend(t.fields, t.b, c);
  }

  lemma {:induction false} SingleQuotesBound(t: Scan, s: string)
    requires Good(t)
    ensures Out(Run(t, s), '\'') <= Out(t, '\'') + Count(s, '\'')
    decreases |s|
  {
    if s != "" {
      StepOut(t, s[0], '\'');
      SingleQuotesBound(Step(t, s[0]), s[1..]);
    }
  }

  function Pending(t: Scan): nat { if t.escaped then 1 else 0 }

  /** If every single quote read was put out, then none opened a quotation, so each
      double quote put out cost one backslash read and each backslash put out cost two. */
  lemma {:induction false} BackslashBudget(t: Scan, s: string)
    requires (t.quote.None? || t.quote == Some('"')) && Good(t)
    requires Out(Run(t, s), '\'') == Out(t, '\'') + Count(s, '\'')
    ensures var t' := Run(t, s);
            Count(s, '\\') + Pending(t) + 2 * Out(t, '\\') + Out(t, '"')
            >= 2 * Out(t', '\\') + Out(t', '"') + Pending(t')
    decreases |s|
  {
    if s != "" {
      var t1 := Step(t, s[0]);
      StepOut(t, s[0], '\'');
      StepOut(t, s[0], '\\');
      StepOut(t, s[0], '"');
      SingleQuotesBound(t1, s[1..]);
      BackslashBudget(t1, s[1..]);
    }
  }

  lemma {:induction false} EscapeCounts(v: string)
    ensures Count(EscapeQuotes(v), '\\') == Count(v, '\\') + Count(v, '"')
    ensures Count(EscapeQuotes(v), '\'') == Count(v, '\'')
  {
    if v != "" {
      var head := if v[0] == '"' then "\\\"" else [v[0]];
      assert v[0] == '"' ==> head[1..] == "\"";
      EscapeCounts(v[1..]);
      CountAppend(head, EscapeQuotes(v[1..]), '\\');
      CountAppend(head, EscapeQuotes(v[1..]), '\'');
    }
  }

  lemma {:induction false} CountZero(v: string, c: char)
    ensures Count(v, c) == 0 <==> c !in v
  {
    if v != "" {
      CountZero(v[1..], c);
      assert c in v <==> c == v[0] || c in v[1..];
    }
  }

  lemma QuoteCounts(v: string)
    ensures Count(QuoteCompletion(v), '\\') == Count(v, '\\') + Count(v, '"')
    ensures Count(QuoteCompletion(v), '\'') == Count(v, '\'')
  {
    if v == "" {
      assert "\"\""[1..] == "\"";
    } else if exists c | c in v :: Special(c) {
      var e := EscapeQuotes(v);
      EscapeCounts(v);
      CountAppend("\"" + e, "\"", '\\');
      CountAppend("\"", e, '\\');
      CountAppend("\"" + e, "\"", '\'');
      CountAppend("\"", e, '\'');
    } else {
      CountZero(v, '\\');
      CountZero(v, '"');
    }
  }

  lemma {:induction false} LineCounts(vs: seq<string>)
    ensures Count(Line(vs), '\\') == CountAll(vs, '\\') + CountAll(vs, '"')
    ensures Count(Line(vs), '\'') == CountAll(vs, '\'')
  {
    if vs != [] {
      QuoteCounts(vs[0]);
      if |vs| == 1 {
        assert vs[1..] == [];
      } else {
        LineCounts(vs[1..]);
        var q := QuoteCompletion(vs[0]);
        CountAppend(q + " ", Line(vs[1..]), '\\');
        CountAppend(q, " ", '\\');
        CountAppend(q + " ", Line(vs[1..]), '\'');
        CountAppend(q, " ", '\'');
      }
    }
  }

  lemma {:induction false} RunGood(t: Scan, s: string)
    requires Good(t)
    ensures Good(Run(t, s))
    decreases |s|
  {
    if s != "" {
      StepOut(t, s[0], 'x');
      RunGood(Step(t, s[0]), s[1..]);
    }
  }

  lemma FinishOut(t: Scan, vs: seq<string>, c: char)
    requires Finish(t) == Fields(vs) && Good(t)
    ensures Out(t, c) == CountAll(vs, c)
  {
    if t.inField {
      CountAllAppend(t.fields, t.b, c);
    }
  }

  lemma {:induction false} CountAllZero(vs: seq<string>, c: char)
    requires CountAll(vs, c) == 0
    ensures forall v | v in vs :: c !in v
  {
    if vs != [] {
      CountZero(vs[0], c);
      CountAllZero(vs[1..], c);
    }
  }

  lemma RunHead(t: Scan, c: char, rest: string)
    ensures Run(t, [c] + rest) == Run(Step(t, c), rest)
  {
    assert ([c] + rest)[1..] == rest;
  }

  /** The quoted form of a backslash: its closing quote is taken for an escaped one. */
  lemma LoneBackslash()
    ensures Split("\"\\\"") == UnterminatedQuote
  {
    var open := Start.(quote := Some('"'), inField := true);
    RunHead(Start, '"', "\\\"");
    RunHead(open, '\\', "\"");
    RunHead(open.(escaped := true), '"', "");
    assert ['"'] + "\\\"" == "\"\\\"" && ['\\'] + "\"" == "\\\"" && ['"'] + "" == "\"";
  }

  /** The quoted form of a value with a backslash inside: the backslash is dropped. */
  lemma InnerBackslash()
    ensures Split("\"a\\b\"") == Fields(["ab"])
  {
    var open := Start.(quote := Some('"'), inField := true);
    RunHead(Start, '"', "a\\b\"");
    RunHead(open, 'a', "\\b\"");
    RunHead(open.(b := "a"), '\\', "b\"");
    RunHead(open.(b := "a", escaped := true), 'b', "\"");
    RunHead(open.(b := "ab"), '"', "");
    assert ['"'] + "a\\b\"" == "\"a\\b\"" && ['a'] + "\\b\"" == "a\\b\"" && ['\\'] + "b\"" == "\\b\"";
    assert ['b'] + "\"" == "b\"" && ['"'] + "" == "\"" && "" + ['a'] == "a" && "a" + ['b'] == "ab";
  }

  lemma QuotedBackslash(v: string)
    requires '\\' in v && '"' !in v
    ensures Line([v]) == "\"" + v + "\""
  {
    EscapeNothing(v);
  }

  /** A value with a backslash comes back without it, or not at all. */
  lemma BackslashIsLost()
    ensures Split(Line(["a\\b"])) == Fields(["ab"])
    ensures Split(Line(["\\"])) == UnterminatedQuote
  {
    assert "a\\b"[1] == '\\' && "\\"[0] == '\\';
    QuotedBackslash("a\\b");
    QuotedBackslash("\\");
    InnerBackslash();
    LoneBackslash();
    assert "\"" + "a\\b" + "\"" == "\"a\\b\"" && "\"" + "\\" + "\"" == "\"\\\"";
  }

  lemma {:induction false} EscapeNothing(v: string)
    requires '"' !in v
    ensures EscapeQuotes(v) == v
  {
    if v != "" {
      EscapeNothing(v[1..]);
    }
  }

  /** Quoting every value, joining with spaces and splitting gives the values back
      exactly when none of them contains a backslash. */
  lemma SplitUndoesQuoting(vs: seq<string>)
    ensures Split(Line(vs)) == Fields(vs) <==> NoBackslash(vs)
  {
    if NoBackslash(vs) {
      RunLine(Start, vs);
      assert [] + vs == vs;
    } else if Split(Line(vs)) == Fields(vs) {
      var t' := Run(Start, Line(vs));
      RunGood(Start, Line(vs));
      LineCounts(vs);
      FinishOut(t', vs, '\'');
      FinishOut(t', vs, '\\');
      FinishOut(t', vs, '"');
      BackslashBudget(Start, Line(vs));
      CountAllZero(vs, '\\');
    }
  }
}
