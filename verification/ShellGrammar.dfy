/**
 What a shell line means (splitShellFields in cmd/mc/internal/cli/shell.go), stated on its
 text: blanks and tabs separate fields; a field is written in pieces, each a character, a
 backslash and a character, or a quotation in single or double quotes; a backslash makes the
 next character literal everywhere, in either quotation too.
 */
module ShellGrammar {
  import opened Common
  import opened Shell

  datatype Ch = Raw(c: char) | Esc(c: char)

  datatype Piece = Bare(x: Ch) | Quoted(q: char, inner: seq<Ch>)

  datatype Token = Blank(c: char) | Part(p: Piece)

  function ChText(x: Ch): string {
    match x
    case Raw(c) => [c]
    case Esc(c) => ['\\', c]
  }

  function InnerText(inner: seq<Ch>): string {
    if inner == [] then "" else ChText(inner[0]) + InnerText(inner[1..])
  }

  function InnerValue(inner: seq<Ch>): string {
    if inner == [] then "" else [inner[0].c] + InnerValue(inner[1..])
  }

  function PieceText(p: Piece): string {
    match p
    case Bare(x) => ChText(x)
    case Quoted(q, inner) => [q] + InnerText(inner) + [q]
  }

  function PieceValue(p: Piece): string {
    match p
    case Bare(x) => [x.c]
    case Quoted(_, inner) => InnerValue(inner)
  }

  function Text(ts: seq<Token>): string {
    if ts == [] then ""
    else (if ts[0].Blank? then [ts[0].c] else PieceText(ts[0].p)) + Text(ts[1..])
  }

  predicate ValidInner(q: char, inner: seq<Ch>) {
    forall i | 0 <= i < |inner| && inner[i].Raw? :: inner[i].c != q && inner[i].c != '\\'
  }

  predicate ValidPiece(p: Piece) {
    match p
    case Bare(Raw(c)) => c != ' ' && c != '\t' && c != '\'' && c != '"' && c != '\\'
    case Bare(Esc(_)) => true
    case Quoted(q, inner) => (q == '\'' || q == '"') && ValidInner(q, inner)
  }

  predicate ValidToken(t: Token) {
    match t
    case Blank(c) => c == ' ' || c == '\t'
    case Part(p) => ValidPiece(p)
  }

  predicate Valid(ts: seq<Token>) {
    forall i | 0 <= i < |ts| :: ValidToken(ts[i])
  }

  /** The fields of a line, given the part of a field before it. */
  function Words(ts: seq<Token>, cur: Option<string>): seq<string> {
    if ts == [] then (if cur.Some? then [cur.value] else [])
    else if ts[0].Blank? then (if cur.Some? then [cur.value] else []) + Words(ts[1..], None)
    else Words(ts[1..], Some((if cur.Some? then cur.value else "") + PieceValue(ts[0].p)))
  }

  // ---------------------------------------------------------------------------
  // Every line that is written so is read so
  // ---------------------------------------------------------------------------

  predicate Between(t: Scan) {
    t.quote.None? && !t.escaped && (t.inField || t.b == "")
  }

  lemma RunCh(t: Scan, x: Ch, rest: string)
    requires !t.escaped && (x.Raw? ==> t.quote.Some? && t.quote != Some(x.c) && x.c != '\\' && t.inField)
    ensures Run(t, ChText(x) + rest) == Run(t.(b := t.b + [x.c], inField := true), rest)
  {
    match x
    case Raw(c) => RunHead(t, c, rest);
    case Esc(c) =>
      assert ChText(x) + rest == ['\\'] + ([c] + rest);
      RunHead(t, '\\', [c] + rest);
      RunHead(t.(escaped := true, inField := true), c, rest);
  }

  lemma {:induction false} RunInner(t: Scan, q: char, inner: seq<Ch>, rest: string)
    requires t.quote == Some(q) && !t.escaped && t.inField && ValidInner(q, inner)
    ensures Run(t, InnerText(inner) + rest) == Run(t.(b := t.b + InnerValue(inner)), rest)
    decreases |inner|
  {
    if inner == [] {
      assert InnerText(inner) + rest == rest && t.b + InnerValue(inner) == t.b;
    } else {
      Regroup(ChText(inner[0]), InnerText(inner[1..]), rest);
      RunCh(t, inner[0], InnerText(inner[1..]) + rest);
      RunInner(t.(b := t.b + [inner[0].c]), q, inner[1..], rest);
      Regroup(t.b, [inner[0].c], InnerValue(inner[1..]));
    }
  }

  lemma RunPiece(t: Scan, p: Piece, rest: string)
    requires t.quote.None? && !t.escaped && ValidPiece(p)
    ensures Run(t, PieceText(p) + rest) == Run(t.(b := t.b + PieceValue(p), inField := true), rest)
  {
    match p
    case Bare(x) =>
      if x.Raw? {
        RunHead(t, x.c, rest);
      } else {
        RunCh(t, x, rest);
      }
    case Quoted(q, inner) =>
      var open := t.(quote := Some(q), inField := true);
      assert PieceText(p) + rest == [q] + (InnerText(inner) + ([q] + rest));
      RunHead(t, q, InnerText(inner) + ([q] + rest));
      RunInner(open, q, inner, [q] + rest);
      RunHead(open.(b := t.b + InnerValue(inner)), q, rest);
  }

  function Current(t: Scan): Option<string> {
    if t.inField then Some(t.b) else None
  }

  function TokenText(t: Token): string {
    if t.Blank? then [t.c] else PieceText(t.p)
  }

  /** One token: what is left to read, and what it makes of the line so far. */
  lemma RunToken(t: Scan, ts: seq<Token>, rest: string) returns (u: Scan)
    requires Between(t) && ts != [] && ValidToken(ts[0])
    ensures Between(u) && Run(t, TokenText(ts[0]) + rest) == Run(u, rest)
    ensures t.fields + Words(ts, Current(t)) == u.fields + Words(ts[1..], Current(u))
  {
    if ts[0].Blank? {
      RunHead(t, ts[0].c, rest);
      u := Step(t, ts[0].c);
      BlankWords(t, u, ts);
    } else {
      RunPiece(t, ts[0].p, rest);
      u := t.(b := t.b + PieceValue(ts[0].p), inField := true);
      assert "" + PieceValue(ts[0].p) == PieceValue(ts[0].p);
    }
  }

  lemma TextFirst(ts: seq<Token>, rest: string)
    requires ts != []
    ensures Text(ts) + rest == TokenText(ts[0]) + (Text(ts[1..]) + rest)
  {
  }

  /** Between two tokens, what is read next and what it makes of the line so far. */
  lemma {:induction false} RunTokens(t: Scan, ts: seq<Token>, rest: string) returns (t': Scan)
    requires Between(t) && Valid(ts)
    ensures Between(t') && Run(t, Text(ts) + rest) == Run(t', rest)
    ensures t.fields + Words(ts, Current(t)) == t'.fields + Words([], Current(t'))
    decreases |ts|
  {
    if ts == [] {
      assert Text(ts) + rest == rest;
      t' := t;
    } else {
      TextFirst(ts, rest);
      t' := RunToken(t, ts, Text(ts[1..]) + rest);
      t' := RunTokens(t', ts[1..], rest);
    }
  }

  lemma BlankWords(t: Scan, u: Scan, ts: seq<Token>)
    requires Between(t) && ts != [] && ts[0].Blank? && ValidToken(ts[0]) && u == Step(t, ts[0].c)
    ensures t.fields + Words(ts, Current(t)) == u.fields + Words(ts[1..], Current(u))
  {
    if t.inField {
      assert t.fields + ([t.b] + Words(ts[1..], None)) == t.fields + [t.b] + Words(ts[1..], None);
    } else {
      assert [] + Words(ts[1..], None) == Words(ts[1..], None);
    }
  }

  /** A line of whole tokens splits into its fields. */
  lemma SplitWords(ts: seq<Token>)
    requires Valid(ts)
    ensures Split(Text(ts)) == Fields(Words(ts, None))
  {
    var t := RunTokens(Start, ts, "");
    assert Text(ts) + "" == Text(ts) && [] + Words(ts, None) == Words(ts, None);
    assert t.fields + [] == t.fields;
  }

  /** How a line can break off: in a backslash, or in a quotation, there with or without a
      backslash. */
  datatype Tail = Slash | Open(q: char, inner: seq<Ch>, slash: bool)

  function TailText(tail: Tail): string {
    match tail
    case Slash => "\\"
    case Open(q, inner, slash) => [q] + InnerText(inner) + (if slash then "\\" else "")
  }

  predicate ValidTail(tail: Tail) {
    match tail
    case Slash => true
    case Open(q, inner, _) => (q == '\'' || q == '"') && ValidInner(q, inner)
  }

  /** A line that breaks off is refused, for the backslash before the quotation. */
  lemma SplitBroken(ts: seq<Token>, tail: Tail)
    requires Valid(ts) && ValidTail(tail)
    ensures Split(Text(ts) + TailText(tail))
         == if tail.Slash? || tail.slash then UnfinishedEscape else UnterminatedQuote
  {
    var t := RunTokens(Start, ts, TailText(tail));
    match tail
    case Slash =>
      RunHead(t, '\\', "");
      assert ['\\'] + "" == "\\";
    case Open(q, inner, slash) =>
      var end := if slash then "\\" else "";
      var open := t.(quote := Some(q), inField := true);
      assert TailText(tail) == [q] + (InnerText(inner) + end);
      RunHead(t, q, InnerText(inner) + end);
      RunInner(open, q, inner, end);
      if slash {
        RunHead(open.(b := t.b + InnerValue(inner)), '\\', "");
        assert ['\\'] + "" == "\\";
      }
  }

  // ---------------------------------------------------------------------------
  // Every text is such a line
  // ---------------------------------------------------------------------------

  /** What follows an opening quote: a quotation and the text after it, or one that breaks
      off. */
  lemma {:induction false} ReadInner(s: string, q: char) returns (inner: seq<Ch>, rest: Option<string>, slash: bool)
    requires q != '\\'
    ensures ValidInner(q, inner)
    ensures rest.Some? ==> s == InnerText(inner) + [q] + rest.value && |rest.value| < |s|
    ensures rest.None? ==> s == InnerText(inner) + (if slash then "\\" else "")
    decreases |s|
  {
    if s == "" {
      inner, rest, slash := [], None, false;
    } else if s[0] == q {
      inner, rest, slash := [], Some(s[1..]), false;
      assert s == "" + [q] + s[1..];
    } else if s == "\\" {
      inner, rest, slash := [], None, true;
    } else {
      var x := if s[0] == '\\' then Esc(s[1]) else Raw(s[0]);
      var more := s[|ChText(x)|..];
      assert s == ChText(x) + more;
      inner, rest, slash := ReadInner(more, q);
      AddInner(s, x, more, inner, q, rest, slash);
      inner := [x] + inner;
    }
  }

  lemma AddInner(s: string, x: Ch, more: string, inner: seq<Ch>, q: char, rest: Option<string>, slash: bool)
    requires s == ChText(x) + more && ValidInner(q, inner) && (x.Raw? ==> x.c != q && x.c != '\\')
    requires rest.Some? ==> more == InnerText(inner) + [q] + rest.value
    requires rest.None? ==> more == InnerText(inner) + (if slash then "\\" else "")
    ensures ValidInner(q, [x] + inner)
    ensures rest.Some? ==> s == InnerText([x] + inner) + [q] + rest.value
    ensures rest.None? ==> s == InnerText([x] + inner) + (if slash then "\\" else "")
  {
    assert ([x] + inner)[1..] == inner;
  }

  /** The first token of a text, or that it breaks off. */
  lemma ReadToken(s: string) returns (first: Token, rest: string, tail: Option<Tail>)
    requires s != ""
    ensures tail.None? ==> ValidToken(first) && s == TokenText(first) + rest && |rest| < |s|
    ensures tail.Some? ==> ValidTail(tail.value) && s == TailText(tail.value)
  {
    var c := s[0];
    first, rest, tail := Blank(c), s[1..], None;
    assert s == [c] + s[1..];
    if c == '\'' || c == '"' {
      var inner, after, slash := ReadInner(s[1..], c);
      if after.None? {
        tail := Some(Open(c, inner, slash));
      } else {
        first, rest := Part(Quoted(c, inner)), after.value;
      }
    } else if s == "\\" {
      tail := Some(Slash);
    } else if c != ' ' && c != '\t' {
      var x := if c == '\\' then Esc(s[1]) else Raw(c);
      first, rest := Part(Bare(x)), s[|ChText(x)|..];
    }
  }

  lemma TextMore(first: Token, ts: seq<Token>, end: string)
    ensures Text([first] + ts) + end == TokenText(first) + (Text(ts) + end)
  {
    assert ([first] + ts)[1..] == ts;
    TextFirst([first] + ts, end);
  }

  lemma {:induction false} ReadLine(s: string) returns (ts: seq<Token>, tail: Option<Tail>)
    ensures Valid(ts) && (tail.Some? ==> ValidTail(tail.value))
    ensures s == Text(ts) + (if tail.Some? then TailText(tail.value) else "")
    decreases |s|
  {
    ts, tail := [], None;
    if s != "" {
      var first, rest, broken := ReadToken(s);
      if broken.Some? {
        tail := broken;
        assert Text(ts) + TailText(tail.value) == s;
      } else {
        ts, tail := ReadLine(rest);
        TextMore(first, ts, if tail.Some? then TailText(tail.value) else "");
        ts := [first] + ts;
      }
    }
  }

  /** The splitter in full: a text splits into fields exactly when it is a line of whole
      tokens, and then into the fields these make; otherwise it breaks off. */
  lemma SplitExact(s: string)
    ensures Split(s).Fields? <==> exists ts :: Valid(ts) && Text(ts) == s
    ensures forall ts | Valid(ts) && Text(ts) == s :: Split(s) == Fields(Words(ts, None))
    ensures !Split(s).Fields? ==>
              exists ts, tail :: Valid(ts) && ValidTail(tail) && Text(ts) + TailText(tail) == s
  {
    forall ts | Valid(ts) && Text(ts) == s
      ensures Split(s) == Fields(Words(ts, None))
    {
      SplitWords(ts);
    }
    var ts, tail := ReadLine(s);
    if tail.Some? {
      SplitBroken(ts, tail.value);
    } else {
      assert Text(ts) + "" == Text(ts);
    }
  }

  // ---------------------------------------------------------------------------
  // Lines of fields
  // ---------------------------------------------------------------------------

  function Blanks(run: string): seq<Token> {
    seq(|run|, i requires 0 <= i < |run| => Blank(run[i]))
  }

  function Parts(ps: seq<Piece>): seq<Token> {
    seq(|ps|, i requires 0 <= i < |ps| => Part(ps[i]))
  }

  function Value(ps: seq<Piece>): string {
    if ps == [] then "" else PieceValue(ps[0]) + Value(ps[1..])
  }

  /** Fields in pieces, each before a run of blanks and tabs. */
  function Tokens(fields: seq<(seq<Piece>, string)>): seq<Token> {
    if fields == [] then [] else Parts(fields[0].0) + Blanks(fields[0].1) + Tokens(fields[1..])
  }

  function Values(fields: seq<(seq<Piece>, string)>): (vs: seq<string>)
    ensures |vs| == |fields| && forall i | 0 <= i < |fields| :: vs[i] == Value(fields[i].0)
  {
    seq(|fields|, i requires 0 <= i < |fields| => Value(fields[i].0))
  }

  predicate IsRun(run: string) {
    forall i | 0 <= i < |run| :: run[i] == ' ' || run[i] == '\t'
  }

  predicate ValidField(f: (seq<Piece>, string)) {
    f.0 != [] && (forall i | 0 <= i < |f.0| :: ValidPiece(f.0[i])) && IsRun(f.1)
  }

  lemma PartsFirst(ps: seq<Piece>, rest: seq<Token>)
    requires ps != []
    ensures Parts(ps) + rest != [] && (Parts(ps) + rest)[0] == Part(ps[0])
    ensures (Parts(ps) + rest)[1..] == Parts(ps[1..]) + rest
  {
  }

  lemma {:induction false} WordsParts(ps: seq<Piece>, rest: seq<Token>, cur: Option<string>)
    requires ps != [] || cur.Some?
    ensures Words(Parts(ps) + rest, cur) == Words(rest, Some((if cur.Some? then cur.value else "") + Value(ps)))
    decreases |ps|
  {
    var c := if cur.Some? then cur.value else "";
    if ps == [] {
      assert Parts(ps) + rest == rest && c + "" == c;
    } else {
      PartsFirst(ps, rest);
      WordsParts(ps[1..], rest, Some(c + PieceValue(ps[0])));
      Regroup(c, PieceValue(ps[0]), Value(ps[1..]));
    }
  }

  lemma {:induction false} WordsBlanks(run: string, rest: seq<Token>)
    ensures Words(Blanks(run) + rest, None) == Words(rest, None)
    decreases |run|
  {
    if run == "" {
      assert Blanks(run) + rest == rest;
    } else {
      assert (Blanks(run) + rest)[1..] == Blanks(run[1..]) + rest;
      WordsBlanks(run[1..], rest);
      assert [] + Words(Blanks(run[1..]) + rest, None) == Words(Blanks(run[1..]) + rest, None);
    }
  }

  lemma WordsField(ps: seq<Piece>, run: string, rest: seq<Token>)
    requires ps != [] && (run != "" || rest == [])
    ensures Words(Parts(ps) + Blanks(run) + rest, None) == [Value(ps)] + Words(rest, None)
  {
    assert Parts(ps) + Blanks(run) + rest == Parts(ps) + (Blanks(run) + rest);
    WordsParts(ps, Blanks(run) + rest, None);
    assert "" + Value(ps) == Value(ps);
    if run != "" {
      assert (Blanks(run) + rest)[1..] == Blanks(run[1..]) + rest;
      WordsBlanks(run[1..], rest);
    } else {
      assert Blanks(run) + rest == [] && [Value(ps)] + [] == [Value(ps)];
    }
  }

  lemma {:induction false} WordsOfFields(fields: seq<(seq<Piece>, string)>)
    requires forall i | 0 <= i < |fields| :: ValidField(fields[i])
    requires forall i | 0 <= i < |fields| - 1 :: fields[i].1 != ""
    ensures Valid(Tokens(fields)) && Words(Tokens(fields), None) == Values(fields)
  {
    if fields != [] {
      WordsOfFields(fields[1..]);
      var ps, run := fields[0].0, fields[0].1;
      assert ValidField(fields[0]);
      assert |fields| == 1 ==> Tokens(fields[1..]) == [];
      WordsField(ps, run, Tokens(fields[1..]));
      assert Values(fields) == [Value(ps)] + Values(fields[1..]);
    }
  }

  /** Fields, each written in pieces of any kind, after any run of blanks and tabs and with
      such runs between them, split into exactly their values. */
  lemma LineSplits(lead: string, fields: seq<(seq<Piece>, string)>)
    requires IsRun(lead) && forall i | 0 <= i < |fields| :: ValidField(fields[i])
    requires forall i | 0 <= i < |fields| - 1 :: fields[i].1 != ""
    ensures Split(Text(Blanks(lead) + Tokens(fields))) == Fields(Values(fields))
  {
    WordsOfFields(fields);
    WordsBlanks(lead, Tokens(fields));
    SplitWords(Blanks(lead) + Tokens(fields));
  }

  /** A value in single quotes, double quotes inside included. */
  lemma {:induction false} SingleQuoted(v: string)
    requires '\'' !in v && '\\' !in v
    ensures Split("'" + v + "'") == Fields([v])
  {
    var inner := seq(|v|, i requires 0 <= i < |v| => Raw(v[i]));
    InnerOfRaw(v, inner);
    var ts := [Part(Quoted('\'', inner))];
    assert ts[1..] == [] && Text(ts) == "'" + v + "'" + "" == "'" + v + "'";
    SplitWords(ts);
    assert "" + v == v;
  }

  lemma {:induction false} InnerOfRaw(v: string, inner: seq<Ch>)
    requires |inner| == |v| && forall i | 0 <= i < |v| :: inner[i] == Raw(v[i])
    ensures InnerText(inner) == v && InnerValue(inner) == v
  {
    if v != "" {
      InnerOfRaw(v[1..], inner[1..]);
      assert [v[0]] + v[1..] == v;
    }
  }

  /** A value with every character after a backslash is one field with its text. */
  lemma {:induction false} EachEscaped(v: string)
    requires v != ""
    ensures Split(Escaped(v)) == Fields([v])
  {
    var ps := seq(|v|, i requires 0 <= i < |v| => Bare(Esc(v[i])));
    EscapedText(v, ps);
    SplitWords(Parts(ps));
    assert Parts(ps) + [] == Parts(ps);
    WordsParts(ps, [], None);
    assert "" + v == v;
  }

  function Escaped(v: string): string {
    if v == "" then "" else ['\\', v[0]] + Escaped(v[1..])
  }

  lemma {:induction false} EscapedText(v: string, ps: seq<Piece>)
    requires |ps| == |v| && forall i | 0 <= i < |v| :: ps[i] == Bare(Esc(v[i]))
    ensures Text(Parts(ps)) == Escaped(v) && Value(ps) == v
  {
    if v != "" {
      EscapedText(v[1..], ps[1..]);
      assert Parts(ps)[1..] == Parts(ps[1..]);
      assert [v[0]] + v[1..] == v;
    }
  }
}
