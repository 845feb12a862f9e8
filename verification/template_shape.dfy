/**
 Whole templates. A template is described as a list of pieces: literal text, a `<` that
 opens no tag, an expression tag `<%=E%>` and a statement tag `<%B%>`. For each piece
 the output it becomes is written down independently of the state machine, and the
 transpiler is proved to produce exactly the concatenation of those outputs, between the
 opening `print('` and the final `');`. Markup that ends inside a piece (a trailing `<`,
 `<%`, or a tag never closed) is covered by its own lemmas after any list of pieces.
 */
module TemplateShape {
  import opened StringEscapeReader
  import opened HtmlTemplateReader
  import opened LiteralSplit
  import opened TemplateProperties
  import opened SeqFacts

  datatype Piece =
    | Literal(text: seq<char>)
    | Angle(next: char)
    | Expression(body: seq<char>)
    | Statement(body: seq<char>)

  /** The markup a piece is written as. */
  function PieceMarkup(p: Piece): seq<char> {
    match p
    case Literal(s) => s
    case Angle(x) => ['<', x]
    case Expression(e) => "<%=" + e + "%>"
    case Statement(b) => "<%" + b + "%>"
  }

  /** The pieces whose markup reads back as that piece: literal text stops at `<`, a `<`
      is followed by neither `%` (a tag) nor `<` (which would start over), tag bodies do not
      contain `%>`, and a statement body does not start with `=`. */
  predicate WellFormed(p: Piece) {
    match p
    case Literal(s) => '<' !in s
    case Angle(x) => x != '%' && x != '<'
    case Expression(e) => NoCloseTag(e)
    case Statement(b) => (b == [] || b[0] != '=') && NoCloseTag(b)
  }

  predicate AllWellFormed(ps: seq<Piece>) {
    forall i :: 0 <= i < |ps| ==> WellFormed(ps[i])
  }

  function Markup(ps: seq<Piece>): seq<char>
    decreases |ps|
  {
    if ps == [] then [] else PieceMarkup(ps[0]) + Markup(ps[1..])
  }

  /** The line continuation written once the count of markup characters reaches the limit. */
  function Continued(n: nat): seq<char> {
    if n >= PrintCharNumLimit then LineContinuation else []
  }

  /** The count after a check against the limit: reset when it was reached. */
  function Restart(n: nat): (r: nat)
    ensures r < PrintCharNumLimit
    ensures r == n || r == 0
  {
    if n >= PrintCharNumLimit then 0 else n
  }

  /** What a statement body becomes. Its first character is read while escape mode is still
      on: a character escaping rewrites has the second half of its escape pair come out
      before the literal is closed, and its backslash after. */
  function StatementText(b: seq<char>): seq<char> {
    if b == [] then PrintStringTail
    else
      var e := Escape(b[0]);
      e[1..] + PrintStringTail + e[..1] + b[1..]
  }

  /** The output of one piece when `count` markup characters have been drawn since the last
      split. A literal is escaped and split; everything else is checked against the limit
      once, after its last markup character. */
  function PieceOutput(p: Piece, count: nat): seq<char> {
    match p
    case Literal(s) => Split(s, count)
    case Angle(x) =>
      var e := Escape(x);
      ['<'] + e[1..] + e[..1] + Continued(count + 2)
    case Expression(e) =>
      PrintStringTail + PrintExpressionHead + e + PrintExpressionTail + PrintStringHead
      + Continued(count + |e| + 5)
    case Statement(b) => StatementText(b) + PrintStringHead + Continued(count + |b| + 4)
  }

  /** The count after a piece: literal text counts modulo the limit, a piece ending in a
      check restarts from zero when it reached the limit. */
  function PieceCount(p: Piece, count: nat): (r: nat)
    ensures r < PrintCharNumLimit
  {
    match p
    case Literal(s) => (count + |s|) % PrintCharNumLimit
    case _ => Restart(count + |PieceMarkup(p)|)
  }

  function Render(ps: seq<Piece>, count: nat): seq<char>
    decreases |ps|
  {
    if ps == [] then [] else PieceOutput(ps[0], count) + Render(ps[1..], PieceCount(ps[0], count))
  }

  function CountAfter(ps: seq<Piece>, count: nat): (r: nat)
    requires count < PrintCharNumLimit
    ensures r < PrintCharNumLimit
    decreases |ps|
  {
    if ps == [] then count else CountAfter(ps[1..], PieceCount(ps[0], count))
  }

  /** The transpiler in literal text with nothing pushed back and `input` pending. */
  function Ready(input: seq<char>, count: nat, hasPrintTail: bool): TemplateReader {
    TemplateReader(Src([], input, true, count), Content, hasPrintTail)
  }

  // ---------------------------------------------------------------------------
  // Trace bookkeeping.

  /** Three runs, each the emission of some text in front of the next. */
  lemma {:induction false} Then3(r0: Trace, r1: Trace, r2: Trace, r3: Trace,
                                 a: seq<char>, b: seq<char>, c: seq<char>)
    requires r0 == Emit(Lift(a), r1) && r1 == Emit(Lift(b), r2) && r2 == Emit(Lift(c), r3)
    ensures r0 == Emit(Lift(a + b + c), r3)
  {
    EmitThen(r1, r2, r3, b, c);
    EmitThen(r0, r1, r3, a, b + c);
    Assoc(a, b, c);
  }

  /** An emission in front of a finished run, as one finished run. */
  lemma {:induction false} EmitDone(a: seq<char>, b: seq<char>, failed: bool)
    ensures Emit(Lift(a), Trace(Lift(b), failed)) == Trace(Lift(a + b), failed)
  {
    LiftAppend(a, b);
  }

  /** An emission in front of a finished run. */
  lemma {:induction false} Finish(r0: Trace, r1: Trace, a: seq<char>, x: seq<Option<char>>, failed: bool)
    requires r0 == Emit(Lift(a), r1) && r1 == Trace(x, failed)
    ensures r0 == Trace(Lift(a) + x, failed)
  {
  }

  /** Two emissions in front of a finished run. */
  lemma {:induction false} Finish2(r0: Trace, r1: Trace, r2: Trace, a: seq<char>, b: seq<char>,
                                   x: seq<Option<char>>, failed: bool)
    requires r0 == Emit(Lift(a), r1) && r1 == Emit(Lift(b), r2) && r2 == Trace(x, failed)
    ensures r0 == Trace(Lift(a + b) + x, failed)
  {
    LiftAppend(a, b);
  }

  lemma {:induction false} EmitNothing(r: Trace)
    ensures Emit(Lift([]), r) == r
  {
    assert Lift([]) + r.out == r.out;
  }

  // ---------------------------------------------------------------------------
  // The reference outputs regrouped the way the runs produce them.

  lemma {:induction false} ExpressionOutput(e: seq<char>, count: nat)
    ensures PieceOutput(Expression(e), count) ==
              PrintStringTail + PrintExpressionHead + e
              + (PrintExpressionTail + PrintStringHead + Continued(count + |e| + 5))
  {
  }

  lemma {:induction false} EmptyStatementOutput(count: nat)
    ensures PieceOutput(Statement([]), count) ==
              Escape('%')[1..] + PrintStringTail + (PrintStringHead + Continued(count + 4))
  {
    assert Escape('%')[1..] == [];
  }

  lemma {:induction false} StatementOutput(b: seq<char>, count: nat)
    requires b != []
    ensures var e := Escape(b[0]);
            PieceOutput(Statement(b), count) ==
              e[1..] + PrintStringTail + (e[..1] + b[1..]) + (PrintStringHead + Continued(count + |b| + 4))
  {
    var e := Escape(b[0]);
    Assoc(e[1..] + PrintStringTail, e[..1], b[1..]);
  }

  /** Whole one-piece templates, as the single-tag lemmas spell them out. */
  lemma {:induction false} ExpressionTemplateText(e: seq<char>)
    ensures PrintStringHead + PieceOutput(Expression(e), 0) + PrintStringTail ==
              PrintStringHead + PrintStringTail + PrintExpressionHead + e + PrintExpressionTail
              + PrintStringHead + Continued(|e| + 5) + PrintStringTail
  {
  }

  lemma {:induction false} StatementTemplateText(b: seq<char>)
    ensures PrintStringHead + PieceOutput(Statement(b), 0) + PrintStringTail ==
              PrintStringHead + StatementText(b) + PrintStringHead + Continued(|b| + 4) + PrintStringTail
  {
  }

  // ---------------------------------------------------------------------------
  // One piece.

  lemma {:induction false} RunLiteralPiece(s: seq<char>, rest: seq<char>, count: nat, hp: bool)
    requires '<' !in s && count < PrintCharNumLimit
    ensures Run(Ready(s + rest, count, hp)) ==
              Emit(Lift(Split(s, count)), Run(Ready(rest, (count + |s|) % PrintCharNumLimit, hp)))
  {
    var t := Ready(s + rest, count, hp);
    ContentLiteral(t, s, rest);
    assert t.(src := Src([], rest, true, (count + |s|) % PrintCharNumLimit))
        == Ready(rest, (count + |s|) % PrintCharNumLimit, hp);
  }

  lemma {:induction false} RunAnglePiece(x: char, rest: seq<char>, count: nat, hp: bool)
    requires x != '%' && x != '<'
    ensures var e := Escape(x);
            Run(Ready(['<', x] + rest, count, hp)) ==
              Emit(Lift(['<'] + e[1..] + e[..1] + Continued(count + 2)), Run(Ready(rest, Restart(count + 2), hp)))
  {
    var t := Ready(['<', x] + rest, count, hp);
    RunAngleNotTag(t, x, rest);
    assert t.(src := Src([], rest, true, Restart(count + 2))) == Ready(rest, Restart(count + 2), hp);
  }

  lemma {:induction false} RunExpressionPiece(e: seq<char>, rest: seq<char>, count: nat, hp: bool)
    requires NoCloseTag(e)
    ensures Run(Ready("<%=" + e + "%>" + rest, count, hp)) ==
              Emit(Lift(PieceOutput(Expression(e), count)), Run(Ready(rest, Restart(count + |e| + 5), hp)))
  {
    var r := "%>" + rest;
    var t := Ready("<%=" + e + "%>" + rest, count, hp);
    var t1 := TemplateReader(Src([], e + r, false, count + 3), PrintScript, hp);
    assert Run(t) == Emit(Lift(PrintStringTail + PrintExpressionHead), Run(t1)) by {
      assert "<%=" + e + "%>" + rest == "<%=" + (e + r);
      RunOpenPrintTag(t, e + r);
    }
    var c := Carry(e, 0);
    var a := AfterScript(t1, e, r, 0);
    assert Run(t1) == Emit(Lift(e), Run(a)) by {
      assert (e + r)[..0] == [] && (e + r)[0..] == e + r;
      ScriptText(t1, e, r, 0);
    }
    var n := count + |e| + 5;
    var t2 := Ready(rest, Restart(n), hp);
    assert Run(a) == Emit(Lift(PrintExpressionTail + PrintStringHead + Continued(n)), Run(t2)) by {
      RunCloseTag(a, rest, c);
      assert TemplateReader(Src([], rest, true, Restart(n)), Content, hp) == t2;
    }
    Then3(Run(t), Run(t1), Run(a), Run(t2), PrintStringTail + PrintExpressionHead, e,
          PrintExpressionTail + PrintStringHead + Continued(n));
    ExpressionOutput(e, count);
  }

  lemma {:induction false} RunEmptyStatementPiece(rest: seq<char>, count: nat, hp: bool)
    ensures Run(Ready("<%" + [] + "%>" + rest, count, hp)) ==
              Emit(Lift(PieceOutput(Statement([]), count)), Run(Ready(rest, Restart(count + 4), hp)))
  {
    var t := Ready("<%" + [] + "%>" + rest, count, hp);
    var q := Escape('%');
    assert q == ['%'];
    var t1 := TemplateReader(Src(q[..1], ">" + rest, false, count + 3), InvokeScript, hp);
    assert Run(t) == Emit(Lift(q[1..] + PrintStringTail), Run(t1)) by {
      assert "<%" + [] + "%>" + rest == ['<', '%', '%'] + (">" + rest);
      RunOpenStatementTag(t, '%', ">" + rest);
    }
    var t2 := Ready(rest, Restart(count + 4), hp);
    assert Run(t1) == Emit(Lift(PrintStringHead + Continued(count + 4)), Run(t2)) by {
      assert ("%>" + rest)[..1] == q[..1] && ("%>" + rest)[1..] == ">" + rest;
      RunCloseTag(t1, rest, 1);
      assert [] + PrintStringHead == PrintStringHead;
      assert TemplateReader(Src([], rest, true, Restart(count + 4)), Content, hp) == t2;
    }
    EmitThen(Run(t), Run(t1), Run(t2), q[1..] + PrintStringTail, PrintStringHead + Continued(count + 4));
    EmptyStatementOutput(count);
  }

  lemma {:induction false} RunStatementPiece(b: seq<char>, rest: seq<char>, count: nat, hp: bool)
    requires b != [] && b[0] != '=' && NoCloseTag(b)
    ensures Run(Ready("<%" + b + "%>" + rest, count, hp)) ==
              Emit(Lift(PieceOutput(Statement(b), count)), Run(Ready(rest, Restart(count + |b| + 4), hp)))
  {
    var r := "%>" + rest;
    var e := Escape(b[0]);
    var t := Ready("<%" + b + "%>" + rest, count, hp);
    var t1 := TemplateReader(Src(e[..1], b[1..] + r, false, count + 3), InvokeScript, hp);
    var t2 := Ready(rest, Restart(count + |b| + 4), hp);
    assert Run(t) == Emit(Lift(e[1..] + PrintStringTail), Run(t1)) by {
      assert "<%" + b + "%>" + rest == ['<', '%', b[0]] + (b[1..] + r);
      RunOpenStatementTag(t, b[0], b[1..] + r);
    }
    StatementBody(b, rest, count, hp);
    EmitThen(Run(t), Run(t1), Run(t2), e[1..] + PrintStringTail,
             e[..1] + b[1..] + (PrintStringHead + Continued(count + |b| + 4)));
    StatementOutput(b, count);
    Assoc(e[1..] + PrintStringTail, e[..1] + b[1..], PrintStringHead + Continued(count + |b| + 4));
  }

  /** A statement body after its opening, the first character pushed back as literal text
      delivers it, up to and including the closing `%>`. */
  lemma {:induction false} StatementBody(b: seq<char>, rest: seq<char>, count: nat, hp: bool)
    requires b != [] && NoCloseTag(b)
    ensures var e := Escape(b[0]);
            var n := count + |b| + 4;
            Run(TemplateReader(Src(e[..1], b[1..] + ("%>" + rest), false, count + 3), InvokeScript, hp)) ==
              Emit(Lift(e[..1] + b[1..] + (PrintStringHead + Continued(n))), Run(Ready(rest, Restart(n), hp)))
  {
    var r := "%>" + rest;
    var e := Escape(b[0]);
    var text := e[..1] + b[1..];
    var t1 := TemplateReader(Src(e[..1], b[1..] + r, false, count + 3), InvokeScript, hp);
    var c := Carry(text, 1);
    var a := AfterScript(t1, text, r, 1);
    assert Run(t1) == Emit(Lift(text), Run(a)) by {
      assert (text + r)[..1] == e[..1] && (text + r)[1..] == b[1..] + r;
      NoCloseTagOpening(b);
      ScriptText(t1, text, r, 1);
    }
    var n := count + |b| + 4;
    var t2 := Ready(rest, Restart(n), hp);
    assert Run(a) == Emit(Lift(PrintStringHead + Continued(n)), Run(t2)) by {
      RunCloseTag(a, rest, c);
      assert [] + PrintStringHead == PrintStringHead;
      assert TemplateReader(Src([], rest, true, Restart(n)), Content, hp) == t2;
    }
    EmitThen(Run(t1), Run(a), Run(t2), text, PrintStringHead + Continued(n));
  }

  /** A well-formed piece at the front of the pending markup comes out as its reference
      output, and the transpiler is back in literal text with the reference count. */
  lemma {:induction false} RunPiece(p: Piece, rest: seq<char>, count: nat, hp: bool)
    requires WellFormed(p) && count < PrintCharNumLimit
    ensures Run(Ready(PieceMarkup(p) + rest, count, hp)) ==
              Emit(Lift(PieceOutput(p, count)), Run(Ready(rest, PieceCount(p, count), hp)))
  {
    match p
    case Literal(s) => RunLiteralPiece(s, rest, count, hp);
    case Angle(x) => RunAnglePiece(x, rest, count, hp);
    case Expression(e) =>
      RunExpressionPiece(e, rest, count, hp);
      assert |PieceMarkup(p)| == |e| + 5;
    case Statement(b) =>
      assert |PieceMarkup(p)| == |b| + 4;
      if b == [] {
        RunEmptyStatementPiece(rest, count, hp);
      } else {
        RunStatementPiece(b, rest, count, hp);
      }
  }

  // ---------------------------------------------------------------------------
  // Lists of pieces.

  /** Well-formed pieces at the front of the pending markup come out as the concatenation of
      their reference outputs, whatever follows them. */
  lemma {:induction false} RunPieces(ps: seq<Piece>, rest: seq<char>, count: nat, hp: bool)
    requires AllWellFormed(ps) && count < PrintCharNumLimit
    ensures Run(Ready(Markup(ps) + rest, count, hp)) ==
              Emit(Lift(Render(ps, count)), Run(Ready(rest, CountAfter(ps, count), hp)))
    decreases |ps|
  {
    if ps == [] {
      assert Markup(ps) + rest == rest;
      EmitNothing(Run(Ready(rest, count, hp)));
    } else {
      var c := PieceCount(ps[0], count);
      var mid := Ready(Markup(ps[1..]) + rest, c, hp);
      assert Run(Ready(Markup(ps) + rest, count, hp)) == Emit(Lift(PieceOutput(ps[0], count)), Run(mid)) by {
        assert Markup(ps) + rest == PieceMarkup(ps[0]) + (Markup(ps[1..]) + rest);
        assert WellFormed(ps[0]);
        RunPiece(ps[0], Markup(ps[1..]) + rest, count, hp);
      }
      assert Run(mid) == Emit(Lift(Render(ps[1..], c)), Run(Ready(rest, CountAfter(ps, count), hp))) by {
        assert AllWellFormed(ps[1..]) by {
          forall i | 0 <= i < |ps[1..]| ensures WellFormed(ps[1..][i]) {
            assert ps[1..][i] == ps[i + 1];
          }
        }
        RunPieces(ps[1..], rest, c, hp);
      }
      EmitThen(Run(Ready(Markup(ps) + rest, count, hp)), Run(mid), Run(Ready(rest, CountAfter(ps, count), hp)),
               PieceOutput(ps[0], count), Render(ps[1..], c));
    }
  }

  /** The output of markup that opens with well-formed pieces: `print('`, their reference
      outputs, and then whatever the rest becomes from literal text with the reference
      count. */
  lemma {:induction false} TranspilePrefix(ps: seq<Piece>, rest: seq<char>)
    requires AllWellFormed(ps)
    ensures Transpile(Markup(ps) + rest) ==
              Emit(Lift(PrintStringHead + Render(ps, 0)), Run(Ready(rest, CountAfter(ps, 0), false)))
  {
    FirstOutputIsHead(Markup(ps) + rest);
    assert TemplateReader(Src([], Markup(ps) + rest, true, 0), Content, false) == Ready(Markup(ps) + rest, 0, false);
    RunPieces(ps, rest, 0, false);
    EmitThen(Transpile(Markup(ps) + rest), Run(Ready(Markup(ps) + rest, 0, false)),
             Run(Ready(rest, CountAfter(ps, 0), false)), PrintStringHead, Render(ps, 0));
  }

  /** A template made of well-formed pieces becomes `print('`, the reference outputs of its
      pieces and `');`, without failing. */
  lemma {:induction false} TranspileTemplate(ps: seq<Piece>)
    requires AllWellFormed(ps)
    ensures Transpile(Markup(ps)) == Trace(Lift(PrintStringHead + Render(ps, 0) + PrintStringTail), false)
  {
    AppendNil(Markup(ps));
    TranspilePrefix(ps, []);
    TailAtEnd(Ready([], CountAfter(ps, 0), false));
    EmitDone(PrintStringHead + Render(ps, 0), PrintStringTail, false);
  }

  /** The markup, output and count of a one-piece template. */
  lemma {:induction false} OnePiece(p: Piece, count: nat)
    requires count < PrintCharNumLimit
    ensures Markup([p]) == PieceMarkup(p)
    ensures Render([p], count) == PieceOutput(p, count)
    ensures CountAfter([p], count) == PieceCount(p, count)
  {
    assert [p][1..] == [];
    AppendNil(PieceMarkup(p));
    AppendNil(PieceOutput(p, count));
  }

  // ---------------------------------------------------------------------------
  // Single pieces as whole inputs.

  /** Markup without `<` becomes one print statement of its escaped text, split after every
      500th markup character. */
  lemma {:induction false} TagFreeOutput(input: seq<char>)
    requires '<' !in input
    ensures Transpile(input) == Trace(Lift(PrintStringHead + Split(input, 0) + PrintStringTail), false)
  {
    OnePiece(Literal(input), 0);
    TranspileTemplate([Literal(input)]);
  }

  /** `<%=E%>` becomes an empty literal, `print(E);` and another empty literal, the second
      continued on a new line when the tag drew 500 or more markup characters. */
  lemma {:induction false} SingleExpressionTag(e: seq<char>)
    requires NoCloseTag(e)
    ensures Transpile("<%=" + e + "%>") ==
              Trace(Lift(PrintStringHead + PrintStringTail + PrintExpressionHead + e + PrintExpressionTail
                         + PrintStringHead + Continued(|e| + 5) + PrintStringTail), false)
  {
    OnePiece(Expression(e), 0);
    TranspileTemplate([Expression(e)]);
    ExpressionTemplateText(e);
  }

  /** `<%B%>` becomes an empty literal, the statement text, and another empty literal. */
  lemma {:induction false} SingleStatementTag(b: seq<char>)
    requires (b == [] || b[0] != '=') && NoCloseTag(b)
    ensures Transpile("<%" + b + "%>") ==
              Trace(Lift(PrintStringHead + StatementText(b) + PrintStringHead + Continued(|b| + 4)
                         + PrintStringTail), false)
  {
    OnePiece(Statement(b), 0);
    TranspileTemplate([Statement(b)]);
    StatementTemplateText(b);
  }

  /** A statement whose first character escaping leaves alone comes out unchanged after the
      closed literal. */
  lemma {:induction false} PlainStatementTag(b: seq<char>)
    requires b != [] && !NeedsEscape(b[0]) && b[0] != '=' && NoCloseTag(b)
    ensures Transpile("<%" + b + "%>") ==
              Trace(Lift(PrintStringHead + PrintStringTail + b + PrintStringHead + Continued(|b| + 4)
                         + PrintStringTail), false)
  {
    SingleStatementTag(b);
    PlainStatementText(b);
  }

  lemma {:induction false} PlainStatementText(b: seq<char>)
    requires b != [] && !NeedsEscape(b[0])
    ensures PrintStringHead + StatementText(b) + PrintStringHead + Continued(|b| + 4) + PrintStringTail ==
              PrintStringHead + PrintStringTail + b + PrintStringHead + Continued(|b| + 4) + PrintStringTail
  {
    assert StatementText(b) == PrintStringTail + b by {
      assert Escape(b[0]) == [b[0]];
      assert [b[0]] + b[1..] == b;
    }
    Assoc(PrintStringHead, PrintStringTail, b);
  }

  /** A statement that starts with a line break: the `n` of its escape pair comes out before
      the literal is closed, and the backslash opens the statement text. */
  lemma {:induction false} NewlineStatementTag(s: seq<char>)
    requires NoCloseTag(s)
    ensures Transpile("<%\n" + s + "%>") ==
              Trace(Lift(PrintStringHead + "n" + PrintStringTail + "\\" + s + PrintStringHead
                         + Continued(|s| + 5) + PrintStringTail), false)
  {
    var b := "\n" + s;
    assert NoCloseTag(b) by {
      assert b[1..] == s;
    }
    SingleStatementTag(b);
    assert "<%" + b + "%>" == "<%\n" + s + "%>";
    NewlineStatementText(s);
  }

  lemma {:induction false} NewlineStatementText(s: seq<char>)
    ensures var b := "\n" + s;
            PrintStringHead + StatementText(b) + PrintStringHead + Continued(|b| + 4) + PrintStringTail ==
              PrintStringHead + "n" + PrintStringTail + "\\" + s + PrintStringHead + Continued(|s| + 5) + PrintStringTail
  {
    var b := "\n" + s;
    assert StatementText(b) == "n" + PrintStringTail + "\\" + s by {
      assert b[0] == '\n' && b[1..] == s;
      assert Escape('\n') == "\\n";
    }
  }

  // ---------------------------------------------------------------------------
  // Markup that ends inside a piece.

  /** Literal text, then `<` and a look-ahead that is neither `%` nor `<`, then anything:
      the `<` and the look-ahead come out in place inside the literal (the look-ahead's
      escape pair swapped), the rest continues from literal text. */
  lemma {:induction false} AngleNotTagAfterText(text: seq<char>, x: char, rest: seq<char>)
    requires '<' !in text && x != '%' && x != '<'
    ensures var e := Escape(x);
            var c := |text| % PrintCharNumLimit + 2;
            Transpile(text + ['<', x] + rest) ==
              Emit(Lift(PrintStringHead + Split(text, 0) + (['<'] + e[1..] + e[..1] + Continued(c))),
                   Run(Ready(rest, Restart(c), false)))
  {
    var e := Escape(x);
    var c := |text| % PrintCharNumLimit + 2;
    var t1 := Ready(text + ['<', x] + rest, 0, false);
    var t2 := Ready(['<', x] + rest, c - 2, false);
    assert Transpile(text + ['<', x] + rest) == Emit(Lift(PrintStringHead), Run(t1)) by {
      FirstOutputIsHead(text + ['<', x] + rest);
    }
    assert Run(t1) == Emit(Lift(Split(text, 0)), Run(t2)) by {
      assert text + ['<', x] + rest == text + (['<', x] + rest);
      RunLiteralPiece(text, ['<', x] + rest, 0, false);
    }
    RunAnglePiece(x, rest, c - 2, false);
    Then3(Transpile(text + ['<', x] + rest), Run(t1), Run(t2), Run(Ready(rest, Restart(c), false)),
          PrintStringHead, Split(text, 0), ['<'] + e[1..] + e[..1] + Continued(c));
  }

  /** Well-formed pieces, then `<` at the very end: the `<` is lost, the first answer of end
      of stream comes before the literal is closed, and the closing only follows on further
      calls. */
  lemma {:induction false} AngleAtEndOfInput(ps: seq<Piece>)
    requires AllWellFormed(ps)
    ensures var c := CountAfter(ps, 0) + 1;
            Transpile(Markup(ps) + "<") ==
              Trace(Lift(PrintStringHead + Render(ps, 0)) + [None] + Lift(Continued(c) + PrintStringTail), false)
  {
    var c := CountAfter(ps, 0);
    TranspilePrefix(ps, "<");
    TrailingAngle(c);
    Finish(Transpile(Markup(ps) + "<"), Run(Ready("<", c, false)), PrintStringHead + Render(ps, 0),
           [None] + Lift(Continued(c + 1)) + Lift(PrintStringTail), false);
    AngleEndAnswers(PrintStringHead + Render(ps, 0), Continued(c + 1), PrintStringTail);
  }

  /** The run from a trailing `<` in literal text. */
  lemma {:induction false} TrailingAngle(c: nat)
    requires c < PrintCharNumLimit
    ensures Run(Ready("<", c, false)) == Trace([None] + Lift(Continued(c + 1)) + Lift(PrintStringTail), false)
  {
    var t := Ready("<", c, false);
    var t2 := Ready([], Restart(c + 1), false);
    assert Run(t) == Emit([None] + Lift(Continued(c + 1)), Run(t2)) by {
      RunAngleAtEnd(t);
      assert t.(src := Src([], [], true, Restart(c + 1))) == t2;
    }
    TailAtEnd(t2);
  }

  lemma {:induction false} AngleEndAnswers(a: seq<char>, m: seq<char>, z: seq<char>)
    ensures Lift(a) + ([None] + Lift(m) + Lift(z)) == Lift(a) + [None] + Lift(m + z)
  {
    LiftAppend(m, z);
  }

  /** Well-formed pieces, then `<%` at the very end: an opening tag at the end is not
      reported as unterminated; the pushed-back end of stream comes out as the character
      U+FFFF inside the literal. */
  lemma {:induction false} OpenTagAtEndOfInput(ps: seq<Piece>)
    requires AllWellFormed(ps)
    ensures var c := CountAfter(ps, 0) + 2;
            Transpile(Markup(ps) + "<%") ==
              Trace(Lift(PrintStringHead + Render(ps, 0) + (['<', EofAsChar] + Continued(c)) + PrintStringTail), false)
  {
    var c := CountAfter(ps, 0);
    var a := PrintStringHead + Render(ps, 0);
    var m := ['<', EofAsChar] + Continued(c + 2);
    TranspilePrefix(ps, "<%");
    TrailingOpenTag(c);
    Finish(Transpile(Markup(ps) + "<%"), Run(Ready("<%", c, false)), a, Lift(m + PrintStringTail), false);
    LiftAppend(a, m + PrintStringTail);
    Assoc(a, m, PrintStringTail);
  }

  /** The run from a trailing `<%` in literal text. */
  lemma {:induction false} TrailingOpenTag(c: nat)
    requires c < PrintCharNumLimit
    ensures Run(Ready("<%", c, false)) ==
              Trace(Lift(['<', EofAsChar] + Continued(c + 2) + PrintStringTail), false)
  {
    var t := Ready("<%", c, false);
    var t2 := Ready([], Restart(c + 2), false);
    assert Run(t) == Emit(Lift(['<', EofAsChar] + Continued(c + 2)), Run(t2)) by {
      RunOpenTagAtEnd(t);
      assert t.(src := Src([], [], true, Restart(c + 2))) == t2;
    }
    TailAtEnd(t2);
    EmitDone(['<', EofAsChar] + Continued(c + 2), PrintStringTail, false);
  }

  /** Well-formed pieces, then `<%=` never closed: the run fails after the expression text,
      a trailing `%` being answered as end of stream first. */
  lemma {:induction false} UnterminatedExpressionTag(ps: seq<Piece>, e: seq<char>)
    requires AllWellFormed(ps) && NoCloseTag(e)
    ensures Transpile(Markup(ps) + "<%=" + e) ==
              Trace(Lift(PrintStringHead + Render(ps, 0) + (PrintStringTail + PrintExpressionHead)) + Unclosed(e), true)
  {
    var c := CountAfter(ps, 0);
    var t := Ready("<%=" + e, c, false);
    var t1 := TemplateReader(Src([], e, false, c + 3), PrintScript, false);
    assert Markup(ps) + "<%=" + e == Markup(ps) + ("<%=" + e);
    TranspilePrefix(ps, "<%=" + e);
    RunOpenPrintTag(t, e);
    assert Run(t1) == Trace(Unclosed(e), true) by {
      assert e[..0] == [] && e[0..] == e;
      ScriptToEnd(t1, e, 0);
    }
    Finish2(Transpile(Markup(ps) + "<%=" + e), Run(t), Run(t1), PrintStringHead + Render(ps, 0),
            PrintStringTail + PrintExpressionHead, Unclosed(e), true);
  }

  /** Well-formed pieces, then `<%B` never closed: the run fails after the statement text,
      whose first character comes out as for a closed statement. */
  lemma {:induction false} UnterminatedStatementTag(ps: seq<Piece>, b: seq<char>)
    requires AllWellFormed(ps) && b != [] && b[0] != '=' && NoCloseTag(b)
    ensures var e := Escape(b[0]);
            Transpile(Markup(ps) + "<%" + b) ==
              Trace(Lift(PrintStringHead + Render(ps, 0) + (e[1..] + PrintStringTail)) + Unclosed(e[..1] + b[1..]), true)
  {
    var e := Escape(b[0]);
    var text := e[..1] + b[1..];
    var c := CountAfter(ps, 0);
    var t := Ready("<%" + b, c, false);
    var t1 := TemplateReader(Src(e[..1], b[1..], false, c + 3), InvokeScript, false);
    assert Markup(ps) + "<%" + b == Markup(ps) + ("<%" + b);
    TranspilePrefix(ps, "<%" + b);
    assert Run(t) == Emit(Lift(e[1..] + PrintStringTail), Run(t1)) by {
      assert "<%" + b == ['<', '%', b[0]] + b[1..];
      RunOpenStatementTag(t, b[0], b[1..]);
    }
    StatementBodyToEnd(b, c);
    Finish2(Transpile(Markup(ps) + "<%" + b), Run(t), Run(t1), PrintStringHead + Render(ps, 0),
            e[1..] + PrintStringTail, Unclosed(text), true);
  }

  /** A statement body that runs to the end of the input, after its opening. */
  lemma {:induction false} StatementBodyToEnd(b: seq<char>, c: nat)
    requires b != [] && NoCloseTag(b)
    ensures var e := Escape(b[0]);
            Run(TemplateReader(Src(e[..1], b[1..], false, c + 3), InvokeScript, false)) ==
              Trace(Unclosed(e[..1] + b[1..]), true)
  {
    var e := Escape(b[0]);
    var text := e[..1] + b[1..];
    assert text[..1] == e[..1] && text[1..] == b[1..];
    NoCloseTagOpening(b);
    ScriptToEnd(TemplateReader(Src(e[..1], b[1..], false, c + 3), InvokeScript, false), text, 1);
  }

  /** Well-formed pieces, then `<%=E%` at the very end: the `%` gives an end-of-stream
      answer, and only the call after it reports the unterminated tag. */
  lemma {:induction false} PercentAtEndOfInput(ps: seq<Piece>, e: seq<char>)
    requires AllWellFormed(ps) && NoCloseTag(e)
    ensures Transpile(Markup(ps) + "<%=" + e + "%") ==
              Trace(Lift(PrintStringHead + Render(ps, 0) + (PrintStringTail + PrintExpressionHead)) + Lift(e) + [None], true)
  {
    NoCloseTagPercent(e);
    UnterminatedExpressionTag(ps, e + "%");
    assert Markup(ps) + "<%=" + e + "%" == Markup(ps) + "<%=" + (e + "%");
    assert (e + "%")[..|e|] == e;
  }
}
