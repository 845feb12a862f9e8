/**
 The template transpiler (the Java class `HtmlTemplateReader`): a pull-based state
 machine that turns markup with `<% … %>` and `<%= … %>` tags into script source,
 one character per call of `ReadOneChar`. Literal runs become `print('…');`,
 statement bodies pass through as they are, expression bodies become `print(…);`.
 */
module HtmlTemplateReader {
  import opened StringEscapeReader

  /** Characters drawn from the markup after which a literal is continued on a new line. */
  const PrintCharNumLimit: nat := 500

  const PrintStringHead := "print('"
  const PrintStringTail := "');\n"
  const PrintExpressionHead := "print("
  const PrintExpressionTail := ");\n"

  /** A backslash and a newline: continues a single-quoted script string on the next line. */
  const LineContinuation := "\\\n"

  /** What the Java cast `(char) -1` yields when an end of stream is pushed back. */
  const EofAsChar: char := '\U{FFFF}'

  datatype State = Content | InvokeScript | PrintScript

  /** The transpiler: its source, its lexical state and whether the closing of the last
      literal has been emitted. */
  datatype TemplateReader = TemplateReader(src: Src, state: State, hasPrintTail: bool)

  /** One call of `readOneChar`: a character, or None for end of stream, with the
      transpiler after the call; or the failure raised for an unterminated tag. */
  datatype ReadResult = Got(ch: Option<char>, next: TemplateReader) | Unterminated

  /** Escape mode is on while literal text is read and off inside script tags. */
  predicate Inv(t: TemplateReader) {
    && (t.state != Content ==> !t.src.escape)
    && (t.state == Content && !t.hasPrintTail ==> t.src.escape)
  }

  /** Everything has been delivered: every further call answers end of stream. */
  predicate Exhausted(t: TemplateReader) {
    t.hasPrintTail && t.src.queue == [] && t.src.input == []
  }

  /** The constructor: the head of the first print statement is queued and escape mode is on. */
  function New(input: seq<char>): (r: TemplateReader)
    ensures Inv(r) && r.state == Content && !r.hasPrintTail
    ensures Pending(r.src) == PrintStringHead + EscapeAll(input)
    ensures r.src.input == input && r.src.count == 0
  {
    var s := Fill(Open(input), PrintStringHead);
    assert s == Src(PrintStringHead, input, false, 0);
    TemplateReader(SetEscapeFlag(s, true), Content, false)
  }

  // ---------------------------------------------------------------------------
  // Progress measure: every call that is not the final end of stream lowers it.

  /** The cost of a queued character: `<` and `%` may start a tag and draw more characters. */
  function Weight(c: char): nat {
    if c == '<' then 12 else if c == '%' then 11 else 1
  }

  function QueueWeight(q: seq<char>): nat {
    if q == [] then 0 else Weight(q[0]) + QueueWeight(q[1..])
  }

  function Potential(s: Src): nat {
    QueueWeight(s.queue) + 20 * |s.input| + (if s.count >= PrintCharNumLimit then 3 else 0)
  }

  function Measure(t: TemplateReader): nat {
    Potential(t.src) + (if t.hasPrintTail then 0 else 6)
  }

  lemma {:induction false} QueueWeightAppend(a: seq<char>, b: seq<char>)
    ensures QueueWeight(a + b) == QueueWeight(a) + QueueWeight(b)
  {
    if a != [] {
      QueueWeightAppend(a[1..], b);
      assert (a + b)[0] == a[0];
      assert (a + b)[1..] == a[1..] + b;
    } else {
      assert a + b == b;
    }
  }

  lemma {:induction false} PlainQueueWeight(q: seq<char>)
    requires '<' !in q && '%' !in q
    ensures QueueWeight(q) == |q|
  {
    if q != [] {
      assert q[0] in q;
      assert forall c :: c in q[1..] ==> c in q;
      PlainQueueWeight(q[1..]);
    }
  }

  /** A pull gives back at least the weight of the character it returns. */
  lemma {:induction false} ReadPotential(s: Src)
    ensures Read(s).ch.Some? ==> Potential(Read(s).src) + Weight(Read(s).ch.value) <= Potential(s)
    ensures Read(s).ch.None? ==> Read(s).src == s
  {
    if s.queue == [] && s.input != [] {
      var e := if s.escape then Escape(s.input[0]) else [s.input[0]];
      assert Read(s).src.queue == e[1..];
      assert '<' !in e[1..] && '%' !in e[1..];
      PlainQueueWeight(e[1..]);
    }
  }

  lemma {:induction false} FillPotential(s: Src, text: seq<char>)
    requires '<' !in text && '%' !in text
    ensures Potential(Fill(s, text)) == Potential(s) + |text|
  {
    QueueWeightAppend(s.queue, text);
    PlainQueueWeight(text);
  }

  lemma {:induction false} FillCharPotential(s: Src, c: char)
    ensures Potential(FillChar(s, c)) == Potential(s) + Weight(c)
  {
    QueueWeightAppend(s.queue, [c]);
  }

  // ---------------------------------------------------------------------------
  // The state machine. The functions follow the Java methods; what each call achieves is
  // stated by the lemma that follows it.

  /** `readOneChar`. */
  function ReadOneChar(t: TemplateReader): ReadResult {
    var p := Read(t.src);
    var t1 := t.(src := p.src);
    match p.ch
    case None => FillTailCodeIfNeverFill(t1)
    case Some(ch) =>
      match t.state
      case Content => HandleCharWhenIsContent(t1, ch)
      case InvokeScript => HandleCharWhenIsScript(t1, ch)
      case PrintScript => HandleCharWhenIsScript(t1, ch)
  }

  /** `fillTailCodeIfNeverFill`: at the end of the input, close the last literal once; an
      open script tag at the end of the input is an error. */
  function FillTailCodeIfNeverFill(t: TemplateReader): ReadResult {
    if !t.hasPrintTail then
      if t.state != Content then Unterminated
      else
        var p := Read(Fill(SetEscapeFlag(t.src, false), PrintStringTail));
        Got(p.ch, TemplateReader(p.src, t.state, true))
    else Got(None, t)
  }

  lemma {:induction false} FillTailSpec(t: TemplateReader)
    requires Pending(t.src) == []
    ensures var r := FillTailCodeIfNeverFill(t);
            && (t.hasPrintTail ==> r == Got(None, t))
            && (!t.hasPrintTail && t.state != Content ==> r.Unterminated?)
            && (!t.hasPrintTail && t.state == Content ==>
                  && r.Got? && r.ch == Some(PrintStringTail[0])
                  && Pending(r.next.src) == PrintStringTail[1..] && !r.next.src.escape
                  && r.next.hasPrintTail && r.next.state == Content && r.next.src.count == t.src.count)
            && (r.Got? && !t.hasPrintTail ==> Measure(r.next) < Measure(t))
  {
    if !t.hasPrintTail && t.state == Content {
      var s := Fill(SetEscapeFlag(t.src, false), PrintStringTail);
      FillPotential(SetEscapeFlag(t.src, false), PrintStringTail);
      assert s.queue == PrintStringTail && s.input == [];
      ReadPotential(s);
      ReadDelivers(s);
    }
  }

  predicate IsReadNumOverLimit(s: Src) {
    s.count >= PrintCharNumLimit
  }

  /** `createNewPrintLine`: queue a line continuation, unescaped, and restart the count. */
  function CreateNewPrintLine(s: Src): Src {
    var s1 := SetEscapeFlag(ResetRealReadCharCount(s), false);
    SetEscapeFlag(Fill(s1, LineContinuation), true)
  }

  /** The continuation is delivered right after what is queued and before the rest of the
      input, which is still escaped. */
  lemma {:induction false} CreateNewPrintLineSpec(s: Src)
    ensures var r := CreateNewPrintLine(s);
            && Pending(r) == s.queue + LineContinuation + EscapeAll(s.input)
            && r.escape && r.count == 0 && r.input == s.input
  {
  }

  /** The `else if` of `handleCharWhenIsContent`: returns `ch` as it is, after splitting
      the literal when enough markup characters have been drawn. */
  function SplitIfOverLimit(t: TemplateReader, ch: Option<char>): ReadResult {
    if IsReadNumOverLimit(t.src) then Got(ch, t.(src := CreateNewPrintLine(t.src)))
    else Got(ch, t)
  }

  lemma {:induction false} SplitIfOverLimitSpec(t: TemplateReader, ch: Option<char>)
    ensures var r := SplitIfOverLimit(t, ch);
            && r.Got? && r.ch == ch && r.next.state == t.state && r.next.hasPrintTail == t.hasPrintTail
            && (IsReadNumOverLimit(t.src) ==>
                  Pending(r.next.src) == t.src.queue + LineContinuation + EscapeAll(t.src.input)
                  && r.next.src.count == 0 && r.next.src.escape && r.next.src.input == t.src.input)
            && (!IsReadNumOverLimit(t.src) ==> r.next == t)
            && Measure(r.next) <= Measure(t)
  {
    if IsReadNumOverLimit(t.src) {
      CreateNewPrintLineSpec(t.src);
      FillPotential(ResetRealReadCharCount(t.src).(escape := false), LineContinuation);
    }
  }

  /** `handleCharWhenIsContent`: `ch` was just pulled while reading literal text. A `<`
      with nothing after it is lost; a look-ahead that does not open a tag is pushed back,
      an end of stream after `<%` as the character `(char) -1`. */
  function HandleCharWhenIsContent(t: TemplateReader, ch: char): ReadResult {
    if ch == '<' then
      var p := Read(t.src);
      var t1 := t.(src := p.src);
      match p.ch
      case None => SplitIfOverLimit(t1, None)
      case Some(la) =>
        if la == '%' then
          var p2 := Read(t1.src);
          var t2 := t1.(src := p2.src);
          match p2.ch
          case Some(la2) => GotoScriptState(t2, la2)
          case None => Got(Some('<'), t2.(src := FillChar(t2.src, EofAsChar)))
        else Got(Some('<'), t1.(src := FillChar(t1.src, la)))
    else SplitIfOverLimit(t, Some(ch))
  }

  /** What a call in literal text guarantees: a character or end-of-stream answer, the
      tail flag untouched, progress against the measure (the pulled character's weight
      already paid), the invariant kept, and anything but `<` returned unchanged. */
  predicate ContentStep(t: TemplateReader, ch: char, r: ReadResult) {
    && r.Got? && r.next.hasPrintTail == t.hasPrintTail
    && Measure(r.next) < Measure(t) + Weight(ch)
    && (Inv(t) ==> Inv(r.next))
    && (ch != '<' ==> r.ch == Some(ch) && r.next.state == Content)
  }

  lemma {:induction false} HandleCharWhenIsContentSpec(t: TemplateReader, ch: char)
    requires t.state == Content
    ensures ContentStep(t, ch, HandleCharWhenIsContent(t, ch))
  {
    if ch == '<' {
      HandleAngleSpec(t);
    } else {
      SplitIfOverLimitSpec(t, Some(ch));
    }
  }

  lemma {:induction false} HandleAngleSpec(t: TemplateReader)
    requires t.state == Content
    ensures ContentStep(t, '<', HandleCharWhenIsContent(t, '<'))
  {
    var p := Read(t.src);
    ReadPotential(t.src);
    ReadDelivers(t.src);
    var t1 := t.(src := p.src);
    match p.ch
    case None => SplitIfOverLimitSpec(t1, None);
    case Some(la) =>
      if la == '%' {
        HandleOpenTagSpec(t);
      } else {
        FillCharPotential(t1.src, la);
      }
  }

  lemma {:induction false} HandleOpenTagSpec(t: TemplateReader)
    requires t.state == Content && Read(t.src).ch == Some('%')
    ensures ContentStep(t, '<', HandleCharWhenIsContent(t, '<'))
  {
    var t1 := t.(src := Read(t.src).src);
    ReadPotential(t.src);
    ReadDelivers(t.src);
    var p2 := Read(t1.src);
    ReadPotential(t1.src);
    ReadDelivers(t1.src);
    var t2 := t1.(src := p2.src);
    match p2.ch
    case Some(la2) => GotoScriptStateSpec(t2, la2);
    case None => FillCharPotential(t2.src, EofAsChar);
  }

  /** `gotoScriptState`: `<%` and then `ch` were pulled in literal text. */
  function GotoScriptState(t: TemplateReader, ch: char): ReadResult {
    var s := Fill(SetEscapeFlag(t.src, false), PrintStringTail);
    var (state, s1) :=
      if ch == '=' then (PrintScript, Fill(s, PrintExpressionHead))
      else (InvokeScript, FillChar(s, ch));
    var p := Read(s1);
    Got(p.ch, TemplateReader(p.src, state, t.hasPrintTail))
  }

  /** The literal is closed, an expression tag opens `print(` and a statement tag gives back
      its first character; from there the markup is delivered raw. */
  lemma {:induction false} GotoScriptStateSpec(t: TemplateReader, ch: char)
    ensures var r := GotoScriptState(t, ch);
            && r.Got? && r.ch.Some? && r.next.hasPrintTail == t.hasPrintTail && !r.next.src.escape
            && r.next.state == (if ch == '=' then PrintScript else InvokeScript)
            && [r.ch.value] + Pending(r.next.src) ==
                 t.src.queue + PrintStringTail
                 + (if ch == '=' then PrintExpressionHead else [ch])
                 + t.src.input
            && Measure(r.next) <= Measure(t) + Weight(ch) + 8
  {
    var s := Fill(SetEscapeFlag(t.src, false), PrintStringTail);
    FillPotential(SetEscapeFlag(t.src, false), PrintStringTail);
    var s1 := if ch == '=' then Fill(s, PrintExpressionHead) else FillChar(s, ch);
    FillPotential(s, PrintExpressionHead);
    FillCharPotential(s, ch);
    ReadPotential(s1);
    ReadDelivers(s1);
  }

  /** `handleCharWhenIsScript`: `ch` was just pulled inside a script tag. A `%` at the end
      of the input answers end of stream. */
  function HandleCharWhenIsScript(t: TemplateReader, ch: char): ReadResult {
    if ch == '%' then
      var p := Read(t.src);
      var t1 := t.(src := p.src);
      match p.ch
      case None => Got(None, t1)
      case Some(la) =>
        if la == '>' then CloseScriptTag(t1, t.state)
        else Got(Some('%'), t1.(src := FillChar(t1.src, la)))
    else Got(Some(ch), t)
  }

  lemma {:induction false} HandleCharWhenIsScriptSpec(t: TemplateReader, ch: char)
    requires t.state != Content
    ensures var r := HandleCharWhenIsScript(t, ch);
            && r.Got? && r.next.hasPrintTail == t.hasPrintTail
            && Measure(r.next) < Measure(t) + Weight(ch)
            && (Inv(t) ==> Inv(r.next))
            && (ch != '%' ==> r == Got(Some(ch), t))
  {
    if ch == '%' {
      var p := Read(t.src);
      ReadPotential(t.src);
      ReadDelivers(t.src);
      var t1 := t.(src := p.src);
      match p.ch
      case None =>
      case Some(la) =>
        if la == '>' {
          CloseScriptTagSpec(t1, t.state);
        } else {
          FillCharPotential(t1.src, la);
        }
    }
  }

  /** The `%>` branch of `handleCharWhenIsScript`: close the expression's print statement
      if any, open a new literal, and read on in literal text. */
  function CloseScriptTag(t: TemplateReader, state: State): ReadResult {
    var s1 := if state == PrintScript then Fill(t.src, PrintExpressionTail) else t.src;
    var p := Read(SetEscapeFlag(Fill(s1, PrintStringHead), true));
    Got(p.ch, TemplateReader(p.src, Content, t.hasPrintTail))
  }

  lemma {:induction false} CloseScriptTagSpec(t: TemplateReader, state: State)
    ensures var r := CloseScriptTag(t, state);
            && r.Got? && r.ch.Some? && r.next.hasPrintTail == t.hasPrintTail
            && r.next.state == Content && r.next.src.escape
            && [r.ch.value] + Pending(r.next.src) ==
                 t.src.queue + (if state == PrintScript then PrintExpressionTail else [])
                 + PrintStringHead + EscapeAll(t.src.input)
            && Measure(r.next) < Measure(t) + 10
  {
    var s1 := if state == PrintScript then Fill(t.src, PrintExpressionTail) else t.src;
    FillPotential(t.src, PrintExpressionTail);
    var s2 := SetEscapeFlag(Fill(s1, PrintStringHead), true);
    FillPotential(s1, PrintStringHead);
    var q := t.src.queue + (if state == PrintScript then PrintExpressionTail else []) + PrintStringHead;
    assert s2 == Src(q, t.src.input, true, t.src.count);
    ReadPotential(s2);
    ReadDelivers(s2);
    assert Pending(s2) != [];
    assert [Pending(s2)[0]] + Pending(s2)[1..] == Pending(s2);
  }

  /** Every call that is not the final end of stream lowers the measure, and once everything
      has been delivered every call answers end of stream. */
  lemma {:induction false} ReadOneCharProgress(t: TemplateReader)
    ensures Exhausted(t) ==> ReadOneChar(t) == Got(None, t)
    ensures ReadOneChar(t).Got? && !Exhausted(t) ==> Measure(ReadOneChar(t).next) < Measure(t)
  {
    ReadOneCharSpec(t);
  }

  /** `readOneChar` keeps escape mode in step with the lexical state, fails exactly at an
      unterminated tag, and closes the last literal only at the end of literal text. */
  lemma {:induction false} ReadOneCharSpec(t: TemplateReader)
    ensures var r := ReadOneChar(t);
            && (Exhausted(t) ==> r == Got(None, t))
            && (r.Got? && !Exhausted(t) ==> Measure(r.next) < Measure(t))
            && (r.Got? && Inv(t) ==> Inv(r.next))
            && (r.Unterminated? <==> !t.hasPrintTail && Pending(t.src) == [] && t.state != Content)
            && (t.hasPrintTail ==> r.Got? && r.next.hasPrintTail)
            && (r.Got? && r.next.hasPrintTail && !t.hasPrintTail ==>
                  Pending(t.src) == [] && t.state == Content)
  {
    var p := Read(t.src);
    ReadPotential(t.src);
    ReadDelivers(t.src);
    var t1 := t.(src := p.src);
    match p.ch
    case None => FillTailSpec(t1);
    case Some(ch) =>
      if t.state == Content {
        HandleCharWhenIsContentSpec(t1, ch);
      } else {
        HandleCharWhenIsScriptSpec(t1, ch);
      }
  }

  // ---------------------------------------------------------------------------
  // Whole runs.

  /** The answers of successive calls (None for an end-of-stream answer) until every further
      call answers end of stream; `failed` when the run stopped at an unterminated tag. */
  datatype Trace = Trace(out: seq<Option<char>>, failed: bool)

  function Run(t: TemplateReader): Trace
    decreases Measure(t), 2
  {
    if Exhausted(t) then Trace([], false) else RunOn(t)
  }

  /** The run from a transpiler that still has something to deliver. */
  function RunOn(t: TemplateReader): Trace
    requires !Exhausted(t)
    decreases Measure(t), 1
  {
    RunAfter(t)
  }

  /** The answer of the next call, then the rest of the run. */
  function RunAfter(t: TemplateReader): Trace
    requires !Exhausted(t)
    decreases Measure(t), 0
  {
    ReadOneCharProgress(t);
    match ReadOneChar(t)
    case Unterminated => Trace([], true)
    case Got(c, next) =>
      var rest := Run(next);
      Trace([c] + rest.out, rest.failed)
  }

  /** The whole output of the transpiler for a markup input. */
  function Transpile(input: seq<char>): Trace {
    Run(New(input))
  }

  /** Output characters as answers of successive calls. */
  function Lift(s: seq<char>): seq<Option<char>>
  {
    if s == [] then [] else [Some(s[0])] + Lift(s[1..])
  }

  lemma {:induction false} LiftAppend(a: seq<char>, b: seq<char>)
    ensures Lift(a + b) == Lift(a) + Lift(b)
  {
    if a != [] {
      assert (a + b)[1..] == a[1..] + b;
      LiftAppend(a[1..], b);
    } else {
      assert a + b == b;
    }
  }

  /** `out`, followed by the run `tr`. */
  function Emit(out: seq<Option<char>>, tr: Trace): Trace {
    Trace(out + tr.out, tr.failed)
  }

  lemma {:induction false} EmitEmit(a: seq<Option<char>>, b: seq<Option<char>>, tr: Trace)
    ensures Emit(a, Emit(b, tr)) == Emit(a + b, tr)
  {
  }

  lemma {:induction false} LiftCons(c: char, s: seq<char>)
    ensures Lift([c] + s) == [Some(c)] + Lift(s)
  {
    assert ([c] + s)[1..] == s;
  }

  lemma {:induction false} EmitLift(a: seq<char>, b: seq<char>, tr: Trace)
    ensures Emit(Lift(a), Emit(Lift(b), tr)) == Emit(Lift(a + b), tr)
  {
    LiftAppend(a, b);
    EmitEmit(Lift(a), Lift(b), tr);
  }

  /** A run that emits `a` and continues with a run that emits `b` emits `a + b`. */
  lemma {:induction false} EmitThen(r0: Trace, r1: Trace, r2: Trace, a: seq<char>, b: seq<char>)
    requires r0 == Emit(Lift(a), r1) && r1 == Emit(Lift(b), r2)
    ensures r0 == Emit(Lift(a + b), r2)
  {
    EmitLift(a, b, r2);
  }

  /** A run that answers `c` and continues with a run that emits `b` emits `[c] + b`. */
  lemma {:induction false} EmitFirst(r0: Trace, r1: Trace, r2: Trace, c: char, b: seq<char>)
    requires r0 == Emit([Some(c)], r1) && r1 == Emit(Lift(b), r2)
    ensures r0 == Emit(Lift([c] + b), r2)
  {
    EmitEmit([Some(c)], Lift(b), r2);
    LiftCons(c, b);
  }

  /** One call at the front of a run: its answer opens the run, or the run fails. */
  lemma {:induction false} RunStep(t: TemplateReader)
    requires !Exhausted(t)
    ensures Run(t) == match ReadOneChar(t)
                      case Unterminated => Trace([], true)
                      case Got(c, next) => Emit([c], Run(next))
  {
    assert Run(t) == RunOn(t) == RunAfter(t);
  }

  lemma {:induction false} RunGot(t: TemplateReader)
    requires !Exhausted(t) && ReadOneChar(t).Got?
    ensures Run(t) == Emit([ReadOneChar(t).ch], Run(ReadOneChar(t).next))
  {
    RunStep(t);
  }

  /** The number of calls in a run that close the last literal. */
  function TailFills(t: TemplateReader): nat
    decreases Measure(t)
  {
    if Exhausted(t) then 0
    else
      ReadOneCharProgress(t);
      match ReadOneChar(t)
      case Unterminated => 0
      case Got(c, next) =>
        (if !t.hasPrintTail && next.hasPrintTail then 1 else 0) + TailFills(next)
  }

  /** A run that does not fail closes the last literal exactly once, and never after it was closed. */
  lemma {:induction false} TailEmittedOnce(t: TemplateReader)
    requires !Run(t).failed
    ensures TailFills(t) == (if t.hasPrintTail then 0 else 1)
    decreases Measure(t)
  {
    if !Exhausted(t) {
      RunStep(t);
      ReadOneCharProgress(t);
      var r := ReadOneChar(t);
      assert r.Got?;
      TailEmittedOnce(r.next);
    }
  }
}
