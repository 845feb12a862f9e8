/**
 What the transpiler does, stated one call at a time for each branch of the state
 machine and over whole inputs: the exact script produced for literal text and for a
 single tag, the line splitting, push-back without loss, and the end-of-input cases.
 */
module TemplateProperties {
  import opened StringEscapeReader
  import opened HtmlTemplateReader
  import opened LiteralSplit
  import opened SeqFacts

  // ---------------------------------------------------------------------------
  // One call, in literal text.

  /** A queued character in literal text is returned as it is; when the count has reached
      the limit the literal is split after it, even though the character was not read from
      the markup. */
  lemma {:induction false} QueuedContentChar(t: TemplateReader)
    requires t.state == Content && |t.src.queue| > 0 && t.src.queue[0] != '<'
    ensures var q := t.src.queue[1..];
            ReadOneChar(t) == Got(Some(t.src.queue[0]),
              if t.src.count >= PrintCharNumLimit
              then t.(src := Src(q + LineContinuation, t.src.input, true, 0))
              else t.(src := t.src.(queue := q)))
  {
  }

  /** A markup character other than `<` is delivered escaped; the literal is split after it
      when it is the 500th since the last split. */
  lemma {:induction false} ContentChar(t: TemplateReader, c: char, rest: seq<char>)
    requires t.state == Content && t.src.queue == [] && t.src.escape
    requires t.src.input == [c] + rest && c != '<'
    ensures var e := Escape(c);
            var split := t.src.count + 1 >= PrintCharNumLimit;
            ReadOneChar(t) == Got(Some(e[0]), t.(src :=
              Src(e[1..] + (if split then LineContinuation else []), rest, true,
                  if split then 0 else t.src.count + 1)))
  {
    assert Escape(c)[0] != '<';
  }

  /** `<` followed by anything but `%` is literal text: `<` is returned and the look-ahead is
      pushed back. An escaped look-ahead is pushed back behind the second half of its own
      escape pair. */
  lemma {:induction false} AngleNotTag(t: TemplateReader, x: char, rest: seq<char>)
    requires t.state == Content && t.src.queue == [] && t.src.escape
    requires t.src.input == ['<', x] + rest && x != '%'
    ensures var e := Escape(x);
            ReadOneChar(t) == Got(Some('<'), t.(src := Src(e[1..] + e[..1], rest, true, t.src.count + 2)))
  {
    assert Escape(x)[0] != '%';
    assert ([x] + rest)[1..] == rest;
  }

  /** For a look-ahead that escaping leaves alone, what is still to come after the `<` is
      exactly the escaped rest of the markup: nothing is dropped or repeated. */
  lemma {:induction false} AngleNotTagLossless(t: TemplateReader, x: char, rest: seq<char>)
    requires t.state == Content && t.src.queue == [] && t.src.escape
    requires t.src.input == ['<', x] + rest && x != '%' && !NeedsEscape(x)
    ensures ReadOneChar(t).ch == Some('<')
    ensures ['<'] + Pending(ReadOneChar(t).next.src) == Pending(t.src)
  {
    AngleNotTag(t, x, rest);
    assert Pending(ReadOneChar(t).next.src) == [x] + EscapeAll(rest);
    assert ['<', x] + rest == ['<'] + ([x] + rest);
    assert EscapeAll([x] + rest) == [x] + EscapeAll(rest) by {
      assert ([x] + rest)[1..] == rest;
    }
    assert EscapeAll(['<'] + ([x] + rest)) == ['<'] + EscapeAll([x] + rest) by {
      assert (['<'] + ([x] + rest))[1..] == [x] + rest;
    }
  }

  /** `<%=` closes the literal, opens `print(` and leaves escape mode; the `=` is consumed. */
  lemma {:induction false} OpenPrintTag(t: TemplateReader, rest: seq<char>)
    requires t.state == Content && t.src.queue == [] && t.src.escape
    requires t.src.input == "<%=" + rest
    ensures ReadOneChar(t) == Got(Some(PrintStringTail[0]), TemplateReader(
              Src(PrintStringTail[1..] + PrintExpressionHead, rest, false, t.src.count + 3),
              PrintScript, t.hasPrintTail))
  {
    assert t.src.input[1..] == "%=" + rest;
    assert t.src.input[1..][1..] == "=" + rest;
    assert t.src.input[1..][1..][1..] == rest;
  }

  /** `<%` and any character other than `=` close the literal and enter a statement; that
      character, as the source delivered it, is pushed back behind the literal's closing, so
      for a character escaping leaves alone the statement starts with it. */
  lemma {:induction false} OpenStatementTag(t: TemplateReader, c: char, rest: seq<char>)
    requires t.state == Content && t.src.queue == [] && t.src.escape
    requires t.src.input == ['<', '%', c] + rest && c != '='
    ensures var e := Escape(c);
            var x := e[1..] + PrintStringTail + e[..1];
            ReadOneChar(t) == Got(Some(x[0]), TemplateReader(
              Src(x[1..], rest, false, t.src.count + 3), InvokeScript, t.hasPrintTail))
    ensures !NeedsEscape(c) ==>
              ReadOneChar(t).ch == Some(PrintStringTail[0])
              && ReadOneChar(t).next.src.queue == PrintStringTail[1..] + [c]
  {
    assert t.src.input[1..] == ['%', c] + rest;
    assert t.src.input[1..][1..] == [c] + rest;
    assert ([c] + rest)[1..] == rest;
    assert Escape(c)[0] != '=';
  }

  // ---------------------------------------------------------------------------
  // One call, inside a script tag. Script text `p` is pending with its first `k` characters
  // (none, or the one character a look-ahead pushed back) in the queue and the rest unread.

  /** A queued character inside a tag other than `%` is returned as it is. */
  lemma {:induction false} QueuedScriptChar(t: TemplateReader)
    requires t.state != Content && |t.src.queue| > 0 && t.src.queue[0] != '%'
    ensures ReadOneChar(t) == Got(Some(t.src.queue[0]), t.(src := t.src.(queue := t.src.queue[1..])))
  {
  }

  /** Inside a tag every character other than `%` is returned unchanged and unescaped; it is
      counted when it is drawn from the markup rather than from the queue. */
  lemma {:induction false} ScriptChar(t: TemplateReader, p: seq<char>, k: nat)
    requires t.state != Content && !t.src.escape
    requires p != [] && p[0] != '%' && k <= 1
    requires t.src.queue == p[..k] && t.src.input == p[k..]
    ensures ReadOneChar(t) == Got(Some(p[0]), t.(src := Src([], p[1..], false, t.src.count + 1 - k)))
  {
    if k == 0 {
      assert t.src.input == p && t.src.input[1..] == p[1..];
    } else {
      assert t.src.queue == [p[0]] && t.src.input == p[1..];
    }
  }

  /** `%` followed by anything but `>` is script text: `%` is returned and the look-ahead is
      pushed back, so nothing is dropped or repeated. */
  lemma {:induction false} PercentNotClose(t: TemplateReader, p: seq<char>, k: nat)
    requires t.state != Content && !t.src.escape && k <= 1
    requires |p| >= 2 && p[0] == '%' && p[1] != '>'
    requires t.src.queue == p[..k] && t.src.input == p[k..]
    ensures ReadOneChar(t) == Got(Some('%'), t.(src := Src([p[1]], p[2..], false, t.src.count + 2 - k)))
  {
    if k == 0 {
      assert t.src.input == ['%', p[1]] + p[2..];
      PercentFromInput(t, p[1], p[2..]);
    } else {
      assert t.src.queue == ['%'] && t.src.input == [p[1]] + p[2..];
      PercentFromQueue(t, p[1], p[2..]);
    }
  }

  /** What is still to come after such a `%` is exactly what came after it before. */
  lemma {:induction false} PercentNotCloseLossless(t: TemplateReader, p: seq<char>, k: nat)
    requires t.state != Content && !t.src.escape && k <= 1
    requires |p| >= 2 && p[0] == '%' && p[1] != '>'
    requires t.src.queue == p[..k] && t.src.input == p[k..]
    ensures ReadOneChar(t).ch == Some('%')
    ensures ['%'] + Pending(ReadOneChar(t).next.src) == Pending(t.src)
  {
    PercentNotClose(t, p, k);
    assert p[..k] + p[k..] == p == ['%'] + ([p[1]] + p[2..]);
  }

  lemma {:induction false} PercentFromInput(t: TemplateReader, x: char, rest: seq<char>)
    requires t.state != Content && !t.src.escape && t.src.queue == []
    requires t.src.input == ['%', x] + rest && x != '>'
    ensures ReadOneChar(t) == Got(Some('%'), t.(src := Src([x], rest, false, t.src.count + 2)))
  {
    assert t.src.input[1..] == [x] + rest;
    assert ([x] + rest)[1..] == rest;
  }

  lemma {:induction false} PercentFromQueue(t: TemplateReader, x: char, rest: seq<char>)
    requires t.state != Content && !t.src.escape && t.src.queue == ['%']
    requires t.src.input == [x] + rest && x != '>'
    ensures ReadOneChar(t) == Got(Some('%'), t.(src := Src([x], rest, false, t.src.count + 1)))
  {
    assert t.src.input[1..] == rest;
  }

  /** `%>` ends the tag: an expression's print statement is closed, a new literal is opened,
      escape mode is back on and the state is literal text again. */
  lemma {:induction false} CloseTag(t: TemplateReader, rest: seq<char>, k: nat)
    requires t.state != Content && !t.src.escape && k <= 1
    requires t.src.queue == ("%>" + rest)[..k] && t.src.input == ("%>" + rest)[k..]
    ensures var y := (if t.state == PrintScript then PrintExpressionTail else []) + PrintStringHead;
            ReadOneChar(t) == Got(Some(y[0]), TemplateReader(
              Src(y[1..], rest, true, t.src.count + 2 - k), Content, t.hasPrintTail))
  {
    if k == 0 {
      assert t.src.input == "%>" + rest;
      assert t.src.input[1..] == ">" + rest;
      assert t.src.input[1..][1..] == rest;
    } else {
      assert t.src.queue == "%" && t.src.input == ">" + rest;
      assert t.src.input[1..] == rest;
    }
  }

  // ---------------------------------------------------------------------------
  // One call, at the end of the input.

  /** A `<` that is the last markup character is lost: the call answers end of stream
      without closing the literal. */
  lemma {:induction false} AngleAtEnd(t: TemplateReader)
    requires t.state == Content && t.src.queue == [] && t.src.input == ['<']
    ensures ReadOneChar(t) == Got(None, t.(src :=
              if t.src.count + 1 >= PrintCharNumLimit then Src(LineContinuation, [], true, 0)
              else Src([], [], t.src.escape, t.src.count + 1)))
  {
  }

  /** `<%` at the very end is not an error: `<` is returned and the end of stream, cast to a
      character, is pushed back. */
  lemma {:induction false} OpenTagAtEnd(t: TemplateReader)
    requires t.state == Content && t.src.queue == [] && t.src.input == "<%"
    ensures ReadOneChar(t) == Got(Some('<'), t.(src := Src([EofAsChar], [], t.src.escape, t.src.count + 2)))
  {
    assert t.src.input[1..] == "%";
  }

  /** A `%` that is the last character inside a tag gives an end-of-stream answer; only the
      next call reports the unterminated tag. */
  lemma {:induction false} PercentAtEnd(t: TemplateReader, k: nat)
    requires t.state != Content && k <= 1 && !t.hasPrintTail
    requires t.src.queue == "%"[..k] && t.src.input == "%"[k..]
    ensures ReadOneChar(t) == Got(None, t.(src := Src([], [], t.src.escape, t.src.count + 1 - k)))
    ensures ReadOneChar(ReadOneChar(t).next).Unterminated?
  {
  }

  // ---------------------------------------------------------------------------
  // Runs of many calls.

  /** Queued text in literal state comes out as it is, followed by one line continuation
      when the count had already reached the limit (the continuation is queued behind it). */
  lemma {:induction false} DrainContent(t: TemplateReader)
    requires t.state == Content && '<' !in t.src.queue
    ensures var split := t.src.count >= PrintCharNumLimit && t.src.queue != [];
            Run(t) == Emit(Lift(if split then t.src.queue + LineContinuation else t.src.queue),
                           Run(t.(src := Src([], t.src.input, t.src.escape || split,
                                             if split then 0 else t.src.count))))
    decreases |t.src.queue| + (if t.src.count >= PrintCharNumLimit && t.src.queue != [] then 2 else 0)
  {
    var q := t.src.queue;
    if q != [] {
      assert '<' !in q[1..] && q[0] != '<' by {
        assert q[0] in q;
        assert forall c :: c in q[1..] ==> c in q;
      }
      QueuedContentChar(t);
      RunGot(t);
      var t1 := ReadOneChar(t).next;
      if t.src.count >= PrintCharNumLimit {
        var t2 := t.(src := Src([], t.src.input, true, 0));
        assert t1 == t.(src := Src(q[1..] + LineContinuation, t.src.input, true, 0));
        assert '<' !in q[1..] + LineContinuation;
        DrainContent(t1);
        assert t1.(src := Src([], t1.src.input, t1.src.escape, t1.src.count)) == t2;
        EmitEmit([Some(q[0])], Lift(q[1..] + LineContinuation), Run(t2));
        LiftCons(q[0], q[1..] + LineContinuation);
        assert [q[0]] + (q[1..] + LineContinuation) == q + LineContinuation;
      } else {
        var t2 := t.(src := Src([], t.src.input, t.src.escape, t.src.count));
        DrainContent(t1);
        assert t1.(src := Src([], t1.src.input, t1.src.escape, t1.src.count)) == t2;
        EmitEmit([Some(q[0])], Lift(q[1..]), Run(t2));
        LiftCons(q[0], q[1..]);
        assert [q[0]] + q[1..] == q;
      }
    } else {
      assert t.(src := Src([], t.src.input, t.src.escape, t.src.count)) == t;
    }
  }

  /** Queued text inside a tag comes out as it is, up to the first `%` in the queue. */
  lemma {:induction false} DrainScript(t: TemplateReader, a: seq<char>, b: seq<char>)
    requires t.state != Content && t.src.queue == a + b && '%' !in a
    ensures Run(t) == Emit(Lift(a), Run(t.(src := t.src.(queue := b))))
    decreases |a|
  {
    if a != [] {
      var t1 := t.(src := t.src.(queue := a[1..] + b));
      var t0 := t.(src := t.src.(queue := b));
      assert '%' !in a[1..] && a[0] != '%' by {
        assert a[0] in a;
        assert forall c :: c in a[1..] ==> c in a;
      }
      assert t.src.queue[0] == a[0] && t.src.queue[1..] == a[1..] + b;
      QueuedScriptChar(t);
      RunGot(t);
      DrainScript(t1, a[1..], b);
      assert t1.(src := t1.src.(queue := b)) == t0;
      EmitFirst(Run(t), Run(t1), Run(t0), a[0], a[1..]);
      assert [a[0]] + a[1..] == a;
    } else {
      assert t.(src := t.src.(queue := b)) == t;
    }
  }

  /** A markup character other than `<` in literal text comes out escaped, followed by a
      line continuation when it brings the count to the limit. */
  lemma {:induction false} RunContentChar(t: TemplateReader, c: char, rest: seq<char>)
    requires t.state == Content && t.src.queue == [] && t.src.escape
    requires t.src.input == [c] + rest && c != '<'
    ensures var split := t.src.count + 1 >= PrintCharNumLimit;
            Run(t) == Emit(Lift(Escape(c) + (if split then LineContinuation else [])),
                           Run(t.(src := Src([], rest, true, if split then 0 else t.src.count + 1))))
  {
    var e := Escape(c);
    var split := t.src.count + 1 >= PrintCharNumLimit;
    var c1 := if split then 0 else t.src.count + 1;
    var mark := if split then LineContinuation else [];
    var q := e[1..] + mark;
    ContentChar(t, c, rest);
    RunGot(t);
    var t1 := ReadOneChar(t).next;
    assert t1 == t.(src := Src(q, rest, true, c1));
    assert '<' !in q;
    DrainContent(t1);
    var t2 := t.(src := Src([], rest, true, c1));
    assert t1.(src := Src([], t1.src.input, t1.src.escape, t1.src.count)) == t2;
    EmitFirst(Run(t), Run(t1), Run(t2), e[0], q);
    Uncons(e, mark);
  }

  /** Literal markup without `<` comes out escaped and split by the reference `Split`. */
  lemma {:induction false} ContentLiteral(t: TemplateReader, text: seq<char>, rest: seq<char>)
    requires t.state == Content && t.src.queue == [] && t.src.escape
    requires t.src.count < PrintCharNumLimit
    requires t.src.input == text + rest && '<' !in text
    ensures Run(t) == Emit(Lift(Split(text, t.src.count)),
                           Run(t.(src := Src([], rest, true, (t.src.count + |text|) % PrintCharNumLimit))))
    decreases |text|
  {
    if text == [] {
      assert t.(src := Src([], rest, true, t.src.count % PrintCharNumLimit)) == t;
    } else {
      var c := text[0];
      assert '<' !in text[1..] && c != '<' by {
        assert c in text;
        assert forall d :: d in text[1..] ==> d in text;
      }
      assert t.src.input == [c] + (text[1..] + rest);
      var split := t.src.count + 1 >= PrintCharNumLimit;
      var c1 := if split then 0 else t.src.count + 1;
      var head := Escape(c) + (if split then LineContinuation else []);
      RunContentChar(t, c, text[1..] + rest);
      var t2 := t.(src := Src([], text[1..] + rest, true, c1));
      ContentLiteral(t2, text[1..], rest);
      var t3 := t.(src := Src([], rest, true, (t.src.count + |text|) % PrintCharNumLimit));
      CountAfterChar(t.src.count, |text[1..]|);
      assert t2.(src := Src([], rest, true, (c1 + |text[1..]|) % PrintCharNumLimit)) == t3;
      EmitThen(Run(t), Run(t2), Run(t3), head, Split(text[1..], c1));
      SplitCons(text, t.src.count);
    }
  }

  /** Restarting the count at the limit is counting modulo the limit. */
  lemma CountAfterChar(count: nat, n: nat)
    requires count < PrintCharNumLimit
    ensures ((if count + 1 >= PrintCharNumLimit then 0 else count + 1) + n) % PrintCharNumLimit
            == (count + 1 + n) % PrintCharNumLimit
  {
    if count + 1 >= PrintCharNumLimit {
      assert count + 1 + n == n + PrintCharNumLimit;
    }
  }

  /** A script character other than `%` comes out unchanged. */
  lemma {:induction false} RunScriptChar(t: TemplateReader, p: seq<char>, k: nat)
    requires t.state != Content && !t.src.escape
    requires p != [] && p[0] != '%' && k <= 1
    requires t.src.queue == p[..k] && t.src.input == p[k..]
    ensures Run(t) == Emit([Some(p[0])], Run(t.(src := Src([], p[1..], false, t.src.count + 1 - k))))
  {
    ScriptChar(t, p, k);
    RunGot(t);
  }

  /** A `%` not followed by `>` comes out as it is, its look-ahead pushed back. */
  lemma {:induction false} RunPercentNotClose(t: TemplateReader, p: seq<char>, k: nat)
    requires t.state != Content && !t.src.escape && k <= 1
    requires |p| >= 2 && p[0] == '%' && p[1] != '>'
    requires t.src.queue == p[..k] && t.src.input == p[k..]
    ensures Run(t) == Emit([Some('%')], Run(t.(src := Src([p[1]], p[2..], false, t.src.count + 2 - k))))
  {
    PercentNotClose(t, p, k);
    RunGot(t);
  }

  /** No `%>` in `s`: a tag body inside which the tag does not close. */
  predicate NoCloseTag(s: seq<char>) {
    |s| < 2 || (!(s[0] == '%' && s[1] == '>') && NoCloseTag(s[1..]))
  }

  /** How many characters after script text `text` are left pushed back when it has come
      out, `k` of its own having been pushed back before: one when it ends in `%`, whose
      look-ahead is then waiting in the queue. */
  function Carry(text: seq<char>, k: nat): nat {
    if text == [] then k else if text[|text| - 1] == '%' then 1 else 0
  }

  /** The transpiler once script text `text` has come out of `t`: `rest` is pending, and the
      count has grown by every character drawn from the markup. */
  function AfterScript(t: TemplateReader, text: seq<char>, rest: seq<char>, k: nat): TemplateReader
    requires k <= 1 && Carry(text, k) <= |rest|
  {
    var c := Carry(text, k);
    t.(src := Src(rest[..c], rest[c..], false, t.src.count + |text| + c - k))
  }

  /** Script text without `%>` comes out unchanged, `%` included. When the text ends in `%`,
      the character after it (which is not `>`) has been drawn as a look-ahead and is left
      pushed back; otherwise the queue is empty afterwards. */
  lemma {:induction false} ScriptText(t: TemplateReader, text: seq<char>, rest: seq<char>, k: nat)
    requires t.state != Content && !t.src.escape && k <= 1 && k <= |text + rest|
    requires t.src.queue == (text + rest)[..k] && t.src.input == (text + rest)[k..]
    requires NoCloseTag(text)
    requires text != [] && text[|text| - 1] == '%' ==> rest != [] && rest[0] != '>'
    ensures Carry(text, k) <= |rest|
    ensures Run(t) == Emit(Lift(text), Run(AfterScript(t, text, rest, k)))
    decreases |text|, 2
  {
    if text == [] {
      assert text + rest == rest;
      assert AfterScript(t, text, rest, k) == t;
    } else if text[0] != '%' {
      ScriptTextChar(t, text, rest, k);
    } else {
      ScriptTextPercent(t, text, rest, k);
    }
  }

  /** The step of `ScriptText` for a first character other than `%`. */
  lemma {:induction false} ScriptTextChar(t: TemplateReader, text: seq<char>, rest: seq<char>, k: nat)
    requires t.state != Content && !t.src.escape && k <= 1 && k <= |text + rest|
    requires t.src.queue == (text + rest)[..k] && t.src.input == (text + rest)[k..]
    requires NoCloseTag(text)
    requires text != [] && text[|text| - 1] == '%' ==> rest != [] && rest[0] != '>'
    requires text != [] && text[0] != '%'
    ensures Carry(text, k) <= |rest|
    ensures Run(t) == Emit(Lift(text), Run(AfterScript(t, text, rest, k)))
    decreases |text|, 1
  {
    var p := text + rest;
    var t1 := t.(src := Src([], p[1..], false, t.src.count + 1 - k));
    RunScriptChar(t, p, k);
    ScriptTextAfterChar(t, text, rest, k);
    EmitFirst(Run(t), Run(t1), Run(AfterScript(t, text, rest, k)), text[0], text[1..]);
    assert [text[0]] + text[1..] == text;
  }

  /** The rest of the step of `ScriptText` after a first character other than `%`: the queue
      is empty and the text after that character comes out. */
  lemma {:induction false} ScriptTextAfterChar(t: TemplateReader, text: seq<char>, rest: seq<char>, k: nat)
    requires t.state != Content && !t.src.escape && k <= 1
    requires NoCloseTag(text)
    requires text != [] && text[|text| - 1] == '%' ==> rest != [] && rest[0] != '>'
    requires text != [] && text[0] != '%'
    ensures Carry(text, k) <= |rest|
    ensures Run(t.(src := Src([], (text + rest)[1..], false, t.src.count + 1 - k)))
         == Emit(Lift(text[1..]), Run(AfterScript(t, text, rest, k)))
    decreases |text|, 0
  {
    var p := text + rest;
    var t1 := t.(src := Src([], p[1..], false, t.src.count + 1 - k));
    assert p[1..] == text[1..] + rest;
    assert NoCloseTag(text[1..]);
    assert text[1..] != [] ==> text[1..][|text[1..]| - 1] == text[|text| - 1];
    ScriptText(t1, text[1..], rest, 0);
    assert Carry(text[1..], 0) == Carry(text, k);
    assert AfterScript(t1, text[1..], rest, 0) == AfterScript(t, text, rest, k);
  }

  /** The step of `ScriptText` for a first character `%`, whose look-ahead is not `>`. */
  lemma {:induction false} ScriptTextPercent(t: TemplateReader, text: seq<char>, rest: seq<char>, k: nat)
    requires t.state != Content && !t.src.escape && k <= 1 && k <= |text + rest|
    requires t.src.queue == (text + rest)[..k] && t.src.input == (text + rest)[k..]
    requires NoCloseTag(text)
    requires text != [] && text[|text| - 1] == '%' ==> rest != [] && rest[0] != '>'
    requires text != [] && text[0] == '%'
    ensures Carry(text, k) <= |rest|
    ensures Run(t) == Emit(Lift(text), Run(AfterScript(t, text, rest, k)))
    decreases |text|, 1
  {
    var p := text + rest;
    PercentLookAhead(text, rest);
    var t1 := t.(src := Src([p[1]], p[2..], false, t.src.count + 2 - k));
    RunPercentNotClose(t, p, k);
    ScriptTextAfterPercent(t, text, rest, k);
    EmitFirst(Run(t), Run(t1), Run(AfterScript(t, text, rest, k)), '%', text[1..]);
    assert ['%'] + text[1..] == text;
  }

  /** The character after a leading `%` of script text is not `>`. */
  lemma {:induction false} PercentLookAhead(text: seq<char>, rest: seq<char>)
    requires NoCloseTag(text)
    requires text != [] && text[|text| - 1] == '%' ==> rest != [] && rest[0] != '>'
    requires text != [] && text[0] == '%'
    ensures |text + rest| >= 2 && (text + rest)[0] == '%' && (text + rest)[1] != '>'
  {
    if |text| >= 2 {
      assert (text + rest)[1] == text[1];
    } else {
      assert (text + rest)[1] == rest[0];
    }
  }

  /** The rest of the step of `ScriptText` after a leading `%`: its look-ahead waits in the
      queue and the text after the `%` comes out. */
  lemma {:induction false} ScriptTextAfterPercent(t: TemplateReader, text: seq<char>, rest: seq<char>, k: nat)
    requires t.state != Content && !t.src.escape && k <= 1
    requires NoCloseTag(text)
    requires text != [] && text[|text| - 1] == '%' ==> rest != [] && rest[0] != '>'
    requires text != [] && text[0] == '%' && |text + rest| >= 2
    ensures Carry(text, k) <= |rest|
    ensures Run(t.(src := Src([(text + rest)[1]], (text + rest)[2..], false, t.src.count + 2 - k)))
         == Emit(Lift(text[1..]), Run(AfterScript(t, text, rest, k)))
    decreases |text|, 0
  {
    var p := text + rest;
    var t1 := t.(src := Src([p[1]], p[2..], false, t.src.count + 2 - k));
    assert p[1..] == text[1..] + rest;
    assert (text[1..] + rest)[..1] == [p[1]] && (text[1..] + rest)[1..] == p[2..];
    assert NoCloseTag(text[1..]);
    assert text[1..] != [] ==> text[1..][|text[1..]| - 1] == text[|text| - 1];
    ScriptText(t1, text[1..], rest, 1);
    assert Carry(text[1..], 1) == Carry(text, k);
    assert AfterScript(t1, text[1..], rest, 1) == AfterScript(t, text, rest, k);
  }

  /** At the end of the input in literal text the literal is closed, once, and every later
      call answers end of stream. The count is below the limit whenever the queue is empty
      in literal text, since a split is queued as soon as it reaches the limit; were it not,
      a continuation would follow the closing. */
  lemma {:induction false} TailAtEnd(t: TemplateReader)
    requires t.state == Content && t.src.queue == [] && t.src.input == [] && !t.hasPrintTail
    ensures t.src.count < PrintCharNumLimit ==> Run(t) == Trace(Lift(PrintStringTail), false)
    ensures t.src.count >= PrintCharNumLimit ==>
              Run(t) == Trace(Lift(PrintStringTail + LineContinuation), false)
  {
    var split := t.src.count >= PrintCharNumLimit;
    var mark := if split then LineContinuation else [];
    FillTailSpec(t.(src := Read(t.src).src));
    var t1 := TemplateReader(Src(PrintStringTail[1..], [], false, t.src.count), Content, true);
    assert ReadOneChar(t) == Got(Some(PrintStringTail[0]), t1);
    RunGot(t);
    DrainContent(t1);
    var t2 := TemplateReader(Src([], [], split, if split then 0 else t.src.count), Content, true);
    assert t1.(src := Src([], [], false || split, if split then 0 else t1.src.count)) == t2;
    assert Exhausted(t2);
    assert (if split then PrintStringTail[1..] + LineContinuation else PrintStringTail[1..])
           == PrintStringTail[1..] + mark;
    EmitFirst(Run(t), Run(t1), Run(t2), PrintStringTail[0], PrintStringTail[1..] + mark);
    Uncons(PrintStringTail, mark);
    AppendNil(PrintStringTail);
    AppendNil(Lift(PrintStringTail + mark));
  }

  /** At the end of the input inside a tag the call fails. */
  lemma {:induction false} UnterminatedAtEnd(t: TemplateReader)
    requires t.state != Content && t.src.queue == [] && t.src.input == [] && !t.hasPrintTail
    ensures Run(t) == Trace([], true)
  {
    RunStep(t);
    FillTailSpec(t);
  }

  /** `<` and a look-ahead that is neither `%` nor `<` come out in place, the look-ahead
      followed by a line continuation when the two bring the count to the limit. A look-ahead
      that escaping rewrites is pushed back behind the second half of its own escape pair, so
      its two halves come out swapped. */
  lemma {:induction false} RunAngleNotTag(t: TemplateReader, x: char, rest: seq<char>)
    requires t.state == Content && t.src.queue == [] && t.src.escape
    requires t.src.input == ['<', x] + rest && x != '%' && x != '<'
    ensures var e := Escape(x);
            var split := t.src.count + 2 >= PrintCharNumLimit;
            Run(t) == Emit(Lift(['<'] + e[1..] + e[..1] + (if split then LineContinuation else [])),
                           Run(t.(src := Src([], rest, true, if split then 0 else t.src.count + 2))))
  {
    var e := Escape(x);
    var split := t.src.count + 2 >= PrintCharNumLimit;
    var mark := if split then LineContinuation else [];
    var q := e[1..] + e[..1];
    AngleNotTag(t, x, rest);
    RunGot(t);
    var t1 := t.(src := Src(q, rest, true, t.src.count + 2));
    assert ReadOneChar(t).next == t1;
    assert '<' !in q && q != [];
    DrainContent(t1);
    var t2 := t.(src := Src([], rest, true, if split then 0 else t.src.count + 2));
    assert t1.(src := Src([], rest, true || split, if split then 0 else t1.src.count)) == t2;
    assert (if split then q + LineContinuation else q) == q + mark;
    EmitFirst(Run(t), Run(t1), Run(t2), '<', q + mark);
    assert ['<'] + (q + mark) == ['<'] + e[1..] + e[..1] + mark;
  }

  /** `<%=` closes the literal and opens `print(`; the expression follows unescaped. */
  lemma {:induction false} RunOpenPrintTag(t: TemplateReader, rest: seq<char>)
    requires t.state == Content && t.src.queue == [] && t.src.escape
    requires t.src.input == "<%=" + rest
    ensures Run(t) == Emit(Lift(PrintStringTail + PrintExpressionHead),
                           Run(TemplateReader(Src([], rest, false, t.src.count + 3), PrintScript, t.hasPrintTail)))
  {
    OpenPrintTag(t, rest);
    RunGot(t);
    var q := PrintStringTail[1..] + PrintExpressionHead;
    var t1 := TemplateReader(Src(q, rest, false, t.src.count + 3), PrintScript, t.hasPrintTail);
    assert '%' !in q;
    AppendNil(q);
    DrainScript(t1, q, []);
    var t2 := TemplateReader(Src([], rest, false, t.src.count + 3), PrintScript, t.hasPrintTail);
    assert t1.(src := t1.src.(queue := [])) == t2;
    EmitFirst(Run(t), Run(t1), Run(t2), PrintStringTail[0], q);
    Uncons(PrintStringTail, PrintExpressionHead);
  }

  /** `<%c` closes the literal and enters a statement. The statement's first character is
      `c` as literal text delivers it: for a character escaping leaves alone, `c` itself,
      which is left pushed back; for one it rewrites, the second half of the escape pair
      comes out before the literal's closing and the backslash is left pushed back. */
  lemma {:induction false} RunOpenStatementTag(t: TemplateReader, c: char, rest: seq<char>)
    requires t.state == Content && t.src.queue == [] && t.src.escape
    requires t.src.input == ['<', '%', c] + rest && c != '='
    ensures var e := Escape(c);
            Run(t) == Emit(Lift(e[1..] + PrintStringTail),
                           Run(TemplateReader(Src(e[..1], rest, false, t.src.count + 3), InvokeScript, t.hasPrintTail)))
  {
    var e := Escape(c);
    var y := e[1..] + PrintStringTail;
    OpenStatementTag(t, c, rest);
    RunGot(t);
    assert (y + e[..1])[0] == y[0] && (y + e[..1])[1..] == y[1..] + e[..1];
    var t1 := TemplateReader(Src(y[1..] + e[..1], rest, false, t.src.count + 3), InvokeScript, t.hasPrintTail);
    assert ReadOneChar(t) == Got(Some(y[0]), t1);
    assert '%' !in y[1..];
    DrainScript(t1, y[1..], e[..1]);
    var t2 := TemplateReader(Src(e[..1], rest, false, t.src.count + 3), InvokeScript, t.hasPrintTail);
    assert t1.(src := t1.src.(queue := e[..1])) == t2;
    EmitFirst(Run(t), Run(t1), Run(t2), y[0], y[1..]);
    assert [y[0]] + y[1..] == y;
  }

  /** `%>` closes an expression's print statement if any and opens a new literal, continued
      on a new line when the count has reached the limit. */
  lemma {:induction false} RunCloseTag(t: TemplateReader, rest: seq<char>, k: nat)
    requires t.state != Content && !t.src.escape && k <= 1
    requires t.src.queue == ("%>" + rest)[..k] && t.src.input == ("%>" + rest)[k..]
    ensures var n := t.src.count + 2 - k;
            var split := n >= PrintCharNumLimit;
            var y := (if t.state == PrintScript then PrintExpressionTail else []) + PrintStringHead;
            Run(t) == Emit(Lift(y + (if split then LineContinuation else [])),
                           Run(TemplateReader(Src([], rest, true, if split then 0 else n), Content, t.hasPrintTail)))
  {
    var n := t.src.count + 2 - k;
    var split := n >= PrintCharNumLimit;
    var mark := if split then LineContinuation else [];
    var y := (if t.state == PrintScript then PrintExpressionTail else []) + PrintStringHead;
    var t1 := TemplateReader(Src(y[1..], rest, true, n), Content, t.hasPrintTail);
    RunCloseTagStep(t, rest, k);
    assert '<' !in y[1..] && y[1..] != [];
    DrainContent(t1);
    var t2 := TemplateReader(Src([], rest, true, if split then 0 else n), Content, t.hasPrintTail);
    assert t1.(src := Src([], rest, true, if split then 0 else t1.src.count)) == t2;
    assert (if split then y[1..] + LineContinuation else y[1..]) == y[1..] + mark;
    assert Run(t1) == Emit(Lift(y[1..] + mark), Run(t2));
    EmitFirst(Run(t), Run(t1), Run(t2), y[0], y[1..] + mark);
    Uncons(y, mark);
  }

  lemma {:induction false} RunCloseTagStep(t: TemplateReader, rest: seq<char>, k: nat)
    requires t.state != Content && !t.src.escape && k <= 1
    requires t.src.queue == ("%>" + rest)[..k] && t.src.input == ("%>" + rest)[k..]
    ensures var y := (if t.state == PrintScript then PrintExpressionTail else []) + PrintStringHead;
            Run(t) == Emit([Some(y[0])], Run(TemplateReader(Src(y[1..], rest, true, t.src.count + 2 - k),
                                                            Content, t.hasPrintTail)))
  {
    CloseTag(t, rest, k);
    RunGot(t);
  }

  /** A trailing `<` is lost and answered by end of stream, after which a line
      continuation comes out when that `<` brought the count to the limit. */
  lemma {:induction false} RunAngleAtEnd(t: TemplateReader)
    requires t.state == Content && t.src.queue == [] && t.src.input == ['<'] && t.src.escape
    ensures var split := t.src.count + 1 >= PrintCharNumLimit;
            Run(t) == Emit([None] + Lift(if split then LineContinuation else []),
                           Run(t.(src := Src([], [], true, if split then 0 else t.src.count + 1))))
  {
    AngleAtEnd(t);
    RunGot(t);
    if t.src.count + 1 >= PrintCharNumLimit {
      var t1 := t.(src := Src(LineContinuation, [], true, 0));
      assert '<' !in LineContinuation;
      DrainContent(t1);
      var t2 := t.(src := Src([], [], true, 0));
      assert t1.(src := Src([], [], true, 0)) == t2;
      EmitEmit([None], Lift(LineContinuation), Run(t2));
    } else {
      assert [None] + Lift([]) == [None];
    }
  }

  /** A trailing `<%` comes out as `<` and the character U+FFFF, and then a line
      continuation when the two brought the count to the limit. */
  lemma {:induction false} RunOpenTagAtEnd(t: TemplateReader)
    requires t.state == Content && t.src.queue == [] && t.src.input == "<%" && t.src.escape
    ensures var split := t.src.count + 2 >= PrintCharNumLimit;
            Run(t) == Emit(Lift(['<', EofAsChar] + (if split then LineContinuation else [])),
                           Run(t.(src := Src([], [], true, if split then 0 else t.src.count + 2))))
  {
    var split := t.src.count + 2 >= PrintCharNumLimit;
    OpenTagAtEnd(t);
    RunGot(t);
    var t1 := t.(src := Src([EofAsChar], [], true, t.src.count + 2));
    DrainContent(t1);
    var t2 := t.(src := Src([], [], true, if split then 0 else t.src.count + 2));
    assert t1.(src := Src([], [], true, if split then 0 else t1.src.count)) == t2;
    var m := if split then [EofAsChar] + LineContinuation else [EofAsChar];
    EmitEmit([Some('<')], Lift(m), Run(t2));
    LiftCons('<', m);
    assert ['<'] + m == ['<', EofAsChar] + (if split then LineContinuation else []);
  }

  /** A trailing `%` in a tag is answered by end of stream, and then the run fails. */
  lemma {:induction false} RunPercentAtEnd(t: TemplateReader, k: nat)
    requires t.state != Content && k <= 1 && !t.hasPrintTail
    requires t.src.queue == "%"[..k] && t.src.input == "%"[k..]
    ensures Run(t) == Trace([None], true)
  {
    PercentAtEnd(t, k);
    RunGot(t);
    UnterminatedAtEnd(t.(src := Src([], [], t.src.escape, t.src.count + 1 - k)));
  }

  /** The answers for script text that runs to the end of the input: the text itself, except
      that a trailing `%` is answered as end of stream instead. */
  function Unclosed(text: seq<char>): seq<Option<char>> {
    if text != [] && text[|text| - 1] == '%' then Lift(text[..|text| - 1]) + [None] else Lift(text)
  }

  /** A tag whose body runs to the end of the input fails after the body; a final `%` of the
      body gives an end-of-stream answer instead of coming out. */
  lemma {:induction false} ScriptToEnd(t: TemplateReader, text: seq<char>, k: nat)
    requires t.state != Content && !t.src.escape && !t.hasPrintTail && k <= 1 && k <= |text|
    requires t.src.queue == text[..k] && t.src.input == text[k..]
    requires NoCloseTag(text)
    ensures Run(t) == Trace(Unclosed(text), true)
  {
    if text != [] && text[|text| - 1] == '%' {
      var body := text[..|text| - 1];
      assert body + "%" == text;
      NoCloseTagPrefix(body, "%");
      assert body != [] && body[|body| - 1] == '%' ==> "%" != [] && "%"[0] != '>';
      ScriptText(t, body, "%", k);
      RunPercentAtEnd(AfterScript(t, body, "%", k), Carry(body, k));
    } else {
      assert text + [] == text;
      ScriptText(t, text, [], k);
      UnterminatedAtEnd(AfterScript(t, text, [], k));
      AppendNil(Lift(text));
    }
  }

  /** A prefix of a text without `%>` has none either. */
  lemma {:induction false} NoCloseTagPrefix(a: seq<char>, b: seq<char>)
    requires NoCloseTag(a + b)
    ensures NoCloseTag(a)
    decreases |a|
  {
    if |a| >= 2 {
      assert (a + b)[1..] == a[1..] + b;
      assert (a + b)[0] == a[0] && (a + b)[1] == a[1];
      NoCloseTagPrefix(a[1..], b);
    }
  }

  /** A `%` appended to a text without `%>` does not make one. */
  lemma {:induction false} NoCloseTagPercent(a: seq<char>)
    requires NoCloseTag(a)
    ensures NoCloseTag(a + "%")
    decreases |a|
  {
    if a != [] {
      assert (a + "%")[1..] == a[1..] + "%";
      assert NoCloseTag(a[1..]);
      NoCloseTagPercent(a[1..]);
    }
  }

  /** The body as the statement sees it: its first character as literal text delivers it
      first. For a character escaping rewrites that is a backslash, which opens no `%>`. */
  lemma {:induction false} NoCloseTagOpening(b: seq<char>)
    requires b != [] && NoCloseTag(b)
    ensures NoCloseTag(Escape(b[0])[..1] + b[1..])
  {
    var e := Escape(b[0]);
    if !NeedsEscape(b[0]) {
      assert e[..1] + b[1..] == b;
    } else {
      assert NoCloseTag(b[1..]);
      assert (e[..1] + b[1..])[1..] == b[1..];
    }
  }

  // ---------------------------------------------------------------------------
  // Whole inputs.

  /** The output of every input opens with `print('`, and escape mode is on before the first
      markup character is read. */
  lemma {:induction false} FirstOutputIsHead(input: seq<char>)
    ensures Transpile(input) ==
              Emit(Lift(PrintStringHead), Run(TemplateReader(Src([], input, true, 0), Content, false)))
  {
    var t := New(input);
    assert t == TemplateReader(Src(PrintStringHead, input, true, 0), Content, false);
    assert '<' !in PrintStringHead;
    DrainContent(t);
    assert t.(src := Src([], input, true, 0)) == TemplateReader(Src([], input, true, 0), Content, false);
  }

}
