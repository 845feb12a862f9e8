# Calico template transpiler, modelled in Dafny

Calico renders pages from HTML templates that embed script in `<% … %>`
(statement) and `<%= … %>` (expression) tags. The class `HtmlTemplateReader`
turns such a template into script source, one character per call of
`readOneChar`:

- every literal run becomes `print('…');` followed by a newline;
- a statement body is passed through as it is;
- an expression body becomes `print(…);` followed by a newline.

It is a pull-based state machine with three lexical states (`Content`,
`InvokeScript`, `PrintScript`) and a one-shot flag that records whether the
closing `');` of the last literal has been emitted. A literal is continued on a
new line (a backslash and a newline) after every 500 characters drawn from the
markup, because the script engine ignores overlong lines.

The machine reads through a collaborator, `StringEscapeReader`. Its source is
not part of this model, so it is modelled from the way the transpiler uses it:

- a FIFO queue of injected text (`fillContent`, `fillChar`) delivered before
  further markup;
- an escape mode that rewrites `'`, `\` and newline from the markup into
  two-character forms, delivered over two pulls;
- a count of the characters drawn from the markup, with a reset.

Files:

- `escape_reader.dfy` (module `StringEscapeReader`) is the collaborator:
  - `Src` and its operations `Read`, `Fill`, `FillChar`, `SetEscapeFlag`,
    `ResetRealReadCharCount`;
  - `Pending`, everything a source will still deliver;
  - the escaping `Escape`/`EscapeAll` with its inverse `Unescape`.
- `template_reader.dfy` (module `HtmlTemplateReader`) is the transpiler:
  - the constants, `New`, `ReadOneChar` and one function per Java method;
  - a lemma after each function stating what one call achieves;
  - `Run`, the whole sequence of answers of successive calls until every
    further call answers end of stream;
  - a termination measure showing that every call except the final
    end-of-stream answer makes progress.
- `literal_split.dfy` (module `LiteralSplit`) is an independent reference
  definition of how a literal is escaped and split (`Split`), with its inverse
  `Unsplit`.
- `template_properties.dfy` (module `TemplateProperties`) holds two kinds of
  lemma:
  - one-call lemmas for every branch of the state machine;
  - run lemmas that compose them over literal text, script text and each tag.
- `template_shape.dfy` (module `TemplateShape`) describes a template as a list
  of pieces (literal text, a `<` that opens no tag, an expression tag, a
  statement tag). It gives the output of each piece independently of the state
  machine, proves that the transpiler produces exactly the concatenation of
  those outputs (`TranspileTemplate`), and covers markup that ends inside a
  piece.
- `seq_facts.dfy` (module `SeqFacts`) holds the sequence regrouping equations
  the proofs share.

Decisions and assumptions:

- **End of stream pushed back as a character.** The Java code pushes back
  `(char) -1` when the markup ends right after `<%`. That value is the character
  U+FFFF (`EofAsChar`). So a template ending in `<%` is *not* reported as an
  unterminated tag: `<` and U+FFFF come out inside the literal
  (`OpenTagAtEndOfInput`). One might expect an unterminated-tag error here; the
  code raises none (lines 72 and 75-77).
- **Order of an escape pair.** When a markup character is escaped, the second
  character of its pair is queued at the moment of the pull, while the queue is
  empty. As a consequence, when the transpiler pushes back an escaped
  look-ahead after `<` (or after `<%`), the pushed-back first half lands behind
  the second half. `AngleNotTag` and `OpenStatementTag` state this exactly.
- **First character of a statement.** The character after `<%` is read while
  escape mode is still on: line 72 reads it before line 97 turns escaping off.
  For a character that escaping rewrites, only the backslash is pushed back
  (line 104). The second half of the pair is already queued, so it comes out
  before `');`. For example, `<%` followed by a line break yields `n');`, a
  newline, a backslash and then the rest of the statement
  (`NewlineStatementTag`). This follows from the assumed collaborator's order
  of an escape pair.
- **Escape spellings.** Escaping is assumed to yield `\'`, `\\` and `\n`.
  Nothing else about the collaborator depends on these spellings.
- **What the count counts.** The count counts every character drawn from the
  markup, in escape mode or not.
- **Intermediate end-of-stream answers.** A run records each answer as
  `Option<char>`, `None` being an end-of-stream answer. Several quirks produce
  an end-of-stream answer before the real end.

## Model

| member | source | states |
|---|---|---|
| `StringEscapeReader.Escape` | src/com/taozeyu/calico/generator/HtmlTemplateReader.java:27-29 | the three characters that may not appear raw in a single-quoted string become two characters starting with a backslash; every other character is kept; no raw newline is produced |
| `StringEscapeReader.EscapeAll` | src/com/taozeyu/calico/generator/HtmlTemplateReader.java:27-29 | escaping at most doubles a text and never leaves a raw newline in it |
| `StringEscapeReader.UnescapeEscapeAll` | src/com/taozeyu/calico/generator/HtmlTemplateReader.java:27-29 | escaping loses nothing: reading the escaped text back gives the original |
| `StringEscapeReader.EscapeAllUnescape` | src/com/taozeyu/calico/generator/HtmlTemplateReader.java:27-29 | every text that reads back is the escaped form of what it reads back to, so escaping and reading back are inverse |
| `StringEscapeReader.EscapeAllIdentity` | src/com/taozeyu/calico/generator/HtmlTemplateReader.java:27-29 | escaping leaves a text unchanged if and only if it holds none of the three characters |
| `StringEscapeReader.ReadDelivers` | src/com/taozeyu/calico/generator/HtmlTemplateReader.java:34 | a pull answers end of stream exactly when nothing is pending; otherwise it returns the first pending character and leaves exactly the rest pending; the queue is drained before the markup, and only markup characters are counted |
| `StringEscapeReader.FillDelivers` | src/com/taozeyu/calico/generator/HtmlTemplateReader.java:96-106 | injected text comes out after what is already queued and before any further markup, so `');` then `print(` keep their order; the markup, mode and count are untouched |
| `HtmlTemplateReader.New` | src/com/taozeyu/calico/generator/HtmlTemplateReader.java:26-30 | a new transpiler is in literal state with escape mode on and the tail not yet emitted; it will deliver `print('` followed by the escaped markup |
| `HtmlTemplateReader.FillTailSpec` | src/com/taozeyu/calico/generator/HtmlTemplateReader.java:55-67 | at the end of the input: once the tail is emitted the call answers end of stream and changes nothing; inside a tag the call fails; in literal text it returns `'` and leaves the rest of `');` pending unescaped, with the tail flag set |
| `HtmlTemplateReader.CreateNewPrintLineSpec` | src/com/taozeyu/calico/generator/HtmlTemplateReader.java:89-94 | the line continuation comes out after what is already queued and before the rest of the markup, which stays escaped; the count restarts at zero |
| `HtmlTemplateReader.SplitIfOverLimitSpec` | src/com/taozeyu/calico/generator/HtmlTemplateReader.java:79-87 | the character is returned unchanged; when 500 or more markup characters were drawn a continuation is queued and the count reset, otherwise nothing changes |
| `HtmlTemplateReader.HandleCharWhenIsContentSpec` | src/com/taozeyu/calico/generator/HtmlTemplateReader.java:69-83 | a call in literal text always answers, keeps escape mode in step with the state and makes progress; a character other than `<` is returned unchanged and the state stays literal |
| `HtmlTemplateReader.HandleAngleSpec` | src/com/taozeyu/calico/generator/HtmlTemplateReader.java:71-78 | the `<` branch answers, keeps escape mode in step with the state and makes progress for every look-ahead, including end of stream |
| `HtmlTemplateReader.HandleOpenTagSpec` | src/com/taozeyu/calico/generator/HtmlTemplateReader.java:72-77 | after `<%` the call answers, keeps escape mode in step with the state and makes progress, whether a tag opens or the input ends |
| `HtmlTemplateReader.GotoScriptStateSpec` | src/com/taozeyu/calico/generator/HtmlTemplateReader.java:96-108 | entering a tag closes the literal: `');` comes out, then `print(` for `=` or the pushed-back character otherwise, then the raw markup; escape mode is off and the state is the print or statement state accordingly |
| `HtmlTemplateReader.HandleCharWhenIsScriptSpec` | src/com/taozeyu/calico/generator/HtmlTemplateReader.java:110-127 | a call in a tag always answers, keeps escape mode in step with the state and makes progress; a character other than `%` is returned unchanged with nothing else changed |
| `HtmlTemplateReader.CloseScriptTagSpec` | src/com/taozeyu/calico/generator/HtmlTemplateReader.java:112-119 | `%>` emits `);` only in an expression tag, then `print('`, then the rest of the markup escaped; the state is literal text again with escape mode on |
| `HtmlTemplateReader.ReadOneCharProgress` | src/com/taozeyu/calico/generator/HtmlTemplateReader.java:32-53 | once everything is delivered every call answers end of stream and changes nothing; every other answered call lowers the measure, so the call sequence is finite |
| `HtmlTemplateReader.ReadOneCharSpec` | src/com/taozeyu/calico/generator/HtmlTemplateReader.java:32-53 | a call keeps escape mode in step with the state; it fails if and only if the input is exhausted inside a tag before the tail; the tail flag is set only at the end of literal text and is never cleared |
| `HtmlTemplateReader.TailEmittedOnce` | src/com/taozeyu/calico/generator/HtmlTemplateReader.java:55-67 | in a run that does not fail, the tail is emitted by exactly one call, and by none when it was already emitted |
| `LiteralSplit.UnsplitSplit` | src/com/taozeyu/calico/generator/HtmlTemplateReader.java:89-94 | splitting only inserts line continuations: removing them gives back exactly the escaped text |
| `LiteralSplit.SplitShort` | src/com/taozeyu/calico/generator/HtmlTemplateReader.java:79-80 | while the count stays below 500 no continuation is inserted |
| `LiteralSplit.SplitAtLimit` | src/com/taozeyu/calico/generator/HtmlTemplateReader.java:79-80 | the first continuation comes right after the character that brings the count to 500, and the count then restarts from zero |
| `LiteralSplit.SplitBoundary` | src/com/taozeyu/calico/generator/HtmlTemplateReader.java:85-87 | from a fresh count, a literal shorter than 500 characters is not split, and a longer one is split after its 500th character |
| `TemplateProperties.QueuedContentChar` | src/com/taozeyu/calico/generator/HtmlTemplateReader.java:79-82 | a queued character in literal text is returned as it is; the limit check also fires for it, although it was not drawn from the markup |
| `TemplateProperties.ContentChar` | src/com/taozeyu/calico/generator/HtmlTemplateReader.java:69-83 | a markup character other than `<` comes out escaped, followed by a continuation when it is the 500th since the last split |
| `TemplateProperties.AngleNotTag` | src/com/taozeyu/calico/generator/HtmlTemplateReader.java:75-78 | `<` not followed by `%` is returned as `<` and the look-ahead is pushed back; an escaped look-ahead lands behind the second half of its own pair |
| `TemplateProperties.AngleNotTagLossless` | src/com/taozeyu/calico/generator/HtmlTemplateReader.java:75-78 | for a look-ahead that escaping leaves alone, `<` followed by what is still pending is exactly what was pending before: nothing dropped or repeated |
| `TemplateProperties.OpenPrintTag` | src/com/taozeyu/calico/generator/HtmlTemplateReader.java:96-108 | `<%=` switches to the print state, consumes the `=`, turns escape mode off and emits `');` then `print(` |
| `TemplateProperties.OpenStatementTag` | src/com/taozeyu/calico/generator/HtmlTemplateReader.java:96-108 | `<%c` with `c` not `=` switches to the statement state and turns escape mode off; what comes next is the second half of `c`'s escape pair if any, then `');`, then the first half of `c` pushed back, so a statement whose first character escaping leaves alone starts with that character |
| `TemplateProperties.QueuedScriptChar` | src/com/taozeyu/calico/generator/HtmlTemplateReader.java:110-127 | a queued character in a tag other than `%` is returned as it is |
| `TemplateProperties.ScriptChar` | src/com/taozeyu/calico/generator/HtmlTemplateReader.java:110-127 | a character in a tag other than `%`, whether pushed back or drawn from the markup, is returned unchanged and unescaped; only a drawn one is counted |
| `TemplateProperties.PercentNotClose` | src/com/taozeyu/calico/generator/HtmlTemplateReader.java:121-124 | `%` not followed by `>` is returned as `%` and the look-ahead is pushed back, whether the `%` itself was pushed back or drawn from the markup |
| `TemplateProperties.PercentNotCloseLossless` | src/com/taozeyu/calico/generator/HtmlTemplateReader.java:121-124 | nothing is dropped or repeated: `%` followed by what is still pending is exactly what was pending before |
| `TemplateProperties.CloseTag` | src/com/taozeyu/calico/generator/HtmlTemplateReader.java:112-119 | `%>`, its `%` pushed back or not, emits `);` only in an expression tag, then `print('`, turns escape mode on and returns to literal text |
| `TemplateProperties.AngleAtEnd` | src/com/taozeyu/calico/generator/HtmlTemplateReader.java:71-82 | a `<` that ends the input is lost: the call answers end of stream without emitting the tail |
| `TemplateProperties.OpenTagAtEnd` | src/com/taozeyu/calico/generator/HtmlTemplateReader.java:72-77 | `<%` that ends the input returns `<` and pushes back U+FFFF; no error is raised |
| `TemplateProperties.PercentAtEnd` | src/com/taozeyu/calico/generator/HtmlTemplateReader.java:110-127 | a `%` that ends the input inside a tag, pushed back or not, answers end of stream; only the next call fails |
| `TemplateProperties.DrainContent` | src/com/taozeyu/calico/generator/HtmlTemplateReader.java:79-82 | queued text in literal state comes out as it is, followed by one continuation when the count had already reached the limit |
| `TemplateProperties.DrainScript` | src/com/taozeyu/calico/generator/HtmlTemplateReader.java:110-127 | queued text without `%` in a tag comes out as it is, before anything else queued behind it |
| `TemplateProperties.RunContentChar` | src/com/taozeyu/calico/generator/HtmlTemplateReader.java:69-83 | over the following calls a markup character other than `<` comes out as its whole escape pair, then the continuation if it reached the limit |
| `TemplateProperties.ContentLiteral` | src/com/taozeyu/calico/generator/HtmlTemplateReader.java:69-94 | literal markup without `<` comes out exactly as the reference `Split` of it, and the count moves on modulo 500 |
| `TemplateProperties.RunScriptChar` | src/com/taozeyu/calico/generator/HtmlTemplateReader.java:110-127 | over the following calls a script character other than `%` comes out unchanged |
| `TemplateProperties.RunPercentNotClose` | src/com/taozeyu/calico/generator/HtmlTemplateReader.java:121-124 | over the following calls a `%` not followed by `>` comes out as `%`, its look-ahead left pushed back |
| `TemplateProperties.ScriptText` | src/com/taozeyu/calico/generator/HtmlTemplateReader.java:110-127 | script text without `%>` comes out unchanged, each `%` included; when it ends in `%` the character after it is left pushed back, and the count has grown by every character drawn |
| `TemplateProperties.TailAtEnd` | src/com/taozeyu/calico/generator/HtmlTemplateReader.java:55-67 | at the end of literal text the rest of the run is exactly `');` and a newline, emitted once |
| `TemplateProperties.UnterminatedAtEnd` | src/com/taozeyu/calico/generator/HtmlTemplateReader.java:56-59 | at the end of the input inside a tag the run fails at once, without emitting the tail |
| `TemplateProperties.RunAngleNotTag` | src/com/taozeyu/calico/generator/HtmlTemplateReader.java:75-78 | `<` and a look-ahead that is neither `%` nor `<` come out in place, an escaped look-ahead with its two halves swapped, the continuation following the look-ahead when the limit is reached |
| `TemplateProperties.RunOpenPrintTag` | src/com/taozeyu/calico/generator/HtmlTemplateReader.java:96-108 | `<%=` comes out as `');` and `print(`, and the run goes on in the print state on the raw markup |
| `TemplateProperties.RunOpenStatementTag` | src/com/taozeyu/calico/generator/HtmlTemplateReader.java:96-108 | `<%c` with `c` not `=` comes out as the second half of `c`'s escape pair if any, then `');`; the statement goes on with the first half of `c` pushed back |
| `TemplateProperties.RunCloseTag` | src/com/taozeyu/calico/generator/HtmlTemplateReader.java:112-119 | `%>`, its `%` pushed back or not, comes out as `);` (expression tags only) and `print('`, plus a continuation when the limit is reached; the run goes on in literal text |
| `TemplateProperties.RunAngleAtEnd` | src/com/taozeyu/calico/generator/HtmlTemplateReader.java:71-82 | a trailing `<` yields one end-of-stream answer, then the continuation if that `<` reached the limit, then the rest of the run |
| `TemplateProperties.RunOpenTagAtEnd` | src/com/taozeyu/calico/generator/HtmlTemplateReader.java:72-77 | a trailing `<%` comes out as `<` and U+FFFF inside the literal |
| `TemplateProperties.RunPercentAtEnd` | src/com/taozeyu/calico/generator/HtmlTemplateReader.java:110-127 | a trailing `%` in a tag gives one end-of-stream answer and then the run fails |
| `TemplateProperties.ScriptToEnd` | src/com/taozeyu/calico/generator/HtmlTemplateReader.java:55-59 | a tag body without `%>` that runs to the end of the input comes out unchanged and then the run fails without the tail; a final `%` gives an end-of-stream answer instead of coming out |
| `TemplateProperties.FirstOutputIsHead` | src/com/taozeyu/calico/generator/HtmlTemplateReader.java:26-30 | every output begins with `print('`, and escape mode is on before the first markup character is read |
| `TemplateShape.RunPiece` | src/com/taozeyu/calico/generator/HtmlTemplateReader.java:69-127 | a well-formed piece at the front of the pending markup comes out exactly as its reference output, whatever follows it, and the transpiler is back in literal text with the reference count: an escaped and split literal; `<x` in place; `');`, `print(E);` and `print('` for an expression; the statement text and `print('` for a statement |
| `TemplateShape.RunPieces` | src/com/taozeyu/calico/generator/HtmlTemplateReader.java:69-127 | any list of well-formed pieces comes out as the concatenation of their reference outputs, the count carried from piece to piece |
| `TemplateShape.TranspilePrefix` | src/com/taozeyu/calico/generator/HtmlTemplateReader.java:26-127 | markup that opens with well-formed pieces outputs `print('` and their reference outputs before anything the remainder produces, which starts from literal text with the reference count |
| `TemplateShape.TranspileTemplate` | src/com/taozeyu/calico/generator/HtmlTemplateReader.java:26-127 | every template made of well-formed pieces becomes exactly `print('`, the reference outputs of its pieces and `');`, and the run does not fail |
| `TemplateShape.TagFreeOutput` | src/com/taozeyu/calico/generator/HtmlTemplateReader.java:69-94 | markup without `<` becomes exactly one print statement of its escaped text, split every 500 characters, and the run does not fail |
| `TemplateShape.SingleExpressionTag` | src/com/taozeyu/calico/generator/HtmlTemplateReader.java:96-119 | `<%=E%>`, for any body without `%>`, becomes an empty literal, `print(E);` and another empty literal, continued on a new line when the tag drew 500 characters |
| `TemplateShape.SingleStatementTag` | src/com/taozeyu/calico/generator/HtmlTemplateReader.java:96-119 | `<%B%>`, for any body without `%>` not starting with `=`, becomes an empty literal, the statement text and another empty literal |
| `TemplateShape.PlainStatementTag` | src/com/taozeyu/calico/generator/HtmlTemplateReader.java:96-108 | a statement whose first character escaping leaves alone comes out unchanged between the two literals |
| `TemplateShape.NewlineStatementTag` | src/com/taozeyu/calico/generator/HtmlTemplateReader.java:96-108 | a statement that starts with a line break comes out as `n`, `');`, a backslash and the rest of the statement |
| `TemplateShape.AngleNotTagAfterText` | src/com/taozeyu/calico/generator/HtmlTemplateReader.java:71-78 | after literal text, `<` and a look-ahead that is neither `%` nor `<` stay in place inside the literal, whatever follows; the rest starts from literal text with the count moved on by two |
| `TemplateShape.AngleAtEndOfInput` | src/com/taozeyu/calico/generator/HtmlTemplateReader.java:71-82 | after well-formed pieces, an input ending in `<` loses the `<`, and one end-of-stream answer comes before the literal is closed |
| `TemplateShape.OpenTagAtEndOfInput` | src/com/taozeyu/calico/generator/HtmlTemplateReader.java:72-77 | after well-formed pieces, an input ending in `<%` is not an error; it yields `<` and U+FFFF inside a properly closed literal |
| `TemplateShape.UnterminatedExpressionTag` | src/com/taozeyu/calico/generator/HtmlTemplateReader.java:55-59 | after well-formed pieces, an expression tag that is never closed makes the run fail after the expression text, without the tail; a final `%` gives an end-of-stream answer |
| `TemplateShape.UnterminatedStatementTag` | src/com/taozeyu/calico/generator/HtmlTemplateReader.java:55-59 | after well-formed pieces, a statement tag that is never closed makes the run fail after the statement text, without the tail |
| `TemplateShape.PercentAtEndOfInput` | src/com/taozeyu/calico/generator/HtmlTemplateReader.java:110-127 | after well-formed pieces, an expression tag ending in `%` at the end of the input yields one end-of-stream answer after the body, then the run fails |

## Left out

- Java `Reader` plumbing and I/O failures. The only failure modelled is the
  unterminated tag (`Unterminated`). `close()` (lines 129-132) has no
  counterpart.
- The outer adapter `AllowFillReader`, which turns `readOneChar` into bulk
  reads. It is not part of this model; a run (`Run`) collects the answers of
  successive calls instead.
- The internals of `StringEscapeReader`. Its source is not part of this model.
  Only the behaviour the transpiler relies on is modelled, with the
  assumptions listed above.
- `ResourceManager` (directory listing) and the execution of the generated
  script. Both are outside the transpiler.
- `TemplateProperties.AngleNotTagLossless`: stated only for look-aheads that
  escaping leaves alone. For an escaped look-ahead the assumed collaborator
  reorders the escape pair. `TemplateProperties.AngleNotTag` states what
  happens then.
- `TemplateProperties.RunAngleNotTag`: does not cover a look-ahead `<`. That
  `<` is read again from the queue as the possible start of a tag, and the
  limit check is skipped for it. `TemplateProperties.AngleNotTag` gives the
  exact call.
- `TemplateShape.TranspileTemplate`: covers markup that splits into
  well-formed pieces. Markup containing `<<` is not covered, for the reason
  given for `RunAngleNotTag`. Markup that ends inside a piece is covered by
  `AngleAtEndOfInput`, `OpenTagAtEndOfInput`, `UnterminatedExpressionTag`,
  `UnterminatedStatementTag` and `PercentAtEndOfInput`.
- Characters outside the Basic Multilingual Plane. Java reads UTF-16 code
  units, so such a character takes two reads, counts 2 toward the limit of 500,
  and a line continuation can fall between its two halves. The model reads
  Dafny characters, which exclude surrogate code units, so every input
  character is one read.
