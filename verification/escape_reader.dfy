/**
 The character source the template transpiler pulls from (the Java class
 `StringEscapeReader`). It puts a FIFO queue of injected text in front of the
 markup input, can rewrite the three characters that are not allowed raw in a
 single-quoted script string, and counts the characters it has drawn from the
 markup input since the last reset.
 */
module StringEscapeReader {

  datatype Option<+T> = None | Some(value: T)

  /** The characters that must not appear raw inside a single-quoted script string. */
  predicate NeedsEscape(c: char) {
    c == '\'' || c == '\\' || c == '\n'
  }

  /** The form in which an input character is delivered while escape mode is on. */
  function Escape(c: char): (r: seq<char>)
    ensures 1 <= |r| <= 2
    ensures |r| == 1 <==> !NeedsEscape(c)
    ensures !NeedsEscape(c) ==> r == [c]
    ensures NeedsEscape(c) ==> r[0] == '\\'
    ensures '\n' !in r
  {
    if c == '\'' then ['\\', '\'']
    else if c == '\\' then ['\\', '\\']
    else if c == '\n' then ['\\', 'n']
    else [c]
  }

  /** The escaped form of a whole input text. */
  function EscapeAll(s: seq<char>): (r: seq<char>)
    ensures |s| <= |r| <= 2 * |s|
    ensures '\n' !in r
  {
    if s == [] then [] else Escape(s[0]) + EscapeAll(s[1..])
  }

  /** Reads an escaped text back; None when it holds a raw quote or newline or a bad escape. */
  function Unescape(e: seq<char>): Option<seq<char>>
  {
    if e == [] then Some([])
    else if e[0] == '\\' then
      if |e| < 2 then None
      else
        var c := if e[1] == 'n' then '\n' else e[1];
        if e[1] == '\'' || e[1] == '\\' || e[1] == 'n' then
          match Unescape(e[2..])
          case None => None
          case Some(s) => Some([c] + s)
        else None
    else if NeedsEscape(e[0]) then None
    else
      match Unescape(e[1..])
      case None => None
      case Some(s) => Some([e[0]] + s)
  }

  /** Reading back an escaped character in front of any text. */
  lemma {:induction false} UnescapeEscapeCons(c: char, rest: seq<char>)
    ensures Unescape(Escape(c) + rest) ==
              match Unescape(rest)
              case None => None
              case Some(r) => Some([c] + r)
  {
    var e := Escape(c) + rest;
    if NeedsEscape(c) {
      assert e[0] == '\\' && e[2..] == rest;
    } else {
      assert e[0] == c && e[1..] == rest;
    }
  }

  lemma {:induction false} UnescapeEscapeAll(s: seq<char>)
    ensures Unescape(EscapeAll(s)) == Some(s)
  {
    if s != [] {
      UnescapeEscapeAll(s[1..]);
      UnescapeEscapeCons(s[0], EscapeAll(s[1..]));
      assert s == [s[0]] + s[1..];
    }
  }

  /** A text that reads back starts with the escaped form of the first character it reads
      back to, and the rest reads back to the rest. */
  lemma {:induction false} UnescapeFront(e: seq<char>)
    requires e != [] && Unescape(e).Some?
    ensures var k := if e[0] == '\\' then 2 else 1;
            && k <= |e| && Unescape(e).value != [] && Unescape(e[k..]).Some?
            && Escape(Unescape(e).value[0]) == e[..k]
            && Unescape(e).value[1..] == Unescape(e[k..]).value
  {
  }

  lemma {:induction false} EscapeAllUnescape(e: seq<char>, s: seq<char>)
    requires Unescape(e) == Some(s)
    ensures EscapeAll(s) == e
    decreases |e|
  {
    if e != [] {
      var k := if e[0] == '\\' then 2 else 1;
      UnescapeFront(e);
      var r := Unescape(e[k..]).value;
      EscapeAllUnescape(e[k..], r);
      EscapeAllCons(s);
      assert EscapeAll(s) == e[..k] + e[k..];
      assert e == e[..k] + e[k..];
    } else {
      assert s == [];
    }
  }

  lemma {:induction false} EscapeAllCons(s: seq<char>)
    requires s != []
    ensures EscapeAll(s) == Escape(s[0]) + EscapeAll(s[1..])
  {
  }

  /** Escaping leaves a text alone exactly when it holds none of the three characters. */
  lemma {:induction false} EscapeAllIdentity(s: seq<char>)
    ensures EscapeAll(s) == s <==> forall i :: 0 <= i < |s| ==> !NeedsEscape(s[i])
  {
    if s != [] {
      EscapeAllIdentity(s[1..]);
      if EscapeAll(s) == s {
        assert |Escape(s[0])| == 1;
        assert EscapeAll(s[1..]) == s[1..];
        forall i | 0 <= i < |s| ensures !NeedsEscape(s[i]) {
          if i > 0 { assert s[i] == s[1..][i - 1]; }
        }
      }
      if forall i :: 0 <= i < |s| ==> !NeedsEscape(s[i]) {
        assert forall i :: 0 <= i < |s[1..]| ==> !NeedsEscape(s[1..][i]) by {
          forall i | 0 <= i < |s[1..]| ensures !NeedsEscape(s[1..][i]) {
            assert s[1..][i] == s[i + 1];
          }
        }
        assert s == [s[0]] + s[1..];
      }
    }
  }

  /** The source: injected text still queued, markup input not yet drawn, the escape mode,
      and the number of input characters drawn since the last reset. */
  datatype Src = Src(queue: seq<char>, input: seq<char>, escape: bool, count: nat)

  /** Wrapping a markup input: nothing queued, escape mode off, count zero. */
  function Open(input: seq<char>): Src {
    Src([], input, false, 0)
  }

  /** Everything the source will deliver if nothing more is injected and the mode is left alone. */
  function Pending(s: Src): seq<char> {
    s.queue + (if s.escape then EscapeAll(s.input) else s.input)
  }

  /** The result of one pull: a character (None at end of stream) and the source after it. */
  datatype Pull = Pull(ch: Option<char>, src: Src)

  /** `read()`: the front of the queue if there is one (neither escaped nor counted);
      otherwise the next input character, counted, and escaped when the mode is on, the second
      character of an escape pair being queued for the next pull. */
  function Read(s: Src): Pull {
    if s.queue != [] then Pull(Some(s.queue[0]), s.(queue := s.queue[1..]))
    else if s.input == [] then Pull(None, s)
    else
      var e := if s.escape then Escape(s.input[0]) else [s.input[0]];
      Pull(Some(e[0]), Src(e[1..], s.input[1..], s.escape, s.count + 1))
  }

  /** A pull delivers the next pending character and leaves exactly the rest pending; the
      queue is drained before the input is touched, and only input characters are counted. */
  lemma {:induction false} ReadDelivers(s: Src)
    ensures var p := Read(s);
            && (Pending(s) == [] <==> p.ch.None?)
            && (Pending(s) == [] ==> p.src == s)
            && (Pending(s) != [] ==> p.ch == Some(Pending(s)[0]) && Pending(p.src) == Pending(s)[1..])
            && p.src.escape == s.escape
            && (s.queue != [] ==> p.src.input == s.input && p.src.count == s.count)
            && (s.queue == [] && s.input != [] ==> p.src.input == s.input[1..] && p.src.count == s.count + 1)
  {
    if s.queue == [] && s.input != [] && s.escape {
      assert EscapeAll(s.input) == Escape(s.input[0]) + EscapeAll(s.input[1..]);
    }
  }

  /** `fillContent`. */
  function Fill(s: Src, text: seq<char>): Src {
    s.(queue := s.queue + text)
  }

  /** `fillChar`: `fillContent` of a single character (used to push back a look-ahead). */
  function FillChar(s: Src, c: char): Src {
    Fill(s, [c])
  }

  /** Injected text is delivered after everything already queued and before any further
      input; nothing else about the source changes. */
  lemma {:induction false} FillDelivers(s: Src, text: seq<char>)
    ensures var r := Fill(s, text);
            && Pending(r) == s.queue + text + Pending(s)[|s.queue|..]
            && r.input == s.input && r.escape == s.escape && r.count == s.count
  {
  }

  function SetEscapeFlag(s: Src, on: bool): Src {
    s.(escape := on)
  }

  function ResetRealReadCharCount(s: Src): Src {
    s.(count := 0)
  }
}
