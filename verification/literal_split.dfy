/**
 The reference shape of a literal run in the generated script: the markup text
 escaped for a single-quoted string, with a line continuation after every
 500th markup character so that no script line grows past the engine's limit.
 */
module LiteralSplit {
  import opened StringEscapeReader
  import opened HtmlTemplateReader
  import opened SeqFacts

  /** The escaped form of `text`, continued on a new line each time the count of markup
      characters, starting from `count`, reaches the limit. */
  function Split(text: seq<char>, count: nat): seq<char>
    decreases |text|
  {
    if text == [] then []
    else if count + 1 >= PrintCharNumLimit then
      Escape(text[0]) + LineContinuation + Split(text[1..], 0)
    else Escape(text[0]) + Split(text[1..], count + 1)
  }

  /** The first markup character, escaped, then the continuation it may cause, then the
      rest with the count moved on. */
  lemma {:induction false} SplitCons(text: seq<char>, count: nat)
    requires text != []
    ensures var split := count + 1 >= PrintCharNumLimit;
            Split(text, count) == Escape(text[0]) + (if split then LineContinuation else [])
                                  + Split(text[1..], if split then 0 else count + 1)
  {
    if count + 1 < PrintCharNumLimit {
      assert Escape(text[0]) + [] == Escape(text[0]);
    }
  }

  /** Removes every line continuation (a backslash directly before a raw newline). */
  function Unsplit(s: seq<char>): seq<char>
  {
    if |s| < 2 then s
    else if s[0] == '\\' && s[1] == '\n' then Unsplit(s[2..])
    else [s[0]] + Unsplit(s[1..])
  }

  lemma {:induction false} SplitStart(text: seq<char>, count: nat)
    ensures Split(text, count) == [] || Split(text, count)[0] != '\n'
  {
    if text != [] {
      assert Split(text, count)[0] == Escape(text[0])[0];
    }
  }

  /** An escaped character in front of text that does not begin with a raw newline survives
      the removal of continuations unchanged. */
  lemma {:induction false} UnsplitEscape(c: char, rest: seq<char>)
    requires rest == [] || rest[0] != '\n'
    ensures Unsplit(Escape(c) + rest) == Escape(c) + Unsplit(rest)
  {
    var e := Escape(c);
    if |e| == 1 {
      if |e + rest| >= 2 {
        assert (e + rest)[1..] == rest;
      }
    } else {
      assert (e + rest)[1..] == [e[1]] + rest;
      if rest != [] {
        assert ([e[1]] + rest)[1..] == rest;
      }
    }
  }

  lemma {:induction false} UnsplitContinuation(rest: seq<char>)
    ensures Unsplit(LineContinuation + rest) == Unsplit(rest)
  {
    assert (LineContinuation + rest)[2..] == rest;
  }

  /** Dropping the continuations gives back exactly the escaped text. */
  lemma {:induction false} UnsplitSplit(text: seq<char>, count: nat)
    ensures Unsplit(Split(text, count)) == EscapeAll(text)
    decreases |text|
  {
    if text != [] {
      var c := text[0];
      if count + 1 >= PrintCharNumLimit {
        var tail := LineContinuation + Split(text[1..], 0);
        assert Split(text, count) == Escape(c) + tail;
        UnsplitEscape(c, tail);
        UnsplitContinuation(Split(text[1..], 0));
        UnsplitSplit(text[1..], 0);
      } else {
        var tail := Split(text[1..], count + 1);
        assert Split(text, count) == Escape(c) + tail;
        SplitStart(text[1..], count + 1);
        UnsplitEscape(c, tail);
        UnsplitSplit(text[1..], count + 1);
      }
    }
  }

  /** While the count stays under the limit no continuation is inserted. */
  lemma {:induction false} SplitShort(text: seq<char>, count: nat)
    requires count + |text| < PrintCharNumLimit
    ensures Split(text, count) == EscapeAll(text)
    decreases |text|
  {
    if text != [] {
      SplitShort(text[1..], count + 1);
    }
  }

  /** The first continuation comes right after the character that brings the count to the
      limit, and the count starts again from zero after it. */
  lemma {:induction false} SplitAtLimit(text: seq<char>, count: nat)
    requires count < PrintCharNumLimit <= count + |text|
    ensures var k := PrintCharNumLimit - count;
            Split(text, count) == EscapeAll(text[..k]) + LineContinuation + Split(text[k..], 0)
    decreases |text|
  {
    var k := PrintCharNumLimit - count;
    var e := Escape(text[0]);
    SplitCons(text, count);
    EscapeAllFront(text, k);
    if count + 1 >= PrintCharNumLimit {
      assert Split(text, count) == e + LineContinuation + Split(text[1..], 0);
      assert text[1..k] == [] && text[1..] == text[k..];
      AppendNil(e);
    } else {
      var a := EscapeAll(text[1..k]);
      var b := Split(text[k..], 0);
      assert Split(text, count) == e + [] + Split(text[1..], count + 1);
      SplitAtLimit(text[1..], count + 1);
      assert text[1..][..k - 1] == text[1..k];
      assert text[1..][k - 1..] == text[k..];
      assert Split(text[1..], count + 1) == a + LineContinuation + b;
      AppendNil(e);
      Assoc4(e, a, LineContinuation, b);
    }
  }

  /** Escaping a non-empty prefix: the first character, then the rest of the prefix. */
  lemma {:induction false} EscapeAllFront(text: seq<char>, k: nat)
    requires 0 < k <= |text|
    ensures EscapeAll(text[..k]) == Escape(text[0]) + EscapeAll(text[1..k])
  {
    assert text[..k][1..] == text[1..k];
  }

  /** A literal of fewer than 500 markup characters is never split; longer ones are split
      exactly after the 500th. */
  lemma {:induction false} SplitBoundary(text: seq<char>)
    ensures |text| < PrintCharNumLimit ==> Split(text, 0) == EscapeAll(text)
    ensures |text| >= PrintCharNumLimit ==>
              Split(text, 0) == EscapeAll(text[..PrintCharNumLimit]) + LineContinuation
                                + Split(text[PrintCharNumLimit..], 0)
  {
    if |text| < PrintCharNumLimit {
      SplitShort(text, 0);
    } else {
      SplitAtLimit(text, 0);
    }
  }
}
