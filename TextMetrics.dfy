/** The visible width of a string that may hold terminal control sequences.
    A control sequence (ECMA-48 section 5.4) is ESC `[`, then parameter bytes
    0x30-0x3F and intermediate bytes 0x20-0x2F, then a final byte 0x40-0x7E;
    it occupies no column on the screen. */
module TextMetrics {

  const ESC: char := '\U{1B}'

  predicate IsParameterByte(c: char) { '\U{30}' <= c <= '\U{3F}' }

  predicate IsIntermediateByte(c: char) { '\U{20}' <= c <= '\U{2F}' }

  predicate IsFinalByte(c: char) { '\U{40}' <= c <= '\U{7E}' }

  /** A complete control sequence: ESC `[`, parameter or intermediate bytes, a final byte. */
  predicate IsControlSequence(cs: string) {
    && |cs| >= 3
    && cs[0] == ESC && cs[1] == '['
    && (forall i :: 2 <= i < |cs| - 1 ==> IsParameterByte(cs[i]) || IsIntermediateByte(cs[i]))
    && IsFinalByte(cs[|cs| - 1])
  }

  /** The text that follows the body of a control sequence whose introducer has
      been read: parameter and intermediate bytes are skipped, and the character
      that stops the scan (the final byte, or any other one) is consumed too. */
  function SkipControlSequence(s: string): (r: string)
    ensures |r| <= |s| && r == s[|s| - |r|..]
    ensures s != [] ==> |r| < |s|
  {
    if s == [] then []
    else if IsParameterByte(s[0]) || IsIntermediateByte(s[0]) then
      var r := SkipControlSequence(s[1..]);
      assert s[1..][|s| - 1 - |r|..] == s[|s| - |r|..];
      r
    else s[1..]
  }

  /** Number of columns `s` occupies: every character counts one, except an ESC
      together with the character after it, and, when that character is `[`,
      the rest of the control sequence. The result never exceeds the number
      of characters. */
  function VisibleLen(s: string): (n: nat)
    ensures n <= |s|
    decreases |s|
  {
    if s == [] then 0
    else if s[0] == ESC then
      if |s| == 1 then 0
      else if s[1] == '[' then VisibleLen(SkipControlSequence(s[2..]))
      else VisibleLen(s[2..])
    else 1 + VisibleLen(s[1..])
  }

  /** The inner loop of `term_string_visible_len`: from index `j`, just after
      ESC `[`, scan to just after the character that ends the sequence. */
  method SkipControlSequenceAt(s: string, j: nat) returns (k: nat)
    requires j <= |s|
    ensures j <= k <= |s| && s[k..] == SkipControlSequence(s[j..])
  {
    k := j;
    var scanning := true;
    while scanning && k < |s|
      invariant j <= k <= |s|
      invariant scanning ==> SkipControlSequence(s[k..]) == SkipControlSequence(s[j..])
      invariant !scanning ==> s[k..] == SkipControlSequence(s[j..])
    {
      var e := s[k];
      assert s[k..][1..] == s[k + 1..];
      k := k + 1;
      if !(IsParameterByte(e) || IsIntermediateByte(e)) {
        scanning := false;
      }
    }
  }

  /** `term_string_visible_len`: the scanning loop over the characters. */
  method TermStringVisibleLen(s: string) returns (len: nat)
    ensures len == VisibleLen(s)
  {
    len := 0;
    var i := 0;
    while i < |s|
      invariant 0 <= i <= |s|
      invariant len + VisibleLen(s[i..]) == VisibleLen(s)
    {
      var c := s[i];
      if c == ESC {
        if i + 1 < |s| {
          assert s[i..][2..] == s[i + 2..];
          if s[i + 1] == '[' {
            i := SkipControlSequenceAt(s, i + 2);
          } else {
            i := i + 2;
          }
        } else {
          i := i + 1;
        }
      } else {
        assert s[i..][1..] == s[i + 1..];
        len := len + 1;
        i := i + 1;
      }
    }
  }

  /** Without ESC every character is visible. */
  lemma {:induction false} VisibleLenWithoutEscape(s: string)
    requires forall i :: 0 <= i < |s| ==> s[i] != ESC
    ensures VisibleLen(s) == |s|
  {
    if s != [] {
      VisibleLenWithoutEscape(s[1..]);
    }
  }

  /** Plain text in front of a string adds exactly its length. */
  lemma {:induction false} PlainTextVisible(t: string, rest: string)
    requires forall i :: 0 <= i < |t| ==> t[i] != ESC
    ensures VisibleLen(t + rest) == |t| + VisibleLen(rest)
  {
    if t != [] {
      assert (t + rest)[0] == t[0];
      assert (t + rest)[1..] == t[1..] + rest;
      PlainTextVisible(t[1..], rest);
      assert VisibleLen(t + rest) == 1 + VisibleLen(t[1..] + rest);
    } else {
      assert t + rest == rest;
    }
  }

  lemma {:induction false} SkipBody(body: string, final: char, rest: string)
    requires forall i :: 0 <= i < |body| ==> IsParameterByte(body[i]) || IsIntermediateByte(body[i])
    requires IsFinalByte(final)
    ensures SkipControlSequence(body + [final] + rest) == rest
  {
    if body == [] {
      assert [final] + rest == body + [final] + rest;
      assert ([final] + rest)[1..] == rest;
    } else {
      assert (body + [final] + rest)[1..] == body[1..] + [final] + rest;
      SkipBody(body[1..], final, rest);
    }
  }

  /** A complete control sequence in front of a string adds nothing. */
  lemma ControlSequenceInvisible(cs: string, rest: string)
    requires IsControlSequence(cs)
    ensures VisibleLen(cs + rest) == VisibleLen(rest)
  {
    var s := cs + rest;
    var body := cs[2..|cs| - 1];
    assert forall i :: 0 <= i < |body| ==> body[i] == cs[i + 2];
    SkipBody(body, cs[|cs| - 1], rest);
    assert s[0] == ESC && |s| > 1 && s[1] == '[';
    assert s[2..] == body + [cs[|cs| - 1]] + rest;
    assert VisibleLen(s) == VisibleLen(SkipControlSequence(s[2..]));
  }

  /** termion's `color::Bg(color::Red)`. */
  const BG_RED: string := "\U{1B}[48;5;1m"

  /** termion's `cursor::Goto(1, 123)`. */
  const GOTO_1_123: string := "\U{1B}[123;1H"

  /** Text between two control sequences counts only its own characters. */
  lemma StyledTextWidth(open: string, text: string, close: string)
    requires IsControlSequence(open) && IsControlSequence(close)
    requires forall i :: 0 <= i < |text| ==> text[i] != ESC
    ensures VisibleLen(open + text + close) == |text|
  {
    ControlSequenceInvisible(close, []);
    assert close + [] == close;
    PlainTextVisible(text, close);
    assert open + text + close == open + (text + close);
    ControlSequenceInvisible(open, text + close);
  }

  /** "ab" between a colour change and a cursor move, in either order, is two
      columns wide. */
  lemma StyledTextExample()
    ensures VisibleLen(BG_RED + "ab" + GOTO_1_123) == 2
    ensures VisibleLen(GOTO_1_123 + "ab" + BG_RED) == 2
  {
    assert IsControlSequence(BG_RED);
    assert IsControlSequence(GOTO_1_123);
    StyledTextWidth(BG_RED, "ab", GOTO_1_123);
    StyledTextWidth(GOTO_1_123, "ab", BG_RED);
  }
}
