/** The one-line editor at the bottom of the screen. The buffer is a Rust
    `String`; the cursor counts characters (code points) and every edit
    converts it to a byte offset with `byte_index` first. Here the buffer is
    kept as its characters and each edit also states what it does to the
    UTF-8 bytes, which is what the source manipulates. */
module Editing {
  import opened Util
  import opened Views
  import opened Utf8

  /** `k` characters into `s`, the character `c` inserted. */
  function InsertAt(s: string, k: nat, c: char): (r: string)
    requires k <= |s|
    ensures |r| == |s| + 1
  {
    s[..k] + [c] + s[k..]
  }

  /** `s` without its character at index `k`. */
  function RemoveAt(s: string, k: nat): (r: string)
    requires k < |s|
    ensures |r| + 1 == |s|
  {
    s[..k] + s[k + 1..]
  }

  /** Deleting the character under the cursor: nothing happens at the end. */
  function DeleteAt(s: string, k: nat): (r: string)
    requires k <= |s|
    ensures k < |s| ==> r == RemoveAt(s, k)
    ensures k == |s| ==> r == s
  {
    if k < |s| then RemoveAt(s, k) else s
  }

  /** Typing a character and erasing it with backspace restores the buffer. */
  lemma KeyThenBackspace(s: string, k: nat, c: char)
    requires k <= |s|
    ensures RemoveAt(InsertAt(s, k, c), k) == s
  {
    var t := InsertAt(s, k, c);
    assert t[..k] == s[..k];
    assert t[k + 1..] == s[k..];
  }

  /** The erased character is the one left of the cursor; the byte offset
      where `backspace` removed it is still a character boundary afterwards,
      so the source's loop that removes further bytes never runs. */
  lemma BackspaceLeavesBoundary(s: string, k: nat)
    requires k < |s|
    ensures ByteOffset(RemoveAt(s, k), k) == ByteOffset(s, k)
    ensures IsCharBoundary(Encode(RemoveAt(s, k)), ByteOffset(s, k))
  {
    var t := RemoveAt(s, k);
    assert t[..k] == s[..k];
    OffsetIsBoundary(t, k);
  }

  /** Deleting at the byte offset of the cursor, as the corrected `delete`
      does, removes exactly the character under the cursor. */
  lemma DeleteAtByteOffset(s: string, k: nat)
    requires k < |s|
    ensures RemoveAtByte(s, ByteOffset(s, k)) == Some(DeleteAt(s, k))
  {
    RemoveAtOffset(s, k);
  }

  /** `delete` as written: the cursor (a character count) is compared with
      the byte length and passed to `String::remove` as a byte offset.
      `None` is the panic of `String::remove` inside a character. */
  function DeleteAsWritten(s: string, cursor: nat): (r: Option<string>)
    ensures cursor >= |Encode(s)| ==> r == Some(s)
    ensures cursor < |Encode(s)| && r.Some? ==> |r.value| + 1 == |s|
  {
    if cursor < |Encode(s)| then RemoveAtByte(s, cursor) else Some(s)
  }

  /** On ASCII text characters and bytes coincide, so `delete` as written
      behaves as intended. */
  lemma DeleteAsWrittenOnAscii(s: string, k: nat)
    requires k <= |s|
    requires forall i :: 0 <= i < |s| ==> s[i] as int < 0x80
    ensures DeleteAsWritten(s, k) == Some(DeleteAt(s, k))
  {
    AsciiOffset(s, k);
    if k < |s| {
      RemoveAtOffset(s, k);
    }
  }

  /** After a two-byte character `delete` as written removes the wrong
      character, or panics when the cursor's byte falls inside one. */
  lemma DeleteAsWrittenCounterexample()
    ensures DeleteAsWritten("éab", 2) == Some("éb")
    ensures DeleteAt("éab", 2) == "éa"
    ensures DeleteAsWritten("éa", 1) == None
    ensures DeleteAt("éa", 1) == "é"
  {
    assert Encode("éab") == [0xC3, 0xA9, 0x61, 0x62] by {
      assert Encode("b") == [0x62] + Encode([]);
      assert Encode("ab") == [0x61] + Encode("b");
      assert "éab"[1..] == "ab";
    }
    assert "éab"[1..] == "ab" && "ab"[1..] == "b";
    assert Utf8Len('é') == 2;
    assert RemoveAtByte("ab", 0) == Some("b");
    assert RemoveAtByte("éab", 2) == Some(['é'] + "b");
    assert ['é'] + "b" == "éb";
    assert Encode("éa") == [0xC3, 0xA9, 0x61] by {
      assert Encode("a") == [0x61] + Encode([]);
      assert "éa"[1..] == "a";
    }
  }

  /** Where the cursor ends after `end`, `previous` and `next`, and the limit
      of `right`, as written: the byte length of the buffer. */
  function CursorLimitAsWritten(s: string): (r: nat)
    ensures |s| <= r
  {
    EncodedLength(s);
    |Encode(s)|
  }

  /** With any non-ASCII character that limit lies beyond the last character,
      where `byte_index` would run past the end of the buffer. */
  lemma CursorLimitAsWrittenPastEnd(s: string)
    requires exists i :: 0 <= i < |s| && s[i] as int >= 0x80
    ensures CursorLimitAsWritten(s) > |s|
  {
    EncodedLength(s);
  }

  lemma CursorLimitAsWrittenExample()
    ensures CursorLimitAsWritten("é") == 2 && |"é"| == 1
  {
    assert Encode("é") == [0xC3, 0xA9] + Encode([]);
  }

  /** The states of `backward_delete_word`'s scanner, and the three classes
      of characters it tells apart. */
  datatype ScanState = Init | Space | Separator | Word

  predicate IsSeparator(c: char) {
    c in {'/', '\\', '\'', '"', '&', '(', ')', '*', ',', ';', '<', '=',
          '>', '?', '@', '[', ']', '^', '{', '|', '}'}
  }

  function ClassOf(c: char): (k: ScanState)
    ensures !k.Init?
  {
    if c == ' ' then Space else if IsSeparator(c) then Separator else Word
  }

  /** One transition, reading the character left of the scan position;
      `None` ends the scan without consuming the character. */
  function Step(state: ScanState, c: char): (r: Option<ScanState>)
    ensures r.Some? ==> !r.value.Init?
    ensures state.Init? || state.Space? ==> r == Some(ClassOf(c))
    ensures state.Separator? || state.Word? ==> (r.Some? <==> ClassOf(c) == state)
    ensures state.Separator? || state.Word? ==> r.Some? ==> r.value == state
  {
    match state
    case Init => Some(ClassOf(c))
    case Space => Some(ClassOf(c))
    case Separator => if IsSeparator(c) then Some(Separator) else None
    case Word => if ClassOf(c).Word? then Some(Word) else None
  }

  /** Every character of `s[i..j]` is of class `k`. */
  predicate Run(s: string, i: nat, j: nat, k: ScanState)
    requires i <= j <= |s|
  {
    forall t :: i <= t < j ==> ClassOf(s[t]) == k
  }

  /** What `backward_delete_word` erases before position `p`: the spaces
      `s[q..p]` immediately before it, then the maximal run `s[w..q]` of
      separators or of word characters that precedes them. */
  predicate WordBefore(s: string, p: nat, q: nat, w: nat)
    requires p <= |s|
  {
    && w <= q <= p
    && Run(s, q, p, Space)
    && (q == 0 ==> w == 0)
    && (q > 0 ==>
         && ClassOf(s[q - 1]) != Space
         && w < q
         && Run(s, w, q, ClassOf(s[q - 1]))
         && (w > 0 ==> ClassOf(s[w - 1]) != ClassOf(s[q - 1])))
  }

  /** The erased range is determined by the buffer and the cursor alone. */
  lemma WordBeforeUnique(s: string, p: nat, q1: nat, w1: nat, q2: nat, w2: nat)
    requires p <= |s|
    requires WordBefore(s, p, q1, w1) && WordBefore(s, p, q2, w2)
    ensures q1 == q2 && w1 == w2
  {
  }

  /** The scanning loop of `backward_delete_word`: walks left from `p`
      through the state machine and returns where the erased range starts. */
  method WordStart(s: string, p: nat) returns (w: nat)
    requires p <= |s|
    ensures exists q :: WordBefore(s, p, q, w)
  {
    w := p;
    var state := Init;
    ghost var q := p;
    var scanning := true;
    while scanning && w > 0
      invariant w <= q <= p
      invariant Run(s, q, p, Space)
      invariant state.Init? ==> w == p
      invariant state.Init? || state.Space? ==> q == w
      invariant state.Separator? || state.Word? ==>
                  w < q && ClassOf(s[q - 1]) == state && Run(s, w, q, state)
      invariant !scanning ==>
                  w > 0 && (state.Separator? || state.Word?) && ClassOf(s[w - 1]) != state
      decreases w + (if scanning then 1 else 0)
    {
      match Step(state, s[w - 1])
      case None =>
        scanning := false;
      case Some(next) =>
        if next.Space? {
          q := w - 1;
        } else if state.Init? || state.Space? {
          q := w;
        }
        state := next;
        w := w - 1;
    }
    assert WordBefore(s, p, q, w);
  }

  /** The editor's state. */
  class Input {
    var view: View
    var buf: string
    var tmpBuf: Option<string>
    var password: bool
    var history: seq<string>
    var historyIndex: nat
    var cursor: nat

    /** The cursor designates a character position of the buffer, and the
        history position an entry of the history or the line being edited. */
    ghost predicate Valid()
      reads this
    {
      cursor <= |buf| && historyIndex <= |history|
    }

    /** `View<Input>::new`: as wide as the parent, one row high, empty. */
    constructor ()
      ensures Valid()
      ensures view == View(MatchParent, Absolute(1), 0, 0, None, None, true)
      ensures buf == [] && tmpBuf == None && !password
      ensures history == [] && historyIndex == 0 && cursor == 0
    {
      view := View(MatchParent, Absolute(1), 0, 0, None, None, true);
      buf := [];
      tmpBuf := None;
      password := false;
      history := [];
      historyIndex := 0;
      cursor := 0;
    }

    /** `key`: inserts `c` at the byte offset of the cursor and moves the
        cursor past it. */
    method Key(c: char)
      requires Valid()
      requires !password ==> view.w.Some?
      modifies this
      ensures Valid()
      ensures buf == InsertAt(old(buf), old(cursor), c) && cursor == old(cursor) + 1
      ensures Encode(buf) == Encode(old(buf))[..ByteOffset(old(buf), old(cursor))]
                             + Encode([c]) + Encode(old(buf))[ByteOffset(old(buf), old(cursor))..]
      ensures view == old(view) && tmpBuf == old(tmpBuf) && password == old(password)
      ensures history == old(history) && historyIndex == old(historyIndex)
    {
      var byteIndex := ByteIndex(buf, cursor);
      EncodeSplice(buf, cursor, cursor, [c]);
      assert buf[..cursor] + [c] + buf[cursor..] == InsertAt(buf, cursor, c);
      buf := InsertAt(buf, cursor, c);
      cursor := cursor + 1;
    }

    /** `backspace`: removes the character before the cursor, at the byte
        offset of `cursor - 1`; nothing at the start of the line. */
    method Backspace()
      requires Valid()
      requires !password ==> view.w.Some?
      modifies this
      ensures Valid()
      ensures old(cursor) > 0 ==> buf == RemoveAt(old(buf), old(cursor) - 1) && cursor == old(cursor) - 1
      ensures old(cursor) > 0 ==>
                Encode(buf) == Encode(old(buf))[..ByteOffset(old(buf), old(cursor) - 1)]
                               + Encode(old(buf))[ByteOffset(old(buf), old(cursor))..]
      ensures old(cursor) == 0 ==> buf == old(buf) && cursor == 0
      ensures view == old(view) && tmpBuf == old(tmpBuf) && password == old(password)
      ensures history == old(history) && historyIndex == old(historyIndex)
    {
      if cursor > 0 {
        var byteIndex := ByteIndex(buf, cursor - 1);
        EncodeSplice(buf, cursor - 1, cursor, []);
        assert buf[..cursor - 1] + [] + buf[cursor..] == RemoveAt(buf, cursor - 1);
        assert Encode([]) == [];
        buf := RemoveAt(buf, cursor - 1);
        cursor := cursor - 1;
      }
    }

    /** `backward_delete_word`: erases the spaces before the cursor and the
        word or the run of separators before them, by replacing the byte
        range between their offsets with nothing. */
    method BackwardDeleteWord()
      requires Valid()
      requires !password ==> view.w.Some?
      modifies this
      ensures Valid()
      ensures exists q :: WordBefore(old(buf), old(cursor), q, cursor)
      ensures buf == old(buf)[..cursor] + old(buf)[old(cursor)..]
      ensures Encode(buf) == Encode(old(buf))[..ByteOffset(old(buf), cursor)]
                             + Encode(old(buf))[ByteOffset(old(buf), old(cursor))..]
      ensures view == old(view) && tmpBuf == old(tmpBuf) && password == old(password)
      ensures history == old(history) && historyIndex == old(historyIndex)
    {
      var wordStart := WordStart(buf, cursor);
      var from := ByteIndex(buf, wordStart);
      var to := ByteIndex(buf, cursor);
      EncodeSplice(buf, wordStart, cursor, []);
      assert buf[..wordStart] + [] + buf[cursor..] == buf[..wordStart] + buf[cursor..];
      assert Encode([]) == [];
      buf := buf[..wordStart] + buf[cursor..];
      cursor := wordStart;
    }

    /** `delete`, corrected: removes the character under the cursor, at the
        byte offset of the cursor; nothing at the end of the line. */
    method Delete()
      requires Valid()
      requires !password ==> view.w.Some?
      modifies this
      ensures Valid()
      ensures buf == DeleteAt(old(buf), old(cursor)) && cursor == old(cursor)
      ensures old(cursor) < |old(buf)| ==>
                RemoveAtByte(old(buf), ByteOffset(old(buf), cursor)) == Some(buf)
      ensures view == old(view) && tmpBuf == old(tmpBuf) && password == old(password)
      ensures history == old(history) && historyIndex == old(historyIndex)
    {
      if cursor < |buf| {
        var byteIndex := ByteIndex(buf, cursor);
        DeleteAtByteOffset(buf, cursor);
        buf := RemoveAt(buf, cursor);
      }
    }

    /** `home`: the cursor goes to the start of the line. */
    method Home()
      requires Valid()
      requires !password ==> view.w.Some?
      modifies this
      ensures Valid()
      ensures cursor == 0
      ensures view == old(view) && buf == old(buf) && tmpBuf == old(tmpBuf) && password == old(password)
      ensures history == old(history) && historyIndex == old(historyIndex)
    {
      cursor := 0;
    }

    /** `end`, corrected: the cursor goes after the last character. */
    method End()
      requires Valid()
      requires !password ==> view.w.Some?
      modifies this
      ensures Valid()
      ensures cursor == |buf|
      ensures view == old(view) && buf == old(buf) && tmpBuf == old(tmpBuf) && password == old(password)
      ensures history == old(history) && historyIndex == old(historyIndex)
    {
      cursor := |buf|;
    }

    /** `left`: one character back, unless at the start. */
    method Left()
      requires Valid()
      requires !password ==> view.w.Some?
      modifies this
      ensures Valid()
      ensures cursor == if old(cursor) > 0 then old(cursor) - 1 else 0
      ensures view == old(view) && buf == old(buf) && tmpBuf == old(tmpBuf) && password == old(password)
      ensures history == old(history) && historyIndex == old(historyIndex)
    {
      if cursor > 0 {
        cursor := cursor - 1;
      }
    }

    /** `right`, corrected: one character forward, unless at the end. */
    method Right()
      requires Valid()
      requires !password ==> view.w.Some?
      modifies this
      ensures Valid()
      ensures cursor == if old(cursor) < |buf| then old(cursor) + 1 else old(cursor)
      ensures view == old(view) && buf == old(buf) && tmpBuf == old(tmpBuf) && password == old(password)
      ensures history == old(history) && historyIndex == old(historyIndex)
    {
      if cursor < |buf| {
        cursor := cursor + 1;
      }
    }

    /** `clear`: empties the line, forgets the line saved while browsing the
        history and leaves password mode. The history and its position stay. */
    method Clear()
      requires Valid()
      requires view.w.Some?
      modifies this
      ensures Valid()
      ensures buf == [] && cursor == 0 && tmpBuf == None && !password
      ensures view == old(view) && history == old(history) && historyIndex == old(historyIndex)
    {
      buf := [];
      cursor := 0;
      tmpBuf := None;
      password := false;
    }

    /** `password`: an empty line whose content is not echoed. */
    method Password()
      requires Valid()
      requires view.w.Some?
      modifies this
      ensures Valid()
      ensures buf == [] && cursor == 0 && tmpBuf == None && password
      ensures view == old(view) && history == old(history) && historyIndex == old(historyIndex)
    {
      Clear();
      password := true;
    }

    /** `validate`: returns the line and whether it was a password, appends
        it to the history unless it was one, and clears the line. */
    method Validate() returns (line: string, wasPassword: bool)
      requires Valid()
      requires view.w.Some?
      modifies this
      ensures Valid()
      ensures line == old(buf) && wasPassword == old(password)
      ensures !old(password) ==> history == old(history) + [old(buf)] && historyIndex == |history|
      ensures old(password) ==> history == old(history) && historyIndex == old(historyIndex)
      ensures buf == [] && cursor == 0 && tmpBuf == None && !password
      ensures view == old(view)
    {
      if !password {
        history := history + [buf];
        historyIndex := |history|;
      }
      line := buf;
      wasPassword := password;
      Clear();
    }

    /** `previous`: shows the history entry before the current one, saving
        the line being edited the first time; nothing at the oldest entry. */
    method Previous()
      requires Valid()
      requires historyIndex > 0 ==> view.w.Some?
      modifies this
      ensures Valid()
      ensures old(historyIndex) == 0 ==>
                buf == old(buf) && cursor == old(cursor) && tmpBuf == old(tmpBuf) && historyIndex == 0
      ensures old(historyIndex) > 0 ==>
                && historyIndex == old(historyIndex) - 1 < |history|
                && buf == history[historyIndex] && cursor == |buf|
                && tmpBuf == (if old(tmpBuf).None? then Some(old(buf)) else old(tmpBuf))
      ensures view == old(view) && password == old(password) && history == old(history)
    {
      if historyIndex == 0 {
        return;
      }
      if tmpBuf.None? {
        tmpBuf := Some(buf);
      }
      historyIndex := historyIndex - 1;
      buf := history[historyIndex];
      cursor := |buf|;
    }

    /** `next`: shows the entry after the current one, or, past the newest
        one, the line saved by `previous` (which must then exist); nothing
        when already on the edited line. */
    method Next()
      requires Valid()
      requires historyIndex < |history| ==> view.w.Some?
      requires historyIndex + 1 == |history| ==> tmpBuf.Some?
      modifies this
      ensures Valid()
      ensures old(historyIndex) == |history| ==>
                buf == old(buf) && cursor == old(cursor) && tmpBuf == old(tmpBuf) && historyIndex == old(historyIndex)
      ensures old(historyIndex) + 1 == |history| ==>
                historyIndex == |history| && old(tmpBuf).Some? && buf == old(tmpBuf).value && tmpBuf == None && cursor == |buf|
      ensures old(historyIndex) + 1 < |history| ==>
                historyIndex == old(historyIndex) + 1 && buf == history[historyIndex]
                && tmpBuf == old(tmpBuf) && cursor == |buf|
      ensures view == old(view) && password == old(password) && history == old(history)
    {
      if historyIndex == |history| {
        return;
      }
      historyIndex := historyIndex + 1;
      if historyIndex == |history| {
        buf := tmpBuf.value;
        tmpBuf := None;
      } else {
        buf := history[historyIndex];
      }
      cursor := |buf|;
    }
  }

  /** Browsing `k` entries back through the history and `k` entries forward
      again brings back the line that was being edited. */
  method BrowseHistory(input: Input, k: nat)
    requires input.Valid()
    requires input.historyIndex == |input.history| && input.tmpBuf == None
    requires k <= |input.history|
    requires k > 0 ==> input.view.w.Some?
    modifies input
    ensures input.Valid()
    ensures input.buf == old(input.buf) && input.tmpBuf == None
    ensures input.historyIndex == |input.history| && input.history == old(input.history)
  {
    ghost var line := input.buf;
    var i := 0;
    while i < k
      invariant 0 <= i <= k
      invariant input.Valid()
      invariant input.history == old(input.history) && input.view == old(input.view)
      invariant input.historyIndex == |input.history| - i
      invariant i == 0 ==> input.buf == line && input.tmpBuf == None
      invariant i > 0 ==> input.tmpBuf == Some(line)
    {
      input.Previous();
      i := i + 1;
    }
    i := 0;
    while i < k
      invariant 0 <= i <= k
      invariant input.Valid()
      invariant input.history == old(input.history) && input.view == old(input.view)
      invariant input.historyIndex == |input.history| - k + i
      invariant i == k ==> input.buf == line && input.tmpBuf == None
      invariant i < k ==> input.tmpBuf == Some(line)
    {
      input.Next();
      i := i + 1;
    }
  }
}
