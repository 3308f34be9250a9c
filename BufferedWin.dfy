/** BufferedWin: the scroll-back window of a conversation. It keeps every
    message it receives once, in order of arrival, together with an index from
    message to position that lets it drop duplicates; it shows the lines of the
    messages, the newest at the bottom, `view` lines up from the end. How a
    message is rendered to lines (`format!("{}", m).lines()`) is a parameter. */
module Scrollback {
  import opened Util
  import opened Views

  /** Every position of `buf` is indexed under its message: duplicates are
      impossible and the index holds nothing else. */
  ghost predicate Indexed<M>(buf: seq<M>, history: map<M, nat>) {
    && (forall m :: m in history ==> history[m] < |buf| && buf[history[m]] == m)
    && (forall i :: 0 <= i < |buf| ==> buf[i] in history && history[buf[i]] == i)
  }

  /** A message is in the index exactly when it is in the buffer, and no
      message occurs twice. */
  lemma IndexedFacts<M>(buf: seq<M>, history: map<M, nat>, m: M)
    requires Indexed(buf, history)
    ensures m in history <==> m in buf
    ensures forall i, j :: 0 <= i < j < |buf| ==> buf[i] != buf[j]
  {
    if m in buf {
      var i :| 0 <= i < |buf| && buf[i] == m;
    }
  }

  /** Appending a message not yet indexed, under the position it takes,
      keeps the index exact. */
  lemma IndexedAppend<M>(buf: seq<M>, history: map<M, nat>, m: M)
    requires Indexed(buf, history) && m !in history
    ensures Indexed(buf + [m], history[m := |buf|])
  {
    var b, h := buf + [m], history[m := |buf|];
    forall i | 0 <= i < |b|
      ensures b[i] in h && h[b[i]] == i
    {
      if i < |buf| {
        assert b[i] == buf[i] && buf[i] in history && buf[i] != m;
      }
    }
  }

  /** The lines of the messages, message after message. */
  function AllLines<M>(lines: M -> seq<string>, buf: seq<M>): (r: seq<string>) {
    if buf == [] then [] else AllLines(lines, buf[..|buf| - 1]) + lines(buf[|buf| - 1])
  }

  /** A new message adds its lines after all the earlier ones. */
  lemma AllLinesAppend<M>(lines: M -> seq<string>, buf: seq<M>, m: M)
    ensures AllLines(lines, buf + [m]) == AllLines(lines, buf) + lines(m)
  {
    assert (buf + [m])[..|buf|] == buf;
  }

  /** What redraw can draw without an underflow: when the lines do not fit,
      the window starts at or after the oldest line. */
  predicate SkipDefined(view: nat, count: nat, h: nat) {
    count > h ==> view <= count - h
  }

  /** The scroll position the page commands keep while the height stays the
      same: at the newest page, or a whole page of older lines above it. */
  predicate ScrollValid(view: nat, count: nat, h: nat) {
    view == 0 || view + h <= count
  }

  /** A scroll position the page commands keep stays drawable however many
      lines arrive. */
  lemma ScrollValidAsLinesArrive(view: nat, count: nat, more: nat, h: nat)
    requires ScrollValid(view, count, h) && count <= more
    ensures ScrollValid(view, more, h) && SkipDefined(view, more, h)
  {
  }

  /** The lines redraw shows in a window of height `h`: as many as fit, and a
      run of consecutive lines that ends `view` lines before the newest one
      (everything when all lines fit). */
  function Window(all: seq<string>, h: nat, view: nat): (r: seq<string>)
    requires SkipDefined(view, |all|, h)
    ensures |r| == Min(h, |all|)
    ensures |all| > h ==> r == all[|all| - view - h .. |all| - view]
    ensures |all| <= h ==> r == all
    ensures view == 0 ==> r == all[|all| - |r|..]
  {
    var skip := if |all| > h then |all| - h - view else 0;
    all[skip .. skip + Min(h, |all|)]
  }

  /** `page_up`: one page towards older lines, at most to the oldest page;
      nothing when all lines fit. */
  function ScrolledUp(view: nat, count: nat, h: nat): (r: nat)
    ensures ScrollValid(view, count, h) ==> ScrollValid(r, count, h)
    ensures count >= h ==> r <= count - h
    ensures count >= h && view <= count - h ==> view <= r
    ensures count < h ==> r == view
    ensures count >= h && view + h < count - h ==> r == view + h
    ensures count >= h && view + h >= count - h ==> r == count - h
  {
    if count < h then view
    else if view + h < count - h then view + h
    else count - h
  }

  /** `page_down`: one page towards newer lines, at most to the newest. */
  function ScrolledDown(view: nat, h: nat): (r: nat)
    ensures r <= view
    ensures view > h ==> r + h == view
    ensures view <= h ==> r == 0
  {
    if view > h then view - h else 0
  }

  /** Scrolling down keeps the window drawable. */
  lemma ScrolledDownValid(view: nat, count: nat, h: nat)
    requires ScrollValid(view, count, h)
    ensures ScrollValid(ScrolledDown(view, h), count, h)
  {
  }

  /** A page up that is not clamped is undone by a page down. */
  lemma PageUpThenDown(view: nat, count: nat, h: nat)
    requires count >= h && view + h < count - h
    ensures ScrolledDown(ScrolledUp(view, count, h), h) == view
  {
  }

  /** A page up that is not clamped shows the page just above the current
      one: together the two windows are a run of `2 * h` consecutive lines. */
  lemma PageUpShowsPreviousPage(all: seq<string>, h: nat, view: nat)
    requires |all| >= h && view + h < |all| - h
    ensures Window(all, h, ScrolledUp(view, |all|, h)) + Window(all, h, view)
            == all[|all| - view - 2 * h .. |all| - view]
  {
    var n := |all|;
    assert all[n - view - 2 * h .. n - view] == all[n - view - 2 * h .. n - view - h] + all[n - view - h .. n - view];
  }

  class BufferedWin<M(==)> {
    const lines: M -> seq<string>
    var geometry: View
    var nextLine: u16
    var buf: seq<M>
    var history: map<M, nat>
    var view: nat

    ghost predicate Valid()
      reads this
    {
      Indexed(buf, history)
    }

    /** `View<BufferedWin>::new`: fills its parent; nothing received yet. */
    constructor (lines: M -> seq<string>)
      ensures Valid()
      ensures this.lines == lines
      ensures geometry == View(MatchParent, MatchParent, 0, 0, None, None, true)
      ensures nextLine == 0 && buf == [] && history == map[] && view == 0
    {
      this.lines := lines;
      geometry := View(MatchParent, MatchParent, 0, 0, None, None, true);
      nextLine := 0;
      buf := [];
      history := map[];
      view := 0;
    }

    /** The window has been measured and laid out, and the rows and columns
        it covers are within `u16`: what `redraw` unwraps and adds. */
    predicate Placed()
      reads this
    {
      && geometry.w.Some? && geometry.h.Some?
      && geometry.x as int + geometry.w.value < U16_LIMIT
      && geometry.y as int + geometry.h.value < U16_LIMIT
    }

    /** The window can be drawn: it is placed and its scroll position is
        drawable. */
    predicate Drawable()
      reads this
    {
      Placed() && SkipDefined(view, |AllLines(lines, buf)|, geometry.h.value)
    }

    /** `redraw`: skips the lines below the window, then fills each row with
        the next line while there is one, counting them in `next_line`. */
    method Redraw() returns (shown: seq<string>)
      requires Drawable()
      modifies this
      ensures geometry == old(geometry) && buf == old(buf) && history == old(history) && view == old(view)
      ensures Drawable()
      ensures shown == Window(AllLines(lines, buf), geometry.h.value, view)
      ensures nextLine as int == |shown|
    {
      var all := AllLines(lines, buf);
      var count := |all|;
      var h := geometry.h.value;
      var pos := 0;
      if count > h {
        var i := 0;
        while i < count - h - view
          invariant pos == i <= count - h - view
        {
          pos := pos + 1;
          i := i + 1;
        }
      }
      ghost var skip := pos;
      nextLine := 0;
      shown := [];
      var y := 0;
      while y < h
        invariant 0 <= y <= h
        invariant skip <= pos <= count
        invariant pos == skip + |shown|
        invariant |shown| == Min(y, count - skip)
        invariant shown == all[skip .. pos]
        invariant nextLine as int == |shown|
        invariant geometry == old(geometry) && buf == old(buf) && history == old(history) && view == old(view)
      {
        if pos < count {
          shown := shown + [all[pos]];
          pos := pos + 1;
          nextLine := nextLine + 1;
        }
        y := y + 1;
      }
    }

    /** `recv_message`: a message already received is ignored; a new one is
        indexed under its position and appended, and drawn when asked to.
        Drawing needs the window placed and the scroll position drawable
        with the new message's lines counted. */
    method RecvMessage(message: M, display: bool) returns (shown: Option<seq<string>>)
      requires Valid()
      requires display && message !in history ==>
                 Placed() && SkipDefined(view, |AllLines(lines, buf)| + |lines(message)|, geometry.h.value)
      modifies this
      ensures geometry == old(geometry) && view == old(view)
      ensures Valid()
      ensures old(message in history) ==> buf == old(buf) && history == old(history)
      ensures !old(message in history) ==>
                buf == old(buf) + [message] && history == old(history)[message := |old(buf)|]
      ensures AllLines(lines, buf) == AllLines(lines, old(buf)) + (if old(message in history) then [] else lines(message))
      ensures shown.Some? <==> display && !old(message in history)
      ensures shown.None? ==> nextLine == old(nextLine)
      ensures shown.Some? ==> Drawable() && shown.value == Window(AllLines(lines, buf), geometry.h.value, view)
      ensures shown.Some? ==> nextLine as int == |shown.value|
    {
      shown := None;
      if message in history {
        assert AllLines(lines, buf) + [] == AllLines(lines, buf);
        return;
      }
      IndexedAppend(buf, history, message);
      AllLinesAppend(lines, buf, message);
      history := history[message := |buf|];
      buf := buf + [message];
      if display {
        var s := Redraw();
        shown := Some(s);
      }
    }

    /** `page_up`: nothing when all lines fit; otherwise one page towards
        older lines, at most to the oldest page, then a redraw. */
    method PageUp() returns (shown: Option<seq<string>>)
      requires geometry.h.Some?
      requires |AllLines(lines, buf)| >= geometry.h.value ==> Placed()
      modifies this
      ensures geometry == old(geometry) && buf == old(buf) && history == old(history)
      ensures view == ScrolledUp(old(view), |AllLines(lines, buf)|, geometry.h.value)
      ensures shown.None? <==> |AllLines(lines, buf)| < geometry.h.value
      ensures shown.None? ==> nextLine == old(nextLine)
      ensures shown.Some? ==> Drawable() && shown.value == Window(AllLines(lines, buf), geometry.h.value, view)
      ensures shown.Some? ==> nextLine as int == |shown.value|
    {
      var count := |AllLines(lines, buf)|;
      var h := geometry.h.value;
      if count < h {
        return None;
      }
      var max := count - h;
      if view + h < max {
        view := view + h;
      } else {
        view := max;
      }
      var s := Redraw();
      shown := Some(s);
    }

    /** `page_down`: one page towards newer lines, at most to the newest,
        then a redraw. The redraw needs the new position drawable. */
    method PageDown() returns (shown: seq<string>)
      requires Placed()
      requires SkipDefined(ScrolledDown(view, geometry.h.value), |AllLines(lines, buf)|, geometry.h.value)
      modifies this
      ensures geometry == old(geometry) && buf == old(buf) && history == old(history)
      ensures view == ScrolledDown(old(view), geometry.h.value)
      ensures Drawable() && shown == Window(AllLines(lines, buf), geometry.h.value, view)
      ensures nextLine as int == |shown|
    {
      var h := geometry.h.value;
      if view > h {
        view := view - h;
      } else {
        view := 0;
      }
      shown := Redraw();
    }
  }
}
