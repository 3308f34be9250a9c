# terminus: a verified model of aparte's terminal widget engine

aparte is a console XMPP client. Its `terminus` module is a small widget toolkit
for the terminal. Every widget is a view with a sizing policy per axis
(`MatchParent`, `WrapContent` or `Absolute(n)`), a measured size, a position and a
dirty flag. A parent first *measures* a widget under an optional constraint per
axis and then *lays it out* at a position. Containers (`FrameLayout`,
`LinearLayout`) measure and place their children. The leaf widgets modelled here
are:

- the one-line editor `Input`, whose cursor counts characters while its buffer is
  UTF-8 bytes;
- the scroll-back window `BufferedWin`, which drops duplicate messages and shows
  the newest lines at the bottom;
- the grouped `ListView`.

Column widths come from `term_string_visible_len`, which does not count ECMA-48
control sequences (section 5.4 of ECMA-48) because they take no room on screen.

The model is split into modules:

- `TextMetrics` covers the visible length of a string with escape sequences. It
  has a recursive definition, the scanning loop proved equal to it, and lemmas
  showing that control sequences are invisible and plain text is fully visible.
- `Views` holds the sizing policy and the default `measure` and `layout` of a
  view.
- `Frames` and `Linear` are the two containers, written as classes whose methods
  update the container's geometry and its children in place. Children are leaf
  views that use the default `measure` and `layout`.
- `Utf8` models the byte view of a Rust `String` (RFC 3629, section 3):
  - the byte offset of a character index;
  - the `byte_index` loop, proved to compute that offset;
  - `is_char_boundary`;
  - `String::remove`;
  - the lemmas that turn byte-level splices into character-level edits.
- `Editing` is the `Input` class. Every editing and history method is modelled
  by its effect on the characters of the line. `key`, `backspace`,
  `backward_delete_word` and `delete` also state their effect on the UTF-8
  bytes. It also holds
  the `backward_delete_word` scanner, proved against a declarative description
  of the range it erases, and a client method proving that browsing back and
  forth through the history restores the edited line.
- `Scrollback` is the `BufferedWin` class: duplicate-free reception, paging, and
  the lines `redraw` chooses.
- `Lists` is the `ListView` class. It holds the two `WrapContent` loops of
  `measure`, proved against a maximum and against a sum that does not depend on
  the order of the groups.

## Model

| member | source | states |
|---|---|---|
| TextMetrics.SkipControlSequence | src/terminus.rs:22-29 | the text left after a control sequence body is a proper suffix of the input |
| TextMetrics.VisibleLen | src/terminus.rs:13-38 | the visible length never exceeds the number of characters |
| TextMetrics.SkipControlSequenceAt | src/terminus.rs:22-29 | the inner scanning loop stops exactly where the control sequence ends |
| TextMetrics.TermStringVisibleLen | src/terminus.rs:13-38 | the scanning loop returns the visible length of the string |
| TextMetrics.VisibleLenWithoutEscape | src/terminus.rs:17-35 | a string without ESC is as wide as its number of characters |
| TextMetrics.PlainTextVisible | src/terminus.rs:33 | plain text in front of a string adds exactly its own length |
| TextMetrics.SkipBody | src/terminus.rs:22-29 | parameter and intermediate bytes followed by a final byte are consumed up to and including the final byte |
| TextMetrics.ControlSequenceInvisible | src/terminus.rs:19-31 | a complete control sequence in front of a string adds no width |
| TextMetrics.StyledTextWidth | src/terminus.rs:13-38 | text between two control sequences counts only its own characters |
| TextMetrics.StyledTextExample | src/terminus.rs:1017-1020 | "ab" between a background-colour change and a cursor move, in either order, is 2 columns wide |
| Views.Bound | src/terminus.rs:133-138 | the clamped size is the fixed size or the constraint, and exceeds neither |
| Views.MeasureDim | src/terminus.rs:129-151 | `MatchParent` takes the constraint as it is, `Absolute(n)` takes `n` clamped by it, and the result never exceeds the constraint |
| Views.MaxSize | src/terminus.rs:328-348 | a container's bound never exceeds the constraint, nor its fixed size when it has one |
| Views.View.Measure | src/terminus.rs:129-151 | the default measure sets each measured size by that axis's policy and changes nothing else |
| Views.View.Layout | src/terminus.rs:153-157 | the default layout sets the position, clears the dirty flag and changes nothing else |
| Frames.FrameLayout.constructor | src/terminus.rs:190-210 | a new frame fills its parent at (1, 1), unmeasured, dirty, with no children |
| Frames.FrameLayout.Current | src/terminus.rs:219-222 | selects the child to draw and changes nothing else; the redraw that follows, which panics inside the call when the key is absent, is not modelled |
| Frames.FrameLayout.Insert | src/terminus.rs:224-229 | the new child is stored measured with the frame's size and laid out at its position; other children are unchanged |
| Frames.FrameLayout.Measure | src/terminus.rs:235-242 | the frame takes the constraint as its size and every child is measured under that same constraint |
| Frames.FrameLayout.Layout | src/terminus.rs:244-252 | the frame and every child are laid out at the same position |
| Frames.FrameLayout.IsDirty | src/terminus.rs:261-267 | dirty exactly when some child is dirty |
| Linear.WithSizes | src/terminus.rs:422-431 | sets the size along the primary axis and across it, and nothing else |
| Linear.MaxSizesIsMaximum | src/terminus.rs:424-429 | the container's cross size bounds every child's and is attained by one of them |
| Linear.DemandSplit | src/terminus.rs:376-396 | the space the children take is their natural sizes plus one share per elastic child |
| Linear.Share | src/terminus.rs:366-396 | the share an elastic child gets is 0 without a bound or without elastic children, and never exceeds the bound |
| Linear.EvenShare | src/terminus.rs:376-396 | dividing the space left among the elastic children: the shares fit in it and leave less than one column per child unused |
| Linear.DemandPrefix | src/terminus.rs:401-432 | a prefix of the children never takes more space than all of them |
| Linear.NaturalSumPrefix | src/terminus.rs:352-364 | a prefix of the natural sizes sums to no more than all of them |
| Linear.SumSizesPrefix | src/terminus.rs:443-449 | the running position in layout never passes the total |
| Linear.SharedSpaceFits | src/terminus.rs:366-396 | when the natural sizes fit, the shares fit too, and the space left unused is less than one column per elastic child |
| Linear.UnboundedDemand | src/terminus.rs:366-396 | with no bound every elastic child gets 0 and the children take exactly their natural sizes |
| Linear.LinearLayout.constructor | src/terminus.rs:282-302 | a new layout has the given policy and orientation, at (0, 0), unmeasured, dirty, with no children |
| Linear.LinearLayout.Push | src/terminus.rs:304-308 | appends the child |
| Linear.LinearLayout.Measure | src/terminus.rs:319-433 | the children are measured as `MeasuredAs` describes; the container takes the sum of their sizes along the axis, which fits the bound, and their maximum across |
| Linear.LinearLayout.Bound | src/terminus.rs:328-348 | the container's bound along an axis is the constraint as it is unless its size is fixed; a fixed size bounds it, and it never exceeds the constraint |
| Linear.MeasureChildren | src/terminus.rs:319-432 | the two passes of `measure`: fixed children keep their size along the axis, elastic ones get the even share of the space left, each child gets its size or the cross bound across, and the sum along the axis fits the bound |
| Linear.LinearLayout.Layout | src/terminus.rs:435-450 | the container takes its position; each child keeps its size and is placed at that position plus the sizes of the children before it |
| Linear.LinearLayout.IsDirty | src/terminus.rs:458-464 | dirty exactly when some child is dirty |
| Linear.NaturalPass | src/terminus.rs:350-364 | measures every child without a constraint and returns the sum of their sizes along the axis and the maximum across |
| Linear.CountUnsized | src/terminus.rs:380-393 | counts the children that reported no size along the axis |
| Linear.MeasureAgain | src/terminus.rs:401-420 | one child re-measured with its own size or the share, and with its size or the cross bound |
| Linear.DistributionPass | src/terminus.rs:398-432 | every child is re-measured with its size or the share, clamped by the space left; the running sum equals the demand, so the clamp never cuts a child short |
| Linear.DistributeNext | src/terminus.rs:401-431 | one turn of the distribution loop: the next child is re-measured with the clamped size and added to the running sum and maximum |
| Linear.PlaceChildren | src/terminus.rs:440-449 | the layout loop places every child after the sizes of the children before it |
| Linear.PlaceNext | src/terminus.rs:440-449 | one turn of the layout loop: the next child is laid out at the running position, which advances by that child's size |
| Utf8.Utf8Len | src/terminus.rs:473-487 | a character takes 1 to 4 bytes |
| Utf8.EncodeChar | src/terminus.rs:473-487 | a character's encoding has that many bytes: a leading byte, then only continuation bytes |
| Utf8.ByteOffset | src/terminus.rs:478-487 | the byte offset of a character index lies within the encoding |
| Utf8.EncodeAppend | src/terminus.rs:524-531 | the encoding of a concatenation is the concatenation of the encodings |
| Utf8.EncodedLength | src/terminus.rs:1033 | a string has at least as many bytes as characters, and exactly as many iff it is ASCII |
| Utf8.ByteOffsetStep | src/terminus.rs:478-487 | offsets start at 0, and each character advances the offset by its length |
| Utf8.ByteOffsetMonotone | src/terminus.rs:478-487 | offsets strictly increase with the character index |
| Utf8.SplitAtOffset | src/terminus.rs:557 | the bytes before a character's offset encode the characters before it, and the bytes after encode the rest |
| Utf8.EncodedAt | src/terminus.rs:478-487 | the bytes from a character's offset are that character's encoding |
| Utf8.BoundaryAfter | src/terminus.rs:480-485 | between two consecutive character offsets, the only char boundary is the later offset |
| Utf8.OffsetOfEnd | src/terminus.rs:478-487 | the offset past the last character is the byte length |
| Utf8.OffsetIsBoundary | src/terminus.rs:482 | every character offset is a char boundary |
| Utf8.InsideCharacter | src/terminus.rs:482 | a byte strictly inside a character's encoding is no boundary |
| Utf8.ByteIndex | src/terminus.rs:478-487 | the byte loop returns the byte offset of the cursor's character |
| Utf8.EncodeSplice | src/terminus.rs:597 | replacing a character range replaces exactly the bytes between its offsets |
| Utf8.ByteOffsetExample | src/terminus.rs:1022-1037 | in "aça" the offsets of characters 0, 1 and 2 are 0, 1 and 3, and the string is 4 bytes long |
| Utf8.RemoveAtByte | src/terminus.rs:606 | a successful `String::remove` removes one character |
| Utf8.OffsetAfterFirst | src/terminus.rs:478-487 | dropping the first character shifts every later offset by its length |
| Utf8.RemoveAtOffset | src/terminus.rs:536 | removing at a character's byte offset removes exactly that character |
| Utf8.AsciiOffset | src/terminus.rs:604-607 | in ASCII text byte offsets equal character indices |
| Editing.InsertAt | src/terminus.rs:524-527 | inserting a character lengthens the buffer by one |
| Editing.RemoveAt | src/terminus.rs:533-541 | removing a character shortens the buffer by one |
| Editing.DeleteAt | src/terminus.rs:604-607 | delete removes the character under the cursor, and does nothing at the end |
| Editing.KeyThenBackspace | src/terminus.rs:524-545 | typing a character and then backspace restores the buffer |
| Editing.BackspaceLeavesBoundary | src/terminus.rs:535-539 | after removing a character, its byte offset is still a char boundary, so the extra removal loop never runs |
| Editing.DeleteAtByteOffset | src/terminus.rs:604-607 | removing at the cursor's byte offset removes exactly the character under the cursor |
| Editing.DeleteAsWrittenOnAscii | src/terminus.rs:604-607 | on ASCII text the code as written deletes as intended |
| Editing.DeleteAsWritten | src/terminus.rs:604-607 | `delete` as written: a cursor at or past the byte length changes nothing; before it, one character is removed or `String::remove` panics |
| Editing.DeleteAsWrittenCounterexample | src/terminus.rs:604-607 | after "é" the code as written removes the wrong character, or panics inside a character |
| Editing.CursorLimitAsWrittenPastEnd | src/terminus.rs:620-625 | with any non-ASCII character the byte length lies beyond the last character |
| Editing.CursorLimitAsWritten | src/terminus.rs:620-625 | the cursor limit as written, the byte length, is never below the number of characters |
| Editing.CursorLimitAsWrittenExample | src/terminus.rs:620-625 | for "é" the byte length is 2 while there is 1 character |
| Editing.ClassOf | src/terminus.rs:563-570 | the scanner reads every character as a space, a separator or a word character |
| Editing.Step | src/terminus.rs:562-593 | one turn of the scanner: before a run starts every character is taken and sets the class; inside a run of separators or of word characters the scan goes on exactly while the character is of the run's class |
| Editing.WordBeforeUnique | src/terminus.rs:557-598 | the erased range is determined by the buffer and the cursor alone |
| Editing.WordStart | src/terminus.rs:557-596 | the scanner stops after the spaces before the cursor and the maximal run of separators or word characters before them |
| Editing.Input.constructor | src/terminus.rs:491-515 | a new editor is as wide as its parent, one row high, and empty |
| Editing.Input.Key | src/terminus.rs:524-531 | inserts the character at the cursor's byte offset and moves the cursor past it |
| Editing.Input.Backspace | src/terminus.rs:533-545 | removes the bytes of the character before the cursor and moves the cursor back; nothing at the start |
| Editing.Input.BackwardDeleteWord | src/terminus.rs:547-602 | removes the bytes of the scanned range and moves the cursor to its start |
| Editing.Input.Delete | src/terminus.rs:604-611 | removes the character under the cursor at its byte offset; nothing at the end |
| Editing.Input.Home | src/terminus.rs:613-618 | moves the cursor to the start |
| Editing.Input.End | src/terminus.rs:620-625 | moves the cursor after the last character |
| Editing.Input.Left | src/terminus.rs:640-647 | moves the cursor one character back, unless at the start |
| Editing.Input.Right | src/terminus.rs:649-656 | moves the cursor one character forward, unless at the end |
| Editing.Input.Clear | src/terminus.rs:627-638 | empties the line, forgets the saved line and leaves password mode; the history stays |
| Editing.Input.Password | src/terminus.rs:658-663 | an empty line in password mode |
| Editing.Input.Validate | src/terminus.rs:665-674 | returns the line and the password flag; records the line in the history unless it was a password; then clears |
| Editing.Input.Previous | src/terminus.rs:676-689 | shows the previous history entry, saving the edited line on the first step; nothing at the oldest |
| Editing.Input.Next | src/terminus.rs:691-705 | shows the next history entry, or the saved line past the newest; nothing on the edited line |
| Editing.BrowseHistory | src/terminus.rs:676-705 | k steps back and k steps forward through the history restore the edited line |
| Scrollback.IndexedFacts | src/terminus.rs:773-779 | a message is indexed exactly when it is in the buffer, and no message occurs twice |
| Scrollback.IndexedAppend | src/terminus.rs:778-779 | appending a new message under its position keeps the index exact |
| Scrollback.AllLinesAppend | src/terminus.rs:787-788 | the lines of the buffer after a new message are the old lines followed by its lines |
| Scrollback.ScrollValidAsLinesArrive | src/terminus.rs:828-834 | a scroll position kept by paging stays drawable however many lines arrive |
| Scrollback.Window | src/terminus.rs:822-847 | redraw shows as many lines as fit: consecutive lines that end `view` lines before the newest, and the newest lines at `view` 0 |
| Scrollback.ScrolledUp | src/terminus.rs:786-803 | page up moves exactly one page towards older lines when that stays below the oldest page, and to the oldest page otherwise; nothing when all lines fit; it keeps the position drawable |
| Scrollback.ScrolledDown | src/terminus.rs:805-812 | page down moves exactly one page towards the newest lines when the position is more than a page up, and to the newest page otherwise |
| Scrollback.ScrolledDownValid | src/terminus.rs:805-812 | page down keeps the position drawable |
| Scrollback.PageUpThenDown | src/terminus.rs:786-812 | a page up that is not clamped is undone by a page down |
| Scrollback.PageUpShowsPreviousPage | src/terminus.rs:786-847 | after an unclamped page up, the new window is the page just above the old one |
| Scrollback.BufferedWin.constructor | src/terminus.rs:740-762 | a new window fills its parent and holds no messages |
| Scrollback.BufferedWin.Redraw | src/terminus.rs:819-851 | the skip loop and the row loop draw exactly the window's lines, and `next_line` counts them |
| Scrollback.BufferedWin.RecvMessage | src/terminus.rs:773-784 | a known message is ignored and nothing is drawn; a new one is appended and indexed, the lines grow by its lines, and when asked it is drawn: the window's lines are returned and `next_line` counts them |
| Scrollback.BufferedWin.PageUp | src/terminus.rs:786-803 | when all lines fit nothing changes; otherwise the scroll position moves one page up, clamped to the oldest page, and the window is redrawn with `next_line` counting the lines shown |
| Scrollback.BufferedWin.PageDown | src/terminus.rs:805-812 | the scroll position moves one page down, clamped to the newest, and the window is redrawn with `next_line` counting the lines shown |
| Lists.Col | src/terminus.rs:925 | a width cast to `u16` is kept modulo 2^16, and unchanged when it fits |
| Lists.WidestUnique | src/terminus.rs:919-941 | the width a list wraps to is determined by its content |
| Lists.ContentWidth | src/terminus.rs:921-941 | the width loop returns the widest title or indented item: it bounds them all and is one of them, or 0 |
| Lists.WidenToGroup | src/terminus.rs:922-940 | one group widens the running width to its title and to each of its indented items, and to nothing else |
| Lists.GroupRows | src/terminus.rs:955-959 | a group takes its title row, if any, plus one row per item |
| Lists.RowsRemove | src/terminus.rs:954-960 | the row sum does not depend on which group is taken first |
| Lists.RowsAgree | src/terminus.rs:954-960 | groups with the same items contribute the same rows |
| Lists.RowsAddGroup | src/terminus.rs:896-900 | adding an empty group adds one row for a titled group and none for the untitled one |
| Lists.RowsInsert | src/terminus.rs:902-914 | adding a new item to a group adds one row |
| Lists.RowsMonotone | src/terminus.rs:954-960 | a sum over fewer groups is no larger, so no partial sum overflows when the total fits |
| Lists.ContentHeight | src/terminus.rs:953-960 | the height loop returns the sum of the groups' rows |
| Lists.ListView.constructor | src/terminus.rs:861-880 | a new list is as wide as its content, as high as its parent, and has no groups |
| Lists.ListView.WithNoneGroup | src/terminus.rs:889-894 | the untitled group exists afterwards, and keeps its items if it already existed |
| Lists.ListView.AddGroup | src/terminus.rs:896-900 | the titled group exists afterwards, and keeps its items if it already existed |
| Lists.ListView.Insert | src/terminus.rs:902-914 | the item is added to its group, which is created if needed; the list is marked dirty |
| Lists.ListView.Measure | src/terminus.rs:918-973 | each axis gets the constraint, the fixed size clamped, or the content size clamped |

## Left out

- Screen output is not modelled: `goto!`, `vprint!`, `flush!`, saving and restoring the cursor, blanking rows and the drawing loops of every `redraw`. `Scrollback.BufferedWin.Redraw` keeps the lines it would print and the `next_line` count.
- Event handlers (`event`, `with_event`) and `send_message` are not modelled. `send_message` is empty.
- Nested containers are not modelled: children of `FrameLayout` and `LinearLayout` are leaf views that use the default `measure` and `layout`, not arbitrary boxed widgets.
- `FrameLayout::redraw` redraws only the child under the current key, and `LinearLayout::redraw` redraws every child. Neither is modelled, so which child a frame draws is not captured. The panic of `FrameLayout::redraw` when the current key has no child is left out too. `current` redraws the frame itself, so `current` with an absent key panics inside that call.
- Iteration order of `HashMap` and `HashSet` is left open: the loops pick any unvisited key, and the properties hold for every order.
- How a message, a group or an item is displayed (`fmt::Display`, `lines()`) is a parameter of the class. It is not modelled.
- Linear.LinearLayout.Measure: it requires the natural sizes to fit the bound on both axes. The source subtracts them from the bound in `u16` with no guard; otherwise that panics in debug builds and wraps in release builds, and the model excludes both. The model follows the code and does not saturate at 0.
- Linear.LinearLayout.Measure: it also requires fewer than 65536 elastic children. The source divides by `count as u16`: that cast truncates, so exactly 65536 elastic children divide by zero and panic, and more give a larger share. The model divides by the unbounded count and excludes those cases.
- Linear.LinearLayout.Layout: it requires the children to be measured and the end position to fit in `u16`. The source unwraps each size and adds in `u16` there.
- Scrollback.BufferedWin.PageUp and PageDown: they require the window to be measured, because the source unwraps its height. When they redraw they also require what `Redraw` requires of the new scroll position.
- Scrollback.BufferedWin.PageDown: it requires the new scroll position to start at or after the oldest line. The redraw's skip count `count - h - view` is a `usize` subtraction, which panics in debug builds and wraps in release builds otherwise. The model excludes both. A position that `page_up` produced under the same height, with any number of lines received since, always meets this requirement (`Scrollback.ScrolledDownValid`, `Scrollback.ScrollValidAsLinesArrive`).
- Scrollback.BufferedWin.RecvMessage: when it draws a new message it requires what `Redraw` requires, with the message's lines counted.
- Editing.Input.Next: it requires a saved line whenever the step reaches the end of the history. The source unwraps `tmp_buf` there, and the sequence `previous`, `password`, `validate`, `next` reaches that unwrap with nothing saved.
- Editing.Input: every method that redraws or clears the line requires a measured width, because the source unwraps `self.w` there (in `redraw`, and in `clear`, which `password` and `validate` call). `key`, `backspace`, `backward_delete_word`, `delete`, `home`, `end`, `left` and `right` require it only outside password mode, where they skip the redraw. `previous` and `next` require it only when they move. The column where `redraw` puts the cursor, `x + cursor as u16`, is not modelled: the cast truncates, and the `u16` addition can overflow.
- Editing.Input.Key, Backspace, Delete, Left, Right, Home and End: whether the change is drawn (skipped in password mode) is not modelled, because drawing is output.
- Lists.ListView.Measure: it requires the total row count to fit in `u16`. The source adds in `u16`, which panics on overflow in debug builds and wraps in release builds; the model excludes both.
- Scrollback.BufferedWin.Redraw: it requires the window to be measured, and the rows and columns it covers to fit in `u16`, because the source unwraps and adds there. It also requires the scroll position to start at or after the oldest line, because the skip count is an unguarded `usize` subtraction.
- ListView's `redraw` is screen output and is not modelled.
- `unreachable!()` on `WrapContent` in the default `measure` becomes the precondition that a leaf's policies are not `WrapContent`.

## Findings

| source | as written | input that shows it | evidently intended | confidence | as-written member | corrected member |
|---|---|---|---|---|---|---|
| src/terminus.rs:604-607 | `delete` compares the cursor, a character count, with the byte length and passes it to `String::remove` as a byte offset | buffer "éab", cursor 2: removes 'a' instead of 'b'; buffer "éa", cursor 1: panics, because byte 1 is inside 'é' | remove the character under the cursor, at `byte_index(cursor)`, when the cursor is before the last character | high (not executed) | Editing.DeleteAsWrittenCounterexample | Editing.Input.Delete |
| src/terminus.rs:620-625 | `end`, `right`, `previous` and `next` use the byte length `buf.len()` as the cursor's limit | buffer "é": `end` puts the cursor at 2 while there is 1 character; a later `key` calls `byte_index(2)`, whose loop never finds a second boundary and runs forever | the number of characters, `buf.chars().count()` | high (not executed) | Editing.CursorLimitAsWrittenPastEnd | Editing.Input.End |
