/** The byte view of the line editor's buffer. A Rust `String` is a sequence
    of Unicode scalar values stored as UTF-8 (RFC 3629, section 3); the editor
    counts its cursor in characters and converts it to a byte offset before it
    edits the bytes. */
module Utf8 {
  import opened Util

  type byte = x: int | 0 <= x < 0x100

  /** The bytes RFC 3629 uses for a scalar value: 1 up to U+007F, 2 up to
      U+07FF, 3 up to U+FFFF, 4 beyond. */
  function Utf8Len(c: char): (n: nat)
    ensures 1 <= n <= 4
  {
    var v := c as int;
    if v < 0x80 then 1 else if v < 0x800 then 2 else if v < 0x1_0000 then 3 else 4
  }

  /** A byte of the form 10xxxxxx, which never starts a character. */
  predicate IsContinuation(b: byte) { 0x80 <= b < 0xC0 }

  /** The encoding of one character: a leading byte followed by continuation
      bytes only, as many bytes in all as `Utf8Len` says. */
  function EncodeChar(c: char): (bs: seq<byte>)
    ensures |bs| == Utf8Len(c)
    ensures !IsContinuation(bs[0])
    ensures forall i :: 1 <= i < |bs| ==> IsContinuation(bs[i])
  {
    var v := c as int;
    if v < 0x80 then [v]
    else if v < 0x800 then [0xC0 + v / 0x40, 0x80 + v % 0x40]
    else if v < 0x1_0000 then [0xE0 + v / 0x1000, 0x80 + (v / 0x40) % 0x40, 0x80 + v % 0x40]
    else [0xF0 + v / 0x4_0000, 0x80 + (v / 0x1000) % 0x40, 0x80 + (v / 0x40) % 0x40, 0x80 + v % 0x40]
  }

  /** The UTF-8 bytes of a string. */
  function Encode(s: string): (r: seq<byte>) {
    if s == [] then [] else EncodeChar(s[0]) + Encode(s[1..])
  }

  /** `str::is_char_boundary`: the start, the end, or a byte that starts a character. */
  predicate IsCharBoundary(bytes: seq<byte>, i: nat) {
    i == 0 || i == |bytes| || (i < |bytes| && !IsContinuation(bytes[i]))
  }

  /** The byte offset of the character at index `k`. */
  function ByteOffset(s: string, k: nat): (n: nat)
    requires k <= |s|
    ensures n <= |Encode(s)|
  {
    assert s == s[..k] + s[k..];
    EncodeAppend(s[..k], s[k..]);
    |Encode(s[..k])|
  }

  /** Encoding is a homomorphism from concatenation to concatenation. */
  lemma {:induction false} EncodeAppend(a: string, b: string)
    ensures Encode(a + b) == Encode(a) + Encode(b)
  {
    if a != [] {
      assert (a + b)[0] == a[0];
      assert (a + b)[1..] == a[1..] + b;
      EncodeAppend(a[1..], b);
    } else {
      assert a + b == b;
    }
  }

  /** Every character takes at least one byte; only ASCII takes exactly one. */
  lemma {:induction false} EncodedLength(s: string)
    ensures |s| <= |Encode(s)|
    ensures |Encode(s)| == |s| <==> forall i :: 0 <= i < |s| ==> s[i] as int < 0x80
  {
    if s != [] {
      EncodedLength(s[1..]);
      if s[0] as int >= 0x80 {
        assert !(forall i :: 0 <= i < |s| ==> s[i] as int < 0x80);
      } else {
        assert forall i :: 1 <= i < |s| ==> s[i] == s[1..][i - 1];
      }
    }
  }

  /** `byte_index(k + 1)` is `byte_index(k)` plus the length of character `k`:
      offsets start at 0 and strictly increase. */
  lemma ByteOffsetStep(s: string, k: nat)
    requires k < |s|
    ensures ByteOffset(s, 0) == 0
    ensures ByteOffset(s, k + 1) == ByteOffset(s, k) + Utf8Len(s[k])
  {
    assert s[..k + 1] == s[..k] + [s[k]];
    EncodeAppend(s[..k], [s[k]]);
    assert Encode([s[k]]) == EncodeChar(s[k]) + Encode([]);
  }

  lemma {:induction false} ByteOffsetMonotone(s: string, i: nat, j: nat)
    requires i < j <= |s|
    ensures ByteOffset(s, i) < ByteOffset(s, j)
    decreases j
  {
    ByteOffsetStep(s, j - 1);
    if i < j - 1 {
      ByteOffsetMonotone(s, i, j - 1);
    }
  }

  /** The bytes before offset `k` encode the characters before index `k`, and
      the bytes from there on encode the rest. */
  lemma SplitAtOffset(s: string, k: nat)
    requires k <= |s|
    ensures ByteOffset(s, k) <= |Encode(s)|
    ensures Encode(s)[..ByteOffset(s, k)] == Encode(s[..k])
    ensures Encode(s)[ByteOffset(s, k)..] == Encode(s[k..])
  {
    assert s == s[..k] + s[k..];
    EncodeAppend(s[..k], s[k..]);
  }

  /** The bytes from the offset of character `j` on are its encoding. */
  lemma EncodedAt(s: string, j: nat, q: nat)
    requires j < |s| && q < Utf8Len(s[j])
    ensures ByteOffset(s, j) + q < |Encode(s)|
    ensures Encode(s)[ByteOffset(s, j) + q] == EncodeChar(s[j])[q]
  {
    SplitAtOffset(s, j);
    assert s[j..] == [s[j]] + s[j + 1..];
    EncodeAppend([s[j]], s[j + 1..]);
    assert Encode([s[j]]) == EncodeChar(s[j]) + Encode([]);
    assert Encode(s)[ByteOffset(s, j)..][q] == Encode(s[j..])[q];
  }

  /** Between the offsets of characters `j` and `j + 1` the only boundary is
      the offset of `j + 1`: the bytes in between continue character `j`. */
  lemma BoundaryAfter(s: string, j: nat, b: nat)
    requires j < |s|
    requires ByteOffset(s, j) < b <= ByteOffset(s, j + 1)
    ensures IsCharBoundary(Encode(s), b) <==> b == ByteOffset(s, j + 1)
  {
    ByteOffsetStep(s, j);
    if b < ByteOffset(s, j + 1) {
      InsideCharacter(s, j, b - ByteOffset(s, j));
    } else {
      OffsetIsBoundary(s, j + 1);
    }
  }

  /** The offset one past the last character is the length of the encoding. */
  lemma OffsetOfEnd(s: string)
    ensures ByteOffset(s, |s|) == |Encode(s)|
  {
    assert s[..|s|] == s;
  }

  /** Every character offset is a boundary. */
  lemma OffsetIsBoundary(s: string, k: nat)
    requires k <= |s|
    ensures IsCharBoundary(Encode(s), ByteOffset(s, k))
  {
    if k < |s| {
      EncodedAt(s, k, 0);
    } else {
      OffsetOfEnd(s);
    }
  }

  /** A byte strictly inside the encoding of character `j` is no boundary. */
  lemma InsideCharacter(s: string, j: nat, q: nat)
    requires j < |s| && 1 <= q < Utf8Len(s[j])
    ensures ByteOffset(s, j) + q < |Encode(s)|
    ensures !IsCharBoundary(Encode(s), ByteOffset(s, j) + q)
  {
    EncodedAt(s, j, q);
  }

  /** `byte_index`: steps through the bytes one at a time and counts a
      character each time it reaches a boundary. The cursor must not pass the
      last character (beyond it the source's loop never ends). */
  method ByteIndex(buf: string, cursor: nat) returns (byteIndex: nat)
    requires cursor <= |buf|
    ensures byteIndex == ByteOffset(buf, cursor)
  {
    var bytes := Encode(buf);
    byteIndex := 0;
    var c := cursor;
    while c > 0
      invariant 0 <= c <= cursor
      invariant ByteOffset(buf, cursor - c) <= byteIndex
      invariant c > 0 ==> byteIndex < ByteOffset(buf, cursor - c + 1)
      invariant c == 0 ==> byteIndex == ByteOffset(buf, cursor)
      decreases ByteOffset(buf, cursor) - byteIndex
    {
      if cursor - c + 1 < cursor {
        ByteOffsetMonotone(buf, cursor - c + 1, cursor);
      }
      byteIndex := byteIndex + 1;
      BoundaryAfter(buf, cursor - c, byteIndex);
      if IsCharBoundary(bytes, byteIndex) {
        c := c - 1;
        if c > 0 {
          ByteOffsetMonotone(buf, cursor - c, cursor - c + 1);
        }
      }
    }
  }

  /** Replacing characters `i..j` by `t` replaces the bytes between their
      offsets by the encoding of `t`: inserting at `byte_index(cursor)` and
      removing the range `byte_index(i)..byte_index(j)` edit the characters
      the cursor designates. */
  lemma EncodeSplice(s: string, i: nat, j: nat, t: string)
    requires i <= j <= |s|
    ensures ByteOffset(s, i) <= ByteOffset(s, j) <= |Encode(s)|
    ensures Encode(s[..i] + t + s[j..]) == Encode(s)[..ByteOffset(s, i)] + Encode(t) + Encode(s)[ByteOffset(s, j)..]
  {
    SplitAtOffset(s, i);
    SplitAtOffset(s, j);
    if i < j {
      ByteOffsetMonotone(s, i, j);
    }
    EncodeAppend(s[..i] + t, s[j..]);
    EncodeAppend(s[..i], t);
  }

  /** The test buffer "aça": offsets 0, 1, 3 and four bytes in all. */
  lemma ByteOffsetExample()
    ensures ByteOffset("aça", 0) == 0
    ensures ByteOffset("aça", 1) == 1
    ensures ByteOffset("aça", 2) == 3
    ensures |Encode("aça")| == 4
  {
    var s := "aça";
    ByteOffsetStep(s, 0);
    ByteOffsetStep(s, 1);
    ByteOffsetStep(s, 2);
    assert s[..3] == s;
  }

  /** `String::remove(idx)`: removes the character whose encoding starts at
      byte `idx`; `None` stands for the panic when `idx` is the end of the
      string, beyond it, or inside a character. */
  function RemoveAtByte(s: string, idx: nat): (r: Option<string>)
    ensures r.Some? ==> |r.value| + 1 == |s|
  {
    if s == [] then None
    else if idx == 0 then Some(s[1..])
    else if idx < Utf8Len(s[0]) then None
    else match RemoveAtByte(s[1..], idx - Utf8Len(s[0]))
      case None => None
      case Some(t) => Some([s[0]] + t)
  }

  /** Dropping the first character shifts every later offset by its length. */
  lemma OffsetAfterFirst(s: string, k: nat)
    requires 1 <= k <= |s|
    ensures ByteOffset(s, k) == Utf8Len(s[0]) + ByteOffset(s[1..], k - 1)
  {
    assert s[..k][0] == s[0];
    assert s[..k][1..] == s[1..][..k - 1];
  }

  /** At the offset of character `k`, `String::remove` removes exactly that
      character. */
  lemma {:induction false} RemoveAtOffset(s: string, k: nat)
    requires k < |s|
    ensures RemoveAtByte(s, ByteOffset(s, k)) == Some(s[..k] + s[k + 1..])
  {
    if k == 0 {
      assert s[..0] + s[1..] == s[1..];
    } else {
      OffsetAfterFirst(s, k);
      RemoveAtOffset(s[1..], k - 1);
      assert [s[0]] + (s[1..][..k - 1] + s[1..][k..]) == s[..k] + s[k + 1..];
    }
  }

  /** In an ASCII string every character is one byte, so offsets are indices. */
  lemma AsciiOffset(s: string, k: nat)
    requires k <= |s|
    requires forall i :: 0 <= i < |s| ==> s[i] as int < 0x80
    ensures ByteOffset(s, k) == k
    ensures |Encode(s)| == |s|
  {
    EncodedLength(s);
    assert forall i :: 0 <= i < k ==> s[..k][i] == s[i];
    EncodedLength(s[..k]);
  }
}
