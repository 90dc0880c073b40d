/** The text layout of the FireWater Descriptor path: the optional prefix,
    then each channel's rendering followed by "," or, after the last, "\n",
    written through a cursor (`pBuffer`) and an 8-bit remaining-space
    counter (`RemainingSize`) into the 72-character text buffer.

    The cursor arithmetic is given for two policies. As written, the byte
    count `WrittenSize` is what `snprintf` returned, reduced to 8 bits;
    clamped, it is the number of characters `snprintf` actually stored.
    They agree whenever every render fits. */
module Descriptor {
  import opened CTypes
  import opened CLib
  import opened Frames

  /** The text for channel i of count: its `%f` rendering, then "," or,
      for the last channel, "\n". */
  function Piece(values: seq<CText>, count: nat, i: nat): (p: seq<char>)
    requires i < count <= |values|
    ensures |p| == |values[i]| + 1
    ensures p[..|values[i]|] == values[i]
    ensures p[|values[i]|] == if i == count - 1 then '\n' else ','
  {
    values[i] + (if i == count - 1 then "\n" else ",")
  }

  /** The pieces of channels 0 .. i-1, in order. */
  function Joined(values: seq<CText>, count: nat, i: nat): seq<char>
    requires i <= count <= |values|
  {
    if i == 0 then [] else Joined(values, count, i - 1) + Piece(values, count, i - 1)
  }

  /** The line the Descriptor path is meant to send:
      `prefix v0,v1,...,v(count-1)\n`. */
  function Line(prefix: CText, values: seq<CText>, count: nat): seq<char>
    requires count <= |values|
  {
    prefix + Joined(values, count, count)
  }

  /** The prefix that is written: none for NULL or for an empty string. */
  function PrefixText(prefix: Option<CText>): CText
  {
    if prefix.Some? then prefix.value else []
  }

  /** `pBuffer` as an offset into the text buffer, and `RemainingSize`. */
  datatype Cursor = Cursor(off: int, remaining: u8)

  const Start: Cursor := Cursor(0, FireWaterBufferSize)

  /** `WrittenSize = snprintf(pBuffer, RemainingSize, ...)` returned n;
      then `pBuffer += WrittenSize; RemainingSize -= WrittenSize;`. */
  function Advance(c: Cursor, n: nat, clamped: bool): Cursor
  {
    var written: u8 := if clamped then Stored(c.remaining, n) else ToU8(n);
    Cursor(c.off + written, ToU8(c.remaining - written))
  }

  /** The cursor once the prefix (if any) has been written. */
  function AfterPrefix(prefix: CText, clamped: bool): Cursor
  {
    if prefix == [] then Start else Advance(Start, |prefix|, clamped)
  }

  /** From channel i on, starting at cursor c, every `snprintf` of the loop
      stores its characters and its NUL inside the buffer. */
  predicate LoopSafe(c: Cursor, values: seq<CText>, count: nat, i: nat, clamped: bool)
    requires i <= count <= |values|
    decreases count - i
  {
    || i == count
    || c.remaining <= 1
    || (&& FitsAt(FireWaterBufferSize, c.off, c.remaining, |Piece(values, count, i)|)
        && LoopSafe(Advance(c, |Piece(values, count, i)|, clamped), values, count, i + 1, clamped))
  }

  /** Every write of the Descriptor path stays inside the 72-character
      buffer. (The prefix write, at offset 0 with size 72, always does.) */
  predicate Safe(prefix: CText, values: seq<CText>, count: nat, clamped: bool)
    requires count <= |values|
  {
    LoopSafe(AfterPrefix(prefix, clamped), values, count, 0, clamped)
  }

  /** No `snprintf` of the path returns 256 or more, so converting its result
      to `uint8_t` loses nothing. */
  predicate NoWrap(prefix: CText, values: seq<CText>, count: nat)
    requires count <= |values|
  {
    |prefix| < 256 && forall i :: 0 <= i < count ==> |values[i]| < 255
  }

  /** The buffer after the loop has run from channel i on at cursor c: it
      stops at the end of the channels or, early, once at most one character
      of room remains. */
  function LoopBuffer(buf: seq<char>, c: Cursor, values: seq<CText>, count: nat, i: nat, clamped: bool): (r: seq<char>)
    requires |buf| == FireWaterBufferSize && i <= count <= |values|
    requires LoopSafe(c, values, count, i, clamped)
    ensures |r| == FireWaterBufferSize
    decreases count - i
  {
    if i == count || c.remaining <= 1 then buf
    else
      var p := Piece(values, count, i);
      LoopBuffer(Formatted(buf, c.off, c.remaining, p), Advance(c, |p|, clamped), values, count, i + 1, clamped)
  }

  /** The text buffer after the Descriptor path has written the prefix and
      the channels into buf. */
  function DescriptorBuffer(buf: seq<char>, prefix: CText, values: seq<CText>, count: nat, clamped: bool): (r: seq<char>)
    requires |buf| == FireWaterBufferSize && count <= |values|
    requires Safe(prefix, values, count, clamped)
    ensures |r| == FireWaterBufferSize
  {
    var b := if prefix == [] then buf else Formatted(buf, 0, FireWaterBufferSize, prefix);
    LoopBuffer(b, AfterPrefix(prefix, clamped), values, count, 0, clamped)
  }

  // ---------------------------------------------------------------------
  // Properties of the layout

  /** The pieces joined so far are a prefix of the whole line. */
  lemma {:induction false} JoinedGrows(values: seq<CText>, count: nat, i: nat, j: nat)
    requires i <= j <= count <= |values|
    ensures |Joined(values, count, i)| <= |Joined(values, count, j)|
    ensures Joined(values, count, j)[..|Joined(values, count, i)|] == Joined(values, count, i)
    decreases j
  {
    if i < j {
      JoinedGrows(values, count, i, j - 1);
    }
  }

  /** Each piece adds its own length; the pieces so far are no longer than
      all of them. */
  lemma {:induction false} JoinedLength(values: seq<CText>, count: nat, i: nat, j: nat)
    requires 0 < i <= j <= count <= |values|
    ensures |Joined(values, count, i)| == |Joined(values, count, i - 1)| + |Piece(values, count, i - 1)|
    ensures |Joined(values, count, i)| <= |Joined(values, count, j)|
    decreases j
  {
    if i < j {
      JoinedLength(values, count, i, j - 1);
    }
  }

  /** The joined pieces hold no NUL: strlen does not stop inside them. */
  lemma {:induction false} JoinedNulFree(values: seq<CText>, count: nat, i: nat)
    requires i <= count <= |values|
    ensures NUL !in Joined(values, count, i)
    decreases i
  {
    if i > 0 {
      JoinedNulFree(values, count, i - 1);
    }
  }

  /** Once at most one character of room is left, the loop appends nothing. */
  lemma FullBufferStops(buf: seq<char>, c: Cursor, values: seq<CText>, count: nat, i: nat, clamped: bool)
    requires |buf| == FireWaterBufferSize && i <= count <= |values|
    requires c.remaining <= 1
    ensures LoopSafe(c, values, count, i, clamped)
    ensures LoopBuffer(buf, c, values, count, i, clamped) == buf
  {
  }

  /** The loop only ever adds NULs' worth of termination: a buffer that held
      a C string still holds one. */
  lemma {:induction false} LoopKeepsNul(buf: seq<char>, c: Cursor, values: seq<CText>, count: nat, i: nat, clamped: bool)
    requires |buf| == FireWaterBufferSize && i <= count <= |values|
    requires LoopSafe(c, values, count, i, clamped)
    requires NUL in buf
    ensures NUL in LoopBuffer(buf, c, values, count, i, clamped)
    decreases count - i
  {
    if !(i == count || c.remaining <= 1) {
      var p := Piece(values, count, i);
      FormattedHasNul(buf, c.off, c.remaining, p);
      LoopKeepsNul(Formatted(buf, c.off, c.remaining, p), Advance(c, |p|, clamped), values, count, i + 1, clamped);
    }
  }

  /** After the Descriptor path, the buffer still holds a C string. */
  lemma DescriptorKeepsNul(buf: seq<char>, prefix: CText, values: seq<CText>, count: nat, clamped: bool)
    requires |buf| == FireWaterBufferSize && count <= |values|
    requires Safe(prefix, values, count, clamped)
    requires NUL in buf
    ensures NUL in DescriptorBuffer(buf, prefix, values, count, clamped)
  {
    var b := if prefix == [] then buf else Formatted(buf, 0, FireWaterBufferSize, prefix);
    FormattedHasNul(buf, 0, FireWaterBufferSize, prefix);
    LoopKeepsNul(b, AfterPrefix(prefix, clamped), values, count, 0, clamped);
  }

  /** What the buffer holds once the text s (the prefix and the first pieces)
      has gone through the cursor c: all of s with the cursor just after it
      (so offset + remaining == 72), or, once s no longer fits, the first 71
      characters of s and a cursor that allows no further write inside the
      buffer. `pending` says that nothing has been written yet. */
  ghost predicate Progress(buf: seq<char>, c: Cursor, s: seq<char>, pending: bool)
    requires |buf| == FireWaterBufferSize
  {
    if |s| < FireWaterBufferSize then
      && c == Cursor(|s|, FireWaterBufferSize - |s|)
      && buf[..|s|] == s
      && (pending || buf[|s|] == NUL)
    else
      && (c.off >= FireWaterBufferSize || c.remaining <= 1)
      && buf[..FireWaterBufferSize - 1] == s[..FireWaterBufferSize - 1]
      && buf[FireWaterBufferSize - 1] == NUL
  }

  /** One `snprintf` of piece p at a cursor in agreement with the text s
      leaves the buffer in agreement with s + p. */
  lemma ProgressStep(buf: seq<char>, c: Cursor, s: seq<char>, pending: bool, p: seq<char>, clamped: bool)
    requires |buf| == FireWaterBufferSize && |s| < FireWaterBufferSize
    requires Progress(buf, c, s, pending) && c.remaining > 1 && |p| > 0
    requires clamped || |p| < 256
    ensures FitsAt(FireWaterBufferSize, c.off, c.remaining, |p|)
    ensures Progress(Formatted(buf, c.off, c.remaining, p), Advance(c, |p|, clamped), s + p, false)
  {
    var r := Formatted(buf, c.off, c.remaining, p);
    var k := Stored(c.remaining, |p|);
    FormattedLayout(buf, c.off, c.remaining, p);
    assert r[..|s|] == s;
    assert r[|s|..|s| + k] == p[..k];
    assert r[..|s| + k] == r[..|s|] + r[|s|..|s| + k];
    if |p| < c.remaining {
      assert (s + p)[..|s| + k] == s + p;
    } else {
      assert (s + p)[..|s| + k] == s + p[..k];
      assert |s| + k == FireWaterBufferSize - 1;
    }
  }

  /** A buffer in agreement with a text s that is the whole line, or that
      fills the buffer, holds the line cut to 71 characters as its C string. */
  lemma ProgressText(buf: seq<char>, c: Cursor, s: seq<char>, line: seq<char>)
    requires |buf| == FireWaterBufferSize && Progress(buf, c, s, false)
    requires NUL !in s
    requires |s| <= |line| && line[..|s|] == s
    requires s == line || |s| >= FireWaterBufferSize - 1
    ensures NUL in buf && TextOf(buf) == line[..Min(|line|, FireWaterBufferSize - 1)]
  {
    if |s| < FireWaterBufferSize {
      TextOfStored(buf, s);
    } else {
      assert line[..FireWaterBufferSize - 1] == s[..FireWaterBufferSize - 1];
      assert NUL !in s[..FireWaterBufferSize - 1] by {
        assert forall x | x in s[..FireWaterBufferSize - 1] :: x in s;
      }
      TextOfStored(buf, s[..FireWaterBufferSize - 1]);
    }
  }

  /** One round of the loop keeps the buffer in agreement with the text so far. */
  lemma LoopStep(buf: seq<char>, c: Cursor, prefix: CText, values: seq<CText>, count: nat, i: nat, clamped: bool)
    requires |buf| == FireWaterBufferSize && i < count <= |values|
    requires c.remaining > 1 && LoopSafe(c, values, count, i, clamped)
    requires clamped || |values[i]| < 255
    requires var s := prefix + Joined(values, count, i);
      Progress(buf, c, s, s == [])
    ensures var p := Piece(values, count, i);
      var s' := prefix + Joined(values, count, i + 1);
      s' != [] && Progress(Formatted(buf, c.off, c.remaining, p), Advance(c, |p|, clamped), s', false)
  {
    var s := prefix + Joined(values, count, i);
    var p := Piece(values, count, i);
    JoinedNext(prefix, values, count, i);
    OpenCursorFits(buf, c, s, s == [], |p|);
    ProgressStep(buf, c, s, s == [], p, clamped);
  }

  /** The text after channel i is the text before it followed by its piece. */
  lemma JoinedNext(prefix: CText, values: seq<CText>, count: nat, i: nat)
    requires i < count <= |values|
    ensures prefix + Joined(values, count, i + 1) == (prefix + Joined(values, count, i)) + Piece(values, count, i)
  {
  }

  /** A cursor that still allows a write inside the buffer is one whose text
      has not yet reached the end of the buffer. */
  lemma OpenCursorFits(buf: seq<char>, c: Cursor, s: seq<char>, pending: bool, n: nat)
    requires |buf| == FireWaterBufferSize && Progress(buf, c, s, pending)
    requires c.remaining > 1 && FitsAt(FireWaterBufferSize, c.off, c.remaining, n)
    ensures |s| < FireWaterBufferSize
  {
  }

  /** Where the loop stops, the text so far is the whole line or fills the
      buffer, and the buffer's C string is the line cut to 71 characters. */
  lemma LoopDone(buf: seq<char>, c: Cursor, prefix: CText, values: seq<CText>, count: nat, i: nat)
    requires |buf| == FireWaterBufferSize && i <= count <= |values|
    requires i == count || c.remaining <= 1
    requires var s := prefix + Joined(values, count, i);
      Progress(buf, c, s, s == [] && i < count)
    ensures var line := Line(prefix, values, count);
      NUL in buf && TextOf(buf) == line[..Min(|line|, FireWaterBufferSize - 1)]
  {
    var s := prefix + Joined(values, count, i);
    var line := Line(prefix, values, count);
    JoinedGrows(values, count, i, count);
    JoinedNulFree(values, count, i);
    assert line[..|s|] == s;
    ProgressText(buf, c, s, line);
  }

  /** The loop from channel i on turns a buffer in agreement with the text so
      far into one whose C string is the line, cut to 71 characters. */
  lemma {:induction false} LoopText(buf: seq<char>, c: Cursor, prefix: CText, values: seq<CText>, count: nat, i: nat, clamped: bool)
    requires |buf| == FireWaterBufferSize && i <= count <= |values|
    requires LoopSafe(c, values, count, i, clamped)
    requires clamped || forall j :: 0 <= j < count ==> |values[j]| < 255
    requires var s := prefix + Joined(values, count, i);
      Progress(buf, c, s, s == [] && i < count)
    ensures var out := LoopBuffer(buf, c, values, count, i, clamped);
      var line := Line(prefix, values, count);
      NUL in out && TextOf(out) == line[..Min(|line|, FireWaterBufferSize - 1)]
    decreases count - i
  {
    if i == count || c.remaining <= 1 {
      LoopDone(buf, c, prefix, values, count, i);
    } else {
      var p := Piece(values, count, i);
      LoopStep(buf, c, prefix, values, count, i, clamped);
      LoopText(Formatted(buf, c.off, c.remaining, p), Advance(c, |p|, clamped), prefix, values, count, i + 1, clamped);
    }
  }

  /** The prefix write leaves the buffer in agreement with the prefix. */
  lemma PrefixProgress(buf: seq<char>, prefix: CText, clamped: bool)
    requires |buf| == FireWaterBufferSize && prefix != []
    requires clamped || |prefix| < 256
    ensures Progress(Formatted(buf, 0, FireWaterBufferSize, prefix), AfterPrefix(prefix, clamped), prefix, false)
  {
    var r := Formatted(buf, 0, FireWaterBufferSize, prefix);
    var k := Stored(FireWaterBufferSize, |prefix|);
    FormattedLayout(buf, 0, FireWaterBufferSize, prefix);
    assert r[..k] == prefix[..k];
  }

  /** The Descriptor path sends the line it means to send, cut to the 71
      characters the buffer can hold, whenever its writes stay inside the
      buffer and no render returns 256 or more; and it always does under the
      clamped policy. (With no prefix and no channels nothing is written and
      the buffer's earlier content is sent again.) */
  lemma DescriptorText(buf: seq<char>, prefix: CText, values: seq<CText>, count: nat, clamped: bool)
    requires |buf| == FireWaterBufferSize && count <= |values|
    requires prefix != [] || count > 0
    requires Safe(prefix, values, count, clamped)
    requires clamped || NoWrap(prefix, values, count)
    ensures var out := DescriptorBuffer(buf, prefix, values, count, clamped);
      var line := Line(prefix, values, count);
      NUL in out && TextOf(out) == line[..Min(|line|, FireWaterBufferSize - 1)]
  {
    assert prefix + Joined(values, count, 0) == prefix;
    if prefix == [] {
      LoopText(buf, Start, prefix, values, count, 0, clamped);
    } else {
      PrefixProgress(buf, prefix, clamped);
      LoopText(Formatted(buf, 0, FireWaterBufferSize, prefix), AfterPrefix(prefix, clamped), prefix, values, count, 0, clamped);
    }
  }

  /** What the Descriptor path, as written, leaves in the buffer: always a C
      string; with neither prefix nor channels, the old buffer untouched;
      without wrap-around, the line cut to 71 characters; and, when it fits,
      the whole line. */
  lemma DescriptorSends(buf: seq<char>, prefix: CText, values: seq<CText>, count: nat)
    requires |buf| == FireWaterBufferSize && count <= |values| && NUL in buf
    requires Safe(prefix, values, count, false)
    ensures var out := DescriptorBuffer(buf, prefix, values, count, false);
      var line := Line(prefix, values, count);
      && NUL in out
      && (prefix == [] && count == 0 ==> out == buf)
      && ((prefix != [] || count > 0) && NoWrap(prefix, values, count) ==>
           TextOf(out) == line[..Min(|line|, FireWaterBufferSize - 1)])
      && ((prefix != [] || count > 0) && |line| < FireWaterBufferSize ==> TextOf(out) == line)
  {
    DescriptorKeepsNul(buf, prefix, values, count, false);
    if prefix != [] || count > 0 {
      if NoWrap(prefix, values, count) {
        DescriptorText(buf, prefix, values, count, false);
      }
      if |Line(prefix, values, count)| < FireWaterBufferSize {
        WholeLineSent(buf, prefix, values, count);
      }
    }
  }

  // ---------------------------------------------------------------------
  // As written: when the line fits, and where the wrap-around bites

  /** While every render fits, offset + RemainingSize == 72 holds at each
      round, so no write leaves the buffer. */
  lemma {:induction false} FitsLoopSafe(c: Cursor, prefix: CText, values: seq<CText>, count: nat, i: nat)
    requires i <= count <= |values| && |Line(prefix, values, count)| < FireWaterBufferSize
    requires c.off == |prefix| + |Joined(values, count, i)| && c.off + c.remaining == FireWaterBufferSize
    ensures LoopSafe(c, values, count, i, false)
    decreases count - i
  {
    if i < count && c.remaining > 1 {
      var n := |Piece(values, count, i)|;
      JoinedLength(values, count, i + 1, count);
      var c' := Advance(c, n, false);
      assert c' == Cursor(c.off + n, c.remaining - n);
      FitsLoopSafe(c', prefix, values, count, i + 1);
    }
  }

  /** When the whole line fits in the buffer with its NUL, the source's own
      cursor arithmetic keeps every write inside the buffer, no render wraps,
      and exactly the line is sent. */
  lemma WholeLineSent(buf: seq<char>, prefix: CText, values: seq<CText>, count: nat)
    requires |buf| == FireWaterBufferSize && count <= |values|
    requires prefix != [] || count > 0
    requires |Line(prefix, values, count)| < FireWaterBufferSize
    ensures Safe(prefix, values, count, false) && NoWrap(prefix, values, count)
    ensures var out := DescriptorBuffer(buf, prefix, values, count, false);
      NUL in out && TextOf(out) == Line(prefix, values, count)
  {
    JoinedGrows(values, count, 0, count);
    FitsLoopSafe(AfterPrefix(prefix, false), prefix, values, count, 0);
    forall j | 0 <= j < count
      ensures |values[j]| < 255
    {
      JoinedGrows(values, count, j + 1, count);
    }
    DescriptorText(buf, prefix, values, count, false);
  }

  /** As written, a prefix whose length modulo 256 is more than 72 moves the
      cursor past the end of the buffer while `RemainingSize` wraps around to
      a value above 1, so the first channel's `snprintf` writes outside the
      buffer. */
  lemma LongPrefixOverruns(prefix: CText, values: seq<CText>, count: nat)
    requires 0 < count <= |values|
    requires FireWaterBufferSize < |prefix| % 256
    ensures AfterPrefix(prefix, false).off > FireWaterBufferSize
    ensures AfterPrefix(prefix, false).remaining > 1
    ensures !Safe(prefix, values, count, false)
  {
  }

  /** As written, a piece that `snprintf` has to cut short, with another
      channel after it, moves the cursor past the end of the buffer while
      `RemainingSize` wraps around to a value above 1, so the next channel's
      `snprintf` writes outside the buffer. */
  lemma CutPieceOverruns(c: Cursor, values: seq<CText>, count: nat, i: nat)
    requires i + 1 < count <= |values|
    requires 0 <= c.off && c.off + c.remaining == FireWaterBufferSize && c.remaining > 1
    requires c.remaining < |Piece(values, count, i)| < 256
    ensures Advance(c, |Piece(values, count, i)|, false).off > FireWaterBufferSize
    ensures Advance(c, |Piece(values, count, i)|, false).remaining > 1
    ensures !LoopSafe(c, values, count, i, false)
  {
  }

  // ---------------------------------------------------------------------
  // Corrected: WrittenSize clamped to the characters snprintf stored

  lemma {:induction false} ClampedLoopSafe(c: Cursor, values: seq<CText>, count: nat, i: nat)
    requires i <= count <= |values|
    requires 0 <= c.off && c.off + c.remaining == FireWaterBufferSize
    ensures LoopSafe(c, values, count, i, true)
    decreases count - i
  {
    if i < count && c.remaining > 1 {
      ClampedLoopSafe(Advance(c, |Piece(values, count, i)|, true), values, count, i + 1);
    }
  }

  /** With the clamped cursor update every input keeps its writes inside the
      buffer, and what is sent is the line cut to the 71 characters that fit:
      graceful truncation, as the design intends. */
  lemma ClampedText(buf: seq<char>, prefix: CText, values: seq<CText>, count: nat)
    requires |buf| == FireWaterBufferSize && count <= |values|
    requires prefix != [] || count > 0
    ensures Safe(prefix, values, count, true)
    ensures var out := DescriptorBuffer(buf, prefix, values, count, true);
      var line := Line(prefix, values, count);
      NUL in out && TextOf(out) == line[..Min(|line|, FireWaterBufferSize - 1)]
  {
    ClampedLoopSafe(AfterPrefix(prefix, true), values, count, 0);
    DescriptorText(buf, prefix, values, count, true);
  }

  // ---------------------------------------------------------------------
  // Examples

  /** Three channels after a prefix: `prefix a,b,c\n`, whatever the
      renderings (for instance `ch:1.000000,2.500000,-3.250000\n`). */
  lemma ThreeChannelLine(prefix: CText, a: CText, b: CText, c: CText)
    ensures Line(prefix, [a, b, c], 3) == prefix + a + "," + b + "," + c + "\n"
  {
    var values := [a, b, c];
    assert Joined(values, 3, 1) == a + ",";
    assert Joined(values, 3, 2) == a + "," + b + ",";
    assert Joined(values, 3, 3) == a + "," + b + "," + c + "\n";
  }

  /** Ten channels each rendered as "100.000000": the seventh piece is cut
      short and the eighth is written past the end of the buffer. */
  lemma TenChannelsOverrun()
    ensures !Safe([], seq(10, _ => "100.000000"), 10, false)
  {
  }
}
