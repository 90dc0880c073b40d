/** The Vofa+ telemetry sender: two static buffers, the UART handle set by
    `VOFA_Init`, and the three send paths. The TX DMA channel's readiness
    (`HAL_DMA_GetState(...) == HAL_DMA_STATE_READY`) is the field `dmaReady`,
    which only the environment changes; each call of `HAL_UART_Transmit_DMA`
    is recorded in the ghost log `log`. */
module Vofa {
  import opened CTypes
  import opened CLib
  import opened Frames
  import opened Descriptor

  /** The UART the module sends on (the `UART_HandleTypeDef` it points to). */
  datatype Uart = Uart(id: nat)

  /** One call of `HAL_UART_Transmit_DMA`: the handle it was given (None for
      NULL) and the bytes it was asked to send. */
  datatype Transmission =
    | Binary(uart: Option<Uart>, bytes: seq<u8>)
    | Text(uart: Option<Uart>, text: seq<char>)

  /** What `vsnprintf` makes of a FireWater template and its arguments: the
      rendered characters, or an encoding error (a negative return). */
  datatype Render = Rendered(text: seq<char>) | RenderError

  class Transmitter {
    /** `JustFloatDMATransmitBuffer`. */
    const justFloatBuffer: array<u8>
    /** `FireWaterDMATransmitBuffer`. */
    const fireWaterBuffer: array<char>
    /** `SenderHUART`. */
    var sender: Option<Uart>
    /** Whether the TX DMA channel is ready for a new transfer. */
    var dmaReady: bool
    /** Every transmission handed to the UART, oldest first. */
    ghost var log: seq<Transmission>

    /** Both buffers have their fixed sizes, and the text buffer holds a C
        string (`strlen` on it stays inside it). */
    ghost predicate Valid()
      reads this, fireWaterBuffer
    {
      && justFloatBuffer.Length == JustFloatBufferSize
      && fireWaterBuffer.Length == FireWaterBufferSize
      && NUL in fireWaterBuffer[..]
    }

    /** The module's static state at start-up: zeroed buffers, a NULL
        handle, an idle DMA channel and nothing sent. */
    constructor ()
      ensures Valid() && fresh(justFloatBuffer) && fresh(fireWaterBuffer)
      ensures justFloatBuffer[..] == seq(JustFloatBufferSize, _ => 0)
      ensures fireWaterBuffer[..] == seq(FireWaterBufferSize, _ => NUL)
      ensures sender == None && dmaReady && log == []
    {
      justFloatBuffer := new u8[JustFloatBufferSize](_ => 0);
      fireWaterBuffer := new char[FireWaterBufferSize](_ => NUL);
      sender := None;
      dmaReady := true;
      log := [];
      new;
      assert fireWaterBuffer[..][0] == NUL;
    }

    /** `VOFA_Init`: stores the UART handle and nothing else. */
    method Init(huart: Option<Uart>)
      modifies this`sender
      ensures sender == huart
    {
      sender := huart;
    }

    /** `VOFA_Transmit_JustFloat`: sends the first `count` channels of the
        frame followed by the tail, or returns false (0) and changes nothing
        when the handle or the frame is NULL, the count is 0 or above
        MaxChannels, or the DMA channel is busy. */
    method TransmitJustFloat(frame: Option<seq<Float32>>, count: u8) returns (ok: bool)
      requires Valid()
      requires frame.Some? && 0 < count <= MaxChannels ==> count <= |frame.value|
      modifies justFloatBuffer, this`log
      ensures Valid()
      ensures ok == (sender.Some? && frame.Some? && 0 < count <= MaxChannels && dmaReady)
      ensures ok ==>
        var bytes := JustFloatFrame(frame.value[..count]);
        && |bytes| == FloatSize * count + |FrameTail| <= JustFloatBufferSize
        && justFloatBuffer[..|bytes|] == bytes
        && justFloatBuffer[|bytes|..] == old(justFloatBuffer[|bytes|..])
        && log == old(log) + [Binary(sender, bytes)]
      ensures !ok ==> justFloatBuffer[..] == old(justFloatBuffer[..]) && log == old(log)
    {
      if sender.None? || frame.None? || count == 0 || count > MaxChannels {
        return false;
      }
      if !dmaReady {
        return false;
      }
      var channels := frame.value[..count];
      var dataSize := count * FloatSize;
      Memcpy(justFloatBuffer, 0, Flatten(channels));
      Memcpy(justFloatBuffer, dataSize, FrameTail);
      var totalSize := dataSize + |FrameTail|;
      assert justFloatBuffer[..totalSize] == JustFloatFrame(channels);
      log := log + [Binary(sender, justFloatBuffer[..totalSize])];
      ok := true;
    }

    /** `VOFA_Transmit_FireWater`: renders the template into the text buffer
        and sends exactly the rendered characters, or returns false (0)
        without sending when the handle or the template is NULL, the
        template is empty, the DMA channel is busy, rendering fails, or the
        rendering needs 72 characters or more. Only the first three leave
        the buffer untouched: a rendering that is too long has already been
        stored, cut to 71 characters. */
    method TransmitFireWater(format: Option<CText>, render: Render) returns (ok: bool)
      requires Valid()
      modifies fireWaterBuffer, this`log
      ensures Valid()
      ensures ok == (&& sender.Some? && format.Some? && format.value != [] && dmaReady
                     && render.Rendered? && |render.text| < FireWaterBufferSize)
      ensures (sender.Some? && format.Some? && format.value != [] && dmaReady && render.Rendered?) ==>
        fireWaterBuffer[..] == Formatted(old(fireWaterBuffer[..]), 0, FireWaterBufferSize, render.text)
      ensures !(sender.Some? && format.Some? && format.value != [] && dmaReady && render.Rendered?) ==>
        fireWaterBuffer[..] == old(fireWaterBuffer[..])
      ensures ok ==> fireWaterBuffer[..|render.text|] == render.text && log == old(log) + [Text(sender, render.text)]
      ensures !ok ==> log == old(log)
    {
      if sender.None? || format.None? || format.value == [] {
        return false;
      }
      if !dmaReady {
        return false;
      }
      var length: int;
      if render.Rendered? {
        length := Snprintf(fireWaterBuffer, 0, FireWaterBufferSize, render.text);
        FormattedHasNul(old(fireWaterBuffer[..]), 0, FireWaterBufferSize, render.text);
      } else {
        length := -1;
      }
      if length < 0 || length >= FireWaterBufferSize {
        return false;
      }
      log := log + [Text(sender, fireWaterBuffer[..length])];
      ok := true;
    }

    /** `VOFA_Transmit_FireWater_Descriptor`: writes the prefix (unless NULL
        or empty) and the channels' renderings through the cursor, stopping
        once at most one character of room is left, and sends the buffer's C
        string. It consults neither the DMA channel nor the handle (a NULL
        handle is passed on to the UART) and always returns true (1).
        The caller supplies each `frame[i]` already rendered by `%f`, and
        the inputs must keep every write inside the buffer (`Safe`). */
    method TransmitFireWaterDescriptor(prefix: Option<CText>, values: seq<CText>, count: u8) returns (ok: bool)
      requires Valid()
      requires count <= |values|
      requires Safe(PrefixText(prefix), values, count, false)
      modifies fireWaterBuffer, this`log
      ensures Valid()
      ensures ok
      ensures fireWaterBuffer[..] == DescriptorBuffer(old(fireWaterBuffer[..]), PrefixText(prefix), values, count, false)
      ensures log == old(log) + [Text(sender, TextOf(fireWaterBuffer[..]))]
      ensures PrefixText(prefix) == [] && count == 0 ==> fireWaterBuffer[..] == old(fireWaterBuffer[..])
      ensures (PrefixText(prefix) != [] || count > 0) && NoWrap(PrefixText(prefix), values, count) ==>
        var line := Line(PrefixText(prefix), values, count);
        TextOf(fireWaterBuffer[..]) == line[..Min(|line|, FireWaterBufferSize - 1)]
      ensures (PrefixText(prefix) != [] || count > 0) && |Line(PrefixText(prefix), values, count)| < FireWaterBufferSize ==>
        TextOf(fireWaterBuffer[..]) == Line(PrefixText(prefix), values, count)
    {
      ghost var before := fireWaterBuffer[..];
      ghost var text := PrefixText(prefix);
      var off: int := 0;
      var remainingSize: u8 := FireWaterBufferSize;
      var writtenSize: u8 := 0;
      if prefix.Some? && prefix.value != [] {
        var n := Snprintf(fireWaterBuffer, off, remainingSize, prefix.value);
        writtenSize := ToU8(n);
        off := off + writtenSize;
        remainingSize := ToU8(remainingSize - writtenSize);
      }
      assert Cursor(off, remainingSize) == AfterPrefix(text, false);
      assert fireWaterBuffer[..] == if text == [] then before else Formatted(before, 0, FireWaterBufferSize, text);
      assert LoopSafe(Cursor(off, remainingSize), values, count, 0, false);
      for i := 0 to count
        modifies fireWaterBuffer
        invariant LoopSafe(Cursor(off, remainingSize), values, count, i, false)
        invariant LoopBuffer(fireWaterBuffer[..], Cursor(off, remainingSize), values, count, i, false)
                  == DescriptorBuffer(before, text, values, count, false)
      {
        if remainingSize <= 1 {
          FullBufferStops(fireWaterBuffer[..], Cursor(off, remainingSize), values, count, i, false);
          break;
        }
        var piece := if i == count - 1 then values[i] + "\n" else values[i] + ",";
        assert piece == Piece(values, count, i);
        ghost var c, buf := Cursor(off, remainingSize), fireWaterBuffer[..];
        var n := Snprintf(fireWaterBuffer, off, remainingSize, piece);
        writtenSize := ToU8(n);
        off := off + writtenSize;
        remainingSize := ToU8(remainingSize - writtenSize);
        assert Cursor(off, remainingSize) == Advance(c, |piece|, false);
        assert fireWaterBuffer[..] == Formatted(buf, c.off, c.remaining, piece);
      }
      ghost var out := fireWaterBuffer[..];
      assert out == DescriptorBuffer(before, text, values, count, false);
      DescriptorSends(before, text, values, count);
      var totalSize := Strlen(fireWaterBuffer[..]);
      assert fireWaterBuffer[..totalSize] == TextOf(out);
      log := log + [Text(sender, fireWaterBuffer[..totalSize])];
      ok := true;
    }
  }

  /** A sender after start-up and `VOFA_Init`: a JustFloat frame goes out
      while the DMA channel is ready and is dropped once it is busy, while
      the Descriptor path sends regardless. */
  method BusyDropsFrames(huart: Uart, channels: seq<Float32>)
    requires 0 < |channels| <= MaxChannels
  {
    var t := new Transmitter();
    t.Init(Some(huart));
    var sent := t.TransmitJustFloat(Some(channels), |channels|);
    assert channels[..|channels|] == channels;
    assert sent && t.log == [Binary(Some(huart), JustFloatFrame(channels))];
    t.dmaReady := false;
    sent := t.TransmitJustFloat(Some(channels), |channels|);
    assert !sent && |t.log| == 1;
    FitsLoopSafe(AfterPrefix("ch:", false), "ch:", ["1.000000"], 1, 0);
    sent := t.TransmitFireWaterDescriptor(Some("ch:"), ["1.000000"], 1);
    assert sent && |t.log| == 2;
  }
}
