/** Buffer sizes and the JustFloat frame layout: each channel's four native
    bytes in calling order, then the four-byte tail. */
module Frames {
  import opened CTypes

  const MaxChannels: nat := 10
  const MaxPrefixLen: nat := 32
  /** `sizeof(float)`. */
  const FloatSize: nat := 4
  /** The JustFloat frame tail `00 00 80 7F`. */
  const FrameTail: seq<u8> := [0x00, 0x00, 0x80, 0x7F]
  /** 44 bytes: room for MaxChannels floats and the tail. */
  const JustFloatBufferSize: nat := MaxChannels * FloatSize + |FrameTail|
  /** 72 characters: the FireWater text buffer. */
  const FireWaterBufferSize: nat := MaxPrefixLen + MaxChannels * FloatSize

  /** One channel value as the four bytes `memcpy` copies; their layout
      (the platform's `float` representation) is left opaque. */
  type Float32 = b: seq<u8> | |b| == 4 witness [0, 0, 0, 0]

  /** The bytes of the channel array in memory, as `memcpy` reads them. */
  function Flatten(channels: seq<Float32>): (bytes: seq<u8>)
    ensures |bytes| == FloatSize * |channels|
  {
    if channels == [] then [] else channels[0] + Flatten(channels[1..])
  }

  /** Channel i occupies bytes 4i .. 4i+3 of the copy, in its own byte order. */
  lemma {:induction false} FlattenAt(channels: seq<Float32>, i: nat)
    requires i < |channels|
    ensures Flatten(channels)[FloatSize * i..FloatSize * i + FloatSize] == channels[i]
  {
    if i > 0 {
      FlattenAt(channels[1..], i - 1);
      var rest := Flatten(channels[1..]);
      assert Flatten(channels)[FloatSize * i..FloatSize * i + FloatSize]
          == rest[FloatSize * (i - 1)..FloatSize * (i - 1) + FloatSize];
    }
  }

  /** A JustFloat frame: the channels' bytes, then the tail. */
  function JustFloatFrame(channels: seq<Float32>): (frame: seq<u8>)
    ensures |frame| == FloatSize * |channels| + |FrameTail|
    ensures |channels| <= MaxChannels ==> |frame| <= JustFloatBufferSize
  {
    Flatten(channels) + FrameTail
  }

  /** The tail word read little-endian. */
  function LittleEndianWord(b: Float32): nat
  {
    b[0] as int + 0x100 * b[1] as int + 0x1_0000 * b[2] as int + 0x100_0000 * b[3] as int
  }

  /** Read little-endian, the tail is 0x7F800000: as an IEEE 754 binary32
      value its exponent field is all ones and its fraction is zero, the
      pattern of positive infinity. */
  lemma TailIsInfinity()
    ensures LittleEndianWord(FrameTail) == 0x7F80_0000
    ensures LittleEndianWord(FrameTail) / 0x80_0000 == 0xFF
    ensures LittleEndianWord(FrameTail) % 0x80_0000 == 0
  {
  }

  /** How a receiver splits a JustFloat byte stream into one frame: 4-byte
      channels up to the tail word, which must end the bytes. */
  function SplitFrame(bytes: seq<u8>): Option<seq<Float32>>
    decreases |bytes|
  {
    if |bytes| < 4 then None
    else if bytes[..4] == FrameTail then (if |bytes| == 4 then Some([]) else None)
    else
      match SplitFrame(bytes[4..])
      case None => None
      case Some(rest) => Some([bytes[..4]] + rest)
  }

  /** Splitting a JustFloat frame gives back its channels, provided no
      channel's bytes equal the tail (a channel holding that very bit
      pattern would end the frame early). */
  lemma {:induction false} SplitJustFloat(channels: seq<Float32>)
    requires forall i :: 0 <= i < |channels| ==> channels[i] != FrameTail
    ensures SplitFrame(JustFloatFrame(channels)) == Some(channels)
  {
    if channels != [] {
      var rest := JustFloatFrame(channels[1..]);
      FrameCons(channels);
      SplitCons(channels[0], rest);
      SplitJustFloat(channels[1..]);
      assert [channels[0]] + channels[1..] == channels;
    }
  }

  /** A frame of one or more channels is the first channel's bytes followed
      by the frame of the others. */
  lemma FrameCons(channels: seq<Float32>)
    requires channels != []
    ensures JustFloatFrame(channels) == channels[0] + JustFloatFrame(channels[1..])
  {
    assert Flatten(channels) == channels[0] + Flatten(channels[1..]);
  }

  /** A leading word other than the tail is split off as a channel. */
  lemma SplitCons(head: Float32, rest: seq<u8>)
    requires head != FrameTail
    ensures SplitFrame(head + rest) ==
      match SplitFrame(rest)
      case None => None
      case Some(r) => Some([head] + r)
  {
    var bytes := head + rest;
    assert bytes[..4] == head;
    assert bytes[4..] == rest;
  }

  /** Conversely, whatever splits into channels is exactly the JustFloat frame
      of those channels, and none of them is the tail. */
  lemma {:induction false} SplitOnlyJustFloat(bytes: seq<u8>, channels: seq<Float32>)
    requires SplitFrame(bytes) == Some(channels)
    ensures bytes == JustFloatFrame(channels)
    ensures forall i :: 0 <= i < |channels| ==> channels[i] != FrameTail
    decreases |bytes|
  {
    if bytes[..4] == FrameTail {
      assert bytes == FrameTail;
    } else {
      var rest := SplitFrame(bytes[4..]).value;
      SplitOnlyJustFloat(bytes[4..], rest);
      assert channels == [bytes[..4]] + rest;
      assert channels[1..] == rest;
      assert bytes == bytes[..4] + bytes[4..];
    }
  }
}
