# Vofa+ telemetry sender, modelled in Dafny

The component sends telemetry frames from an STM32 to the Vofa+ host tool. It
keeps two static buffers, a 44-byte binary buffer and a 72-character text buffer,
plus a UART handle that `VOFA_Init` sets. It offers three send paths:

- **JustFloat** first checks that the handle is set, the frame is non-NULL, the count is 1..10 and the TX DMA channel is ready.
  It then copies `count * 4` channel bytes into the binary buffer, appends the tail `00 00 80 7F` and hands `count * 4 + 4` bytes to the UART.
- **FireWater** first checks that the handle is set, the template is non-NULL and non-empty, and the DMA is ready.
  It then renders the template with `vsnprintf` into the text buffer.
  It rejects the frame when the rendering failed or needs 72 characters or more; otherwise it hands exactly the rendered characters to the UART.
- **FireWater with descriptor** writes the optional prefix into the text buffer.
  It then writes each channel followed by `,`, or `\n` after the last one, through a cursor (`pBuffer`) and an 8-bit counter (`RemainingSize`).
  It stops once at most one character of room is left, then sends the buffer's C string (`strlen`).
  It never looks at the DMA state or the handle, and always returns 1.

Files, one module each:

- `ctypes.dfy` (`CTypes`): `uint8_t` and its modular conversion, and `Option` (a pointer that may be NULL).
- `clib.dfy` (`CLib`): `strlen`, the effect of `snprintf`/`vsnprintf` on a buffer (`Formatted`), and `memcpy`/`snprintf` as methods on arrays.
- `frames.dfy` (`Frames`): the size constants and the JustFloat frame layout.
  It also defines a receiver's split of a frame, which is the layout's inverse.
- `descriptor.dfy` (`Descriptor`): the Descriptor path as functions.
  These cover the cursor arithmetic, the condition under which every write stays in the buffer (`Safe`), the resulting buffer, and the theorems about what is sent.
- `vofa.dfy` (`Vofa`): class `Transmitter`, holding the two buffers as arrays, `sender` (the handle), `dmaReady` and a ghost `log` of transmissions.
  It implements the three send paths as methods.

How the model reads the source:

- **DMA readiness.** `HAL_DMA_GetState(SenderHUART->hdmatx) == HAL_DMA_STATE_READY` is the public field `dmaReady`, which only the environment assigns.
- **Transmit calls.** Each `HAL_UART_Transmit_DMA` call appends one entry to `log` with the handle it was given and the bytes it was asked to send.
- **Renderings.** `%f` renderings of `frame[i]` and whole `vsnprintf` renderings are inputs, given as already rendered characters (`values`, `render`).
- **Integer widths.** `WrittenSize` and `RemainingSize` keep their 8-bit type. `WrittenSize` is `snprintf`'s return value (the untruncated length) reduced modulo 256. `RemainingSize -= WrittenSize` wraps modulo 256.
- **Two cursor policies.** `Advance` takes a `clamped` flag. `false` is the code as written. `true` is the corrected update: advance by the characters `snprintf` actually stored.

Where the code and its documentation disagree, the model follows the code:

- `Vofa.h:56-58` says the Descriptor path returns 0 when the DMA is busy.
  The code (`Vofa.c:97-128`) sends regardless and returns 1; `TransmitFireWaterDescriptor` ensures `ok` whatever `dmaReady` is.
  `BusyDropsFrames` shows a JustFloat frame dropped while the DMA is busy, and a Descriptor frame sent anyway.
- The tail `00 00 80 7F`, read little-endian, is 0x7F800000. That is the binary32 pattern of positive infinity, not of a NaN (`TailIsInfinity`).
  A channel carrying exactly that pattern would end the frame early for a receiver, so `SplitJustFloat` needs it excluded.
- The text buffer is 72 characters, `MAX_PREFIX_LEN + MAX_CHANNELS * sizeof(float)`.
  That is room for `sizeof(float)` characters per channel, not for a rendered float, so ten typical channels do not fit.
- On FireWater overflow the frame is rejected, but the buffer has already been overwritten with the rendering cut to 71 characters. It is left unchanged only for the earlier rejections.
- With no prefix and no channels, the Descriptor path writes nothing and re-sends the stale C string already in the buffer.
- The Descriptor path passes a NULL handle on to the UART call; the log records `None`.

## Model

| member | source | states |
|---|---|---|
| CTypes.ToU8 | Vofa.c:104-106 | assigning an `int` to `uint8_t` keeps values 0..255; a value in -256..-1 wraps to itself plus 256 |
| CLib.Strlen | Vofa.c:125 | `strlen` returns the index of the first NUL: in range, a NUL there and none before it |
| CLib.TextOf | Vofa.c:125-127 | the C string a buffer holds is NUL-free, shorter than the buffer, and followed by a NUL |
| CLib.TextOfStored | Vofa.c:125 | a NUL-free text stored at the start and followed by a NUL is exactly the buffer's C string |
| CLib.FormattedLayout | Vofa.c:79 | `snprintf`/`vsnprintf` with size n store the first min(len, n-1) characters and a NUL, and leave the rest of the buffer unchanged; size 0 leaves the whole buffer unchanged |
| CLib.FormattedHasNul | Vofa.c:79 | after a `snprintf` with a non-zero size the buffer holds a NUL |
| CLib.Snprintf | Vofa.c:114-118 | the array becomes `Formatted` of its old contents, and the result is the untruncated length |
| CLib.Memcpy | Vofa.c:53-54 | bytes `off .. off+len` become the source bytes; all others are unchanged |
| Frames.FlattenAt | Vofa.c:53 | the copied bytes are 4 per channel, in channel order: bytes 4i .. 4i+3 are channel i |
| Frames.JustFloatFrame | Vofa.c:51-56 | a frame of `count` channels is `4*count + 4` bytes long, so at most 44 bytes for at most 10 channels |
| Frames.TailIsInfinity | Vofa.c:19 | the tail read little-endian is 0x7F800000: exponent all ones, fraction zero |
| Frames.SplitJustFloat | Vofa.c:51-58 | a receiver splitting a JustFloat frame gets the channels back, when no channel equals the tail |
| Frames.SplitOnlyJustFloat | Vofa.c:51-58 | whatever splits into channels is the JustFloat frame of those channels, and none of them equals the tail |
| Descriptor.Piece | Vofa.c:113-119 | channel i renders as its value followed by `\n` if it is the last, `,` otherwise |
| Descriptor.JoinedGrows | Vofa.c:109-123 | the text built after i channels is a prefix of the text built after j >= i channels |
| Descriptor.JoinedLength | Vofa.c:109-123 | each channel adds the length of its piece, and the text after i channels is no longer than after j >= i |
| Descriptor.JoinedNulFree | Vofa.c:114-125 | the rendered channels hold no NUL, so `strlen` does not stop inside them |
| Descriptor.FullBufferStops | Vofa.c:110-111 | once `RemainingSize <= 1` the loop writes nothing more |
| Descriptor.LoopKeepsNul | Vofa.c:109-123 | the loop keeps a NUL in the buffer |
| Descriptor.DescriptorKeepsNul | Vofa.c:99-125 | after the prefix and the loop the buffer still holds a C string, so `strlen` stays inside it |
| Descriptor.ProgressStep | Vofa.c:114-122 | one `snprintf` and cursor update keep the buffer and cursor in agreement with the text so far; while it fits, offset + `RemainingSize` == 72 |
| Descriptor.LoopStep | Vofa.c:109-123 | one loop round extends the agreed text by that channel's piece |
| Descriptor.ProgressText | Vofa.c:125 | once the loop is done, the buffer's C string is the line cut to 71 characters |
| Descriptor.LoopDone | Vofa.c:109-125 | where the loop stops (all channels written, or at most one character of room left) the text so far is the whole line or fills the buffer, so the C string is the line cut to 71 characters |
| Descriptor.LoopText | Vofa.c:109-125 | the loop turns a buffer in agreement with the text so far into one whose C string is the whole line cut to 71 characters |
| Descriptor.PrefixProgress | Vofa.c:103-107 | writing the prefix leaves the buffer and cursor in agreement with the prefix |
| Descriptor.DescriptorText | Vofa.c:97-127 | if all writes stay in the buffer, no render returns 256 or more, and there is a prefix or a channel, the text sent is `prefix v0,...,v(n-1)\n` cut to 71 characters (graceful truncation) |
| Descriptor.DescriptorSends | Vofa.c:97-127 | as written, and for inputs whose writes stay in the buffer: the buffer still holds a C string; with neither prefix nor channels it is unchanged; without wrap-around its C string is the line cut to 71 characters; and it is the whole line when that is under 72 characters |
| Descriptor.FitsLoopSafe | Vofa.c:99-122 | while every render fits, offset + `RemainingSize` == 72 at each round and no write leaves the buffer |
| Descriptor.WholeLineSent | Vofa.c:97-127 | when the whole line is under 72 characters, every write stays in the buffer without wrap-around and exactly the line is sent |
| Descriptor.LongPrefixOverruns | Vofa.c:103-118 | as written, a prefix with length mod 256 above 72 puts the cursor past the buffer with `RemainingSize` > 1, so the first channel's write leaves the buffer |
| Descriptor.CutPieceOverruns | Vofa.c:113-122 | as written, a channel cut short by `snprintf` with another channel after it puts the cursor past the buffer with `RemainingSize` > 1, so the next write leaves the buffer |
| Descriptor.TenChannelsOverrun | Vofa.c:109-122 | ten channels each rendered `100.000000`, without a prefix, make a write leave the buffer |
| Descriptor.ClampedLoopSafe | Vofa.c:109-123 | with the clamped update, offset + `RemainingSize` == 72 at every round, for all inputs |
| Descriptor.ClampedText | Vofa.c:97-127 | with the clamped update every input stays in the buffer, and the text sent is the line cut to 71 characters |
| Descriptor.ThreeChannelLine | Vofa.c:113-119 | a prefix and three channels rendered `a`, `b`, `c` give the line `prefix a,b,c\n` (for instance `ch:1.000000,2.500000,-3.250000\n`) |
| Vofa.Transmitter.constructor | Vofa.c:25-27 | the static buffers start zeroed, the handle NULL, and nothing has been sent |
| Vofa.Transmitter.Init | Vofa.c:33-35 | `VOFA_Init` stores the handle |
| Vofa.Transmitter.TransmitJustFloat | Vofa.c:41-60 | returns 1 iff the handle and frame are non-NULL, 1 <= count <= 10 and the DMA is ready; then sends the JustFloat frame of the first `count` channels (at most 44 bytes) and leaves the rest of the buffer unchanged; otherwise it changes nothing and sends nothing |
| Vofa.Transmitter.TransmitFireWater | Vofa.c:66-91 | returns 1 iff the handle is set, the template is non-empty, the DMA is ready and the rendering succeeded with under 72 characters; then sends exactly the rendered characters. A handle, template or DMA rejection leaves the buffer unchanged; an overlong rendering is stored cut to 71 characters and not sent |
| Vofa.Transmitter.TransmitFireWaterDescriptor | Vofa.c:97-129 | always returns 1 and sends the buffer's C string whatever the DMA state or handle. The buffer is the Descriptor layout of the prefix and channels. With neither prefix nor channels the old text is re-sent. Without wrap-around the line is sent cut to 71 characters, and whole when it fits |

## Findings

| source | as written | input that shows it | evidently intended | confidence | as-written member | corrected member |
|---|---|---|---|---|---|---|
| Vofa.c:103-107 | `WrittenSize` is `snprintf`'s untruncated length; after a truncated prefix, `pBuffer += WrittenSize` passes the buffer end and `RemainingSize -= WrittenSize` wraps to a large value | a 73-character prefix and one channel: cursor at 73, `RemainingSize` 255, and the channel's `snprintf` writes past the 72-character buffer | advance by the characters actually stored, so the cursor stays inside the buffer and the line is cut at 71 characters | high; not executed | Descriptor.LongPrefixOverruns | Descriptor.ClampedText |
| Vofa.c:113-122 | the same update after a truncated channel, when more channels follow | no prefix and ten channels each rendered `100.000000`: the seventh is cut short, the cursor moves to 77, `RemainingSize` wraps to 251, and the eighth channel is written past the buffer | advance by the characters actually stored | high; not executed | Descriptor.TenChannelsOverrun | Descriptor.ClampedText |

`Transmitter.TransmitFireWaterDescriptor` follows the code as written and admits only inputs that keep every write inside the buffer (`Safe`). The corrected update is the same set of functions with `clamped` set to true.

## Left out

- `HAL_DMA_GetState` and `HAL_UART_Transmit_DMA` are vendor calls. They are only the `dmaReady` field and the `log`; the model does not make the DMA busy after a transmission, nor model its completion or the link.
- `%f` rendering of floats and `vsnprintf`'s interpretation of the template and its variadic arguments are left out as floating-point formatting and C varargs. Their output is an input of the methods: `values`, `render`.
- The byte layout of a C `float` is opaque: a channel is its 4 native bytes (`Float32`), and no IEEE arithmetic is modelled.
- The contents of the text buffer after a `vsnprintf` encoding error are unspecified in C; the model leaves the buffer unchanged. A rendering longer than `INT_MAX` is not modelled.
- Races between the main loop and interrupt handlers on the static buffers are concurrency and out of scope; calls are single-context.
- The linker and toolchain notes in `Vofa.h:42-45` are build configuration.
- Vofa.Transmitter.TransmitFireWaterDescriptor: requires `Safe`, i.e. that every write stays inside the buffer. Inputs where the source writes past the buffer are undefined behaviour in C and outside the method. They are characterised instead by `LongPrefixOverruns`, `CutPieceOverruns` and `TenChannelsOverrun`. Forming a pointer past one-past-the-end without writing through it is not counted as a fault.
- Vofa.Transmitter.TransmitFireWaterDescriptor: takes the channels already rendered and at least `count` of them. A NULL `frame` with a non-zero count, which the source would dereference, cannot be expressed.
- Vofa.Transmitter.TransmitJustFloat: requires that a non-NULL frame the call reads actually holds `count` channels, as C requires of the pointer.
- The `uint16_t` sizes (`Datasize`, `TotalSize`) are not modelled as 16-bit, because they never exceed 44 and 71.
