# kit-kat core in Dafny

kit-kat renders an animated cat clock: a static body with a swinging tail,
shifting eyes and three clock hands, composited into a pixel buffer once per
tick. This project models its core logic apart from the floating-point
drawing. Its three parts follow `src/main.rs`:

- **Colour** (`colour.dfy`): `from_u8_rgb` packs three `u8` channels into the
  `u32` word the frame buffer uses, and defines the named colours. Words are
  bounded integers in the model, and `FromU8Rgb` computes the positional sum
  `r * 2^16 + g * 2^8 + b`. `ShiftOrIsPositionalSum` shows that on real
  32-bit words the source's shift-and-OR equals the same sum computed in
  32-bit words, which never wraps.
- **Packed bitmaps** (`packed_bitmap.dfy`, `encoder.dfy`):
  - `pixel_width_to_bits_width` gives the bytes per padded row.
  - `bits_to_bytes` decodes one-bit-per-pixel rows, least-significant bit
    first, into black and white pixels.
  - The decoder's two loops are modelled step for step:
    - `BytePixels`/`ByteCount` model the inner loop with its early `break`.
    - `UnpackFrom` models the outer loop with its running column counter.
  - The layout theorem (`UnpackRows`, `Decode`) says that a well-formed bitmap
    of `height` rows decodes to `width * height` pixels. Pixel (r, c) comes
    from bit `c % 8` of byte `r * RowBytes(width) + c / 8`.
  - Padding bits never matter (`PaddingIgnored`).
  - `Encoder.Encode` is the decoder's inverse. It is proved to be a two-sided
    inverse on black-and-white images and on bitmaps whose padding is clear.
- **Scheduler** (`scheduler.dfy`): the per-tick state of `main`'s loop becomes
  a `TickState` record: the ping-pong frame cursor `(i, up)`, `prev_i`, and
  the `passed_seconds`/`minutes` counters. A pure `Step` advances it.
  - The test "has at least one second passed since the last tick that
    counted one" becomes a boolean parameter, `secondDetected`.
  - A run of the loop is a sequence of such booleans.
  - The cursor is proved equal to a closed-form reference walk (`CursorAt`)
    with period exactly `2 * len`.
  - Every frame index the loop reads stays in range.
  - From any valid state the counters grow, modulo one hour, by the number
    of ticks on which a second was detected. From start-up they hold one
    minute plus the seconds detected after the first tick (`ClockFromStart`).

`Arith` (`arith.dfy`) holds small facts about Euclidean division that the
proofs share.

Two behaviours of the loop are easy to misread:
- **Boundary frames.** The cursor does not move on the tick where it turns
  round, so the end frames `len-1` and `0` are each shown on two consecutive
  ticks (`BoundaryFramesRepeat`). The period is therefore `2 * len` ticks and
  not `2 * len - 2`.
- **First tick.** `passed_seconds` starts at 60, so the first tick always
  rolls the counter over. The minute shown moves from 0 to 1 whether or not a
  second was detected (`FirstTick`, `MinutesFromStart`).

## Model

| member | source | states |
|---|---|---|
| Colour.FromU8Rgb | src/main.rs:33-36 | packing three `u8` channels gives a pixel word that fits in 24 bits |
| Colour.ShiftOrIsPositionalSum | src/main.rs:33-36 | on 32-bit words the shift-and-OR of the three channels equals `r*2^16 + g*2^8 + b` computed in 32-bit words, and that sum is below `2^24`, so it never wraps |
| Colour.ChannelsOfFromU8Rgb | src/main.rs:33-36 | the red, green and blue bytes extract back from a packed pixel unchanged |
| Colour.FromU8RgbInjective | src/main.rs:33-36 | distinct channel triples pack to distinct pixels |
| Colour.ChannelsRoundTrip | src/main.rs:33-36 | every 24-bit pixel is the packing of its own channels |
| Colour.NamedColours | src/main.rs:37-40 | `BLACK` is 0 and the packing of (0,0,0); `WHITE`, `AZURE_BLUE` and `RED` are 0xFFFFFF, 0x007FFF and 0x9D250A; black and white differ |
| PackedBitmap.RowBytes | src/main.rs:51-54 | a row of `width` pixels takes the least number of bytes whose bits cover it (`8n >= width > 8n - 8`); it is zero only for width 0 |
| PackedBitmap.BitSet | src/main.rs:61 | rotating a byte right by `n < 8` and masking bit 0 tests bit `n`, as `(b >> n) & 1` does |
| PackedBitmap.PixelOf | src/main.rs:61-65 | a bit becomes a black or a white pixel, black exactly when bit `n` of the byte is set |
| PackedBitmap.ByteCount | src/main.rs:60-70 | the column counter stays below `width` through the inner loop (for width > 0) |
| PackedBitmap.BytePixels | src/main.rs:60-70 | the inner loop pushes at most the remaining bits of a byte, bit `n + j` as pixel `j`, black iff set |
| PackedBitmap.ByteWithinRow | src/main.rs:60-70 | if the row does not end in the byte's remaining bits, all of them are pushed and the counter advances by their number (always so for width 0) |
| PackedBitmap.ByteEndsRow | src/main.rs:66-70 | if the row ends in the byte, exactly the row's remaining pixels are pushed, the padding bits are skipped and the counter resets to 0 |
| PackedBitmap.CountAfter | src/main.rs:58-72 | the counter carried across bytes stays below `width` |
| PackedBitmap.BitsToBytes | src/main.rs:56-74 | for any input, every pixel is `BLACK` or `WHITE`; at most eight come from each byte; with width 0 every bit of every byte becomes a pixel |
| PackedBitmap.UnpackFrom | src/main.rs:59-72 | the outer loop pushes only black and white pixels, at most eight per byte |
| PackedBitmap.UnpackAllBits | src/main.rs:66-70 | with width 0 the counter never matches, so the output has exactly `8 * len` pixels |
| PackedBitmap.CountAfterConcat | src/main.rs:58-72 | the counter after two runs of bytes is the counter after the second, started where the first left off |
| PackedBitmap.UnpackConcat | src/main.rs:58-72 | decoding a concatenation is decoding each part in turn, the second started from the counter the first left |
| PackedBitmap.UnpackRowTail | src/main.rs:58-72 | the last bytes of a row decode to exactly the row's remaining pixels, in bit order, and reset the counter to 0 |
| PackedBitmap.UnpackRows | src/main.rs:56-74 | `height` padded rows decode to exactly `width * height` pixels. Pixel (r, c) is the colour of bit `c % 8` of byte `r * RowBytes(width) + c / 8`. The counter ends at 0 |
| PackedBitmap.Decode | src/main.rs:42-74 | a bitmap whose byte count matches its padded rows decodes to `width * height` pixels; pixel (r, c) is black iff its bit is set |
| PackedBitmap.PaddingIgnored | src/main.rs:66-70 | bitmaps that agree on every visible pixel's bit decode to the same image, whatever their padding bits hold |
| Encoder.PackByteBits | src/main.rs:61 | bit `n` of a packed byte is the `n`-th pixel bit, and clear past the last one: least-significant bit first, the order the decoder reads |
| Encoder.EncodeLayout | src/main.rs:56-74 | the encoder puts pixel (r, c) at bit `c % 8` of byte `r * RowBytes(width) + c / 8`, set iff the pixel is black |
| Encoder.DecodeEncode | src/main.rs:56-74 | decoding the encoding of a black-and-white image gives the image back |
| Encoder.EncodePaddingClear | src/main.rs:51-74 | `Encode`, the reference inverse of the decoder, fills each row's `RowBytes(width)` bytes and leaves clear every padding bit, the bits the decoder skips at the end of a row |
| Encoder.EncodeDecode | src/main.rs:56-74 | encoding the decoding of a well-formed bitmap whose padding is clear gives the bitmap back |
| Scheduler.Advance | src/main.rs:646-658 | a cursor in range stays in range and moves by at most one; it moves iff the direction is kept; the direction flips exactly at the last frame going up and at frame 0 going down |
| Scheduler.CursorAt | src/main.rs:593-595 | the reference walk's index is always a valid frame index |
| Scheduler.AdvanceCursorAt | src/main.rs:646-658 | one cursor step is one step along the reference walk |
| Scheduler.TicksFromStart | src/main.rs:593-595 | from `i = 0, up = true` the cursor after `k` ticks is the reference walk at `k` |
| Scheduler.CursorAtInjective | src/main.rs:646-658 | within one period the walk never repeats a (frame, direction) state |
| Scheduler.CursorAtPhase | src/main.rs:646-658 | every valid cursor lies on the walk |
| Scheduler.TicksAlongWalk | src/main.rs:646-658 | `k` ticks from walk position `p` reach walk position `p + k` |
| Scheduler.CursorPeriod | src/main.rs:646-658 | from any valid cursor, exactly `2 * len` ticks return to it and no smaller positive number of ticks does |
| Scheduler.BoundaryFramesRepeat | src/main.rs:646-658 | frame `len-1` is shown at ticks `len-1` and `len`, and frame 0 at ticks `2len-1` and `2len` |
| Scheduler.ClockTick | src/main.rs:614-633 | the seconds counter stays below 60 and the minute below 60. The minute changes iff the counter reaches 60, and then becomes `(minutes + 1) mod 60` with the counter reset to 0. Otherwise the counter just counts the detected second |
| Scheduler.ClockTickCounts | src/main.rs:614-637 | from valid counters a tick keeps them valid and adds the detected second to `minutes*60 + passed_seconds`, modulo one hour |
| Scheduler.FirstTick | src/main.rs:601-602 | the first tick moves the minute from 0 to 1 and resets the counter, whether or not a second was detected |
| Scheduler.Initial | src/main.rs:593-602 | the start-up state satisfies the loop invariant for every frame count, and its primed seconds counter makes the first tick roll over to minute 1 with the counter at 0, whether or not a second is detected |
| Scheduler.Step | src/main.rs:604-610 | a tick records the frame it showed as `prev_i`, leaves the seconds counter below 60 and keeps the cursor in range |
| Scheduler.Run | src/main.rs:603-667 | after `k` ticks the cursor has advanced `k` times, `prev_i` is the frame shown on the last tick, and the seconds counter is below 60 |
| Scheduler.StepPreservesInv | src/main.rs:604-658 | a tick keeps both frame indices the loop reads in range and the counters in their ranges |
| Scheduler.RunInv | src/main.rs:593-610 | every state the loop reaches from start-up keeps `tails_frames[i]`, `eyes_frames[i]` and `eyes_frames[prev_i]` in range, with the cursor on the reference walk |
| Scheduler.RunCounts | src/main.rs:614-637 | over any run from valid counters, `minutes*60 + passed_seconds` grows by the number of ticks on which a second was detected, modulo one hour |
| Scheduler.RunAppend | src/main.rs:603-667 | running two stretches of ticks in turn is running them together |
| Scheduler.ClockFromStart | src/main.rs:601-637 | after the first tick the counters are valid and hold 60 plus the number of later ticks on which a second was detected, modulo one hour |
| Scheduler.MinutesFromStart | src/main.rs:601-637 | the minute shown is one past the whole minutes of detected seconds after the first tick, wrapping at 60 |
| Scheduler.TailAnimation | src/main.rs:151 | over the 10 frames built at start-up, every index the loop reads is below 10, and the animation repeats every 20 ticks and no sooner |

## Left out

- Window creation, key polling, `update_with_buffer` and the 100 ms sleep
  (src/main.rs:529-546, 603, 660-666). These are I/O done through `minifb` and
  the thread API.
- The monotonic and wall clocks (`Instant`, `SystemTime`). The monotonic clock
  only decides whether a second has passed, and that test is the boolean
  `secondDetected` of `Step`. The wall-clock seconds feed only the second
  hand's angle.
- Drift against the wall clock. On a tick that detects a second, the loop
  moves its reference time to that tick (src/main.rs:616), so the fraction
  of a second beyond the first is lost: a gap of 2.5 s counts once, and each
  counted second lasts at least one second plus whatever part of the next
  100 ms tick it took to notice it. The counters therefore fall behind wall
  time. The model counts detected seconds exactly and promises nothing about
  wall time.
- The pixmap generators `create_tail_pixmap`, `create_eye_pixmap` and
  `create_eye_pixmap2`, and the hand fractions `seconds / 60.0`,
  `minutes / 60.0` and `hour / 12.0` (src/main.rs:165-412, 625, 636, 642).
  These are `f64` trigonometry and projection with truncating casts.
- Compositing and hand drawing: the `Image` type and its `draw`/`clear`, and
  `draw_second`. `src/image.rs`, `src/draw.rs` and `src/hands.rs` are not part
  of this model. The loop's draw calls are the drawing this model leaves out.
- The bitmap asset data pulled in with `include!` (src/main.rs:106-149). Their
  bytes are data, and `Decode` covers every well-formed bitmap.
- The commented-out `Bitmap::draw` and the other commented-out code
  (src/main.rs:77-103, 414-507). None of it is compiled.
- Scheduler.ClockTick: `minutes` is a `u8` in the source, and `minutes += 1`
  would overflow at 255. The model's minutes are unbounded. The overflow
  cannot happen, because the minute stays below 60 (`StepPreservesInv`,
  `RunInv`).
- Colour.FromU8Rgb: computed as the positional sum on integers, not as a
  32-bit shift-and-OR. `ShiftOrIsPositionalSum` proves, on 32-bit words, that
  the shift-and-OR equals the same sum computed in 32-bit words and that this
  sum never wraps. No lemma converts that 32-bit value to an integer and
  compares it with `FromU8Rgb`.
