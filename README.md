# UTF-8 helpers of the lite editor, in Dafny

This project models `src/api/utf8.c` of the lite text editor (the emekoi fork). That file holds small UTF-8 helpers for C strings, plus the Lua bindings built on them. The model covers the following:

- `utf8_decode`: reads one codepoint. It has a replacement policy for malformed input and a per-length minimum that rejects overlong forms.
- `utf8_encode` and `utf8_size`: write the UTF-8 form of one codepoint, and report how many bytes that form takes.
- `utf8_len`: counts the codepoints of a buffer.
- `utf16_encode` and `utf8_widen`: convert to UTF-16 code units.
- The scanning loops of the Lua functions `utf8.sub` and `utf8.reverse`.

A C string is modelled as a sequence of bytes (`Codec.Byte`). A virtual NUL terminator is read at index |s|. The address the decoder returns becomes an offset. It is |s| + 1 in two cases: a truncated sequence consumed the terminator, or decoding started at |s| itself and read the terminator as U+0000.

A buffer is *well-formed* (`Scan.WellFormed`) when each decoding step consumes exactly the encoding of a value up to 0x10FFFF and the steps end at |s|. Neither the decoder nor the encoder treats surrogates specially, so encoded surrogates such as ED A0 80 count as well-formed here. Wherever the model says "values up to 0x10FFFF" (`Scan.AllAtMostMax`), surrogates are included.

The modules follow the file:

| Module | File | Models |
|---|---|---|
| `Codec` | `codec.dfy` | decode, encode, size |
| `Utf16` | `utf16.dfy` | `utf16_encode` |
| `Scan` | `scan.dfy` | `utf8_len`, decoding step by step, and well-formed buffers |
| `Slicing` | `slicing.dfy` | `utf8.sub` |
| `Widening` | `widening.dfy` | `utf8_widen`, and the buffer `utf8.show` widens into and shows |
| `Reversal` | `reversal.dfy` | `utf8.reverse` |
| `Examples` | `examples.dfy` | concrete cases |

Each loop of the source is a `method` with a `while` loop. Its contract ties it to a recursive specification function, and lemmas about that function state what the operation promises:

| Method | Specification function |
|---|---|
| `DecodeAt` | `Decode` |
| `Utf8Len` | `Length` |
| `Utf8Sub` | `Substring` |
| `Utf8Widen` | `Widen` |
| `ReverseInto` and `Utf8Reverse` | `Reversed` |

The in-place writes of `utf8_encode` and `utf16_encode` into a caller's buffer are methods on arrays: `EncodeInto` and `Utf16Into`.

### Where the model follows the code rather than its usual description

- **The decoder has no range check.** Leading bytes 0xF8-0xFF take the 4-byte path with their low three bits. Values above 0x10FFFF decode as they are, and so do surrogates. U+FFFD comes from a stray continuation byte in lead position, an overlong form, or a broken or truncated sequence, besides a genuine EF BF BD.
- **The encoder round-trips surrogates.** It maps only values above 0x10FFFF to U+FFFD. So the round trip holds for every value up to 0x10FFFF, surrogates included.
- **A negative start in `utf8.sub` is off by one.** It becomes the 0-based index `l + start - 1`, one lower than the `l + start` of Lua's `string.sub`. So `sub("héllo", -2, -1)` is "llo", not "lo".
- **A start past the last codepoint is never met by the scan.** With an end past it as well, the slice then starts at byte 0: `sub("abc", 5, 10)` is "abc", not the empty string. With a negative end, such as the binding's default of -1, the end index is at most the last codepoint, so the crossed-bounds exit returns "": `sub("abc", 5)` is "".
- **A start of 0 is never met either.** It becomes index -1, so the slice starts at byte 0. With an end of 0 the end index is -1 too, which the scan never reaches: `sub(s, 0, 0)` is the whole string.
- **A very negative bound is never met either.** When l + start - 1 is below 0, the slice starts at byte 0. When l + end is below 0 as well, the end is never reached and the slice runs to the end of the string: `sub("abc", -10, -5)` is "abc", where Lua's `string.sub` gives "".
- **An end past the last codepoint runs to the end of the string.** `sub("héllo", 2, 10)` is "éllo".
- **A truncated final sequence makes the scan stop one byte past the end.** The pushed slice then includes the NUL terminator.
- **`utf8.reverse` advances its output index by `utf8_size` of the decoded value, not by the bytes consumed.** On malformed input the two differ. There the loop can write before the start of its buffer, or decode past the terminator. `Reversal.Fits` names the inputs on which neither happens. Every well-formed buffer is one of them.
- **`utf8.show` allocates too little and prints from the wrong place.** Its `utf8_len`-sized wide buffer can be smaller than the output of `utf8_widen`, which needs up to twice `utf8_len` units. It also prints from the address `utf8_widen` returns, which is just past the last unit written. See "## Findings".

## Model

| member | source | states |
|---|---|---|
| Codec.ContinuationMask | src/api/utf8.c:21-22 | for every 8-bit value, the bit-vector test `(c & 0xC0) == 0x80` holds exactly for 0x80-0xBF, and `c & 0x3F` is then `c - 0x80` |
| Codec.Classify | src/api/utf8.c:14-18 | a byte below 0xC0 expects no continuation byte, keeping itself if ASCII and U+FFFD otherwise; any other byte expects 1 to 3, sets the minimum Minimum(extra + 1) of that length, and keeps bits that fit below Capacity(extra + 1) with the continuation bits |
| Codec.Minimum | src/api/utf8.c:14-16 | the `min` of an n-byte sequence: 0 for one byte, and for 2 to 4 bytes the first value too large for n - 1 bytes |
| Codec.ClassifyMasks | src/api/utf8.c:14-16 | for every 8-bit value, the bits Classify keeps from a leading byte are the bit-vector masks `c & 0x07`, `c & 0x0F` or `c & 0x1F` according to its range |
| Codec.Accumulate | src/api/utf8.c:19-23 | the continuation loop consumes no byte when `extra` is 0 and otherwise between 1 and `extra` bytes, never goes past the terminator, and gives U+FFFD whenever it consumes the terminator |
| Codec.Decode | src/api/utf8.c:10-26 | one decoding step consumes 1 to 4 bytes; an ASCII byte decodes to itself and a stray continuation byte to U+FFFD, each in one byte; passing the end happens only with U+FFFD, or when decoding starts at the terminator, which reads U+0000 |
| Codec.DecodeAt | src/api/utf8.c:10-26 | the decoder with its classification chain and continuation loop computes exactly Decode |
| Codec.ReadLead | src/api/utf8.c:14-18 | the classification chain sets the bits, the number of continuation bytes and the minimum that Classify gives the leading byte |
| Codec.ReadContinuations | src/api/utf8.c:19-23 | the `while (extra--)` loop ends where Accumulate says and with its value, U+FFFD after a byte that is not 10xxxxxx |
| Codec.Size | src/api/utf8.c:40-46 | the size is 1 to 4 bytes, and 3 (the size of U+FFFD) for any value above 0x10FFFF |
| Codec.Encode | src/api/utf8.c:29-38 | the encoder writes exactly Size(cp) bytes, and the bytes of U+FFFD for any value above 0x10FFFF |
| Codec.EncodeInto | src/api/utf8.c:29-38 | writing into a buffer puts Encode(cp) at the cursor, returns the cursor advanced by Size(cp), and leaves every other byte unchanged |
| Codec.DecodeForm | src/api/utf8.c:14-24 | the n-byte form of a value decodes to that value in n bytes, or to U+FFFD when the value is below the n-byte minimum |
| Codec.OverlongRejected | src/api/utf8.c:14-24 | an overlong form gives U+FFFD and still consumes its full nominal length |
| Codec.EncodeIsForm | src/api/utf8.c:29-38 | for a value up to 0x10FFFF the encoder writes the shortest form, whose length is Size and whose value is at least the decoder's minimum |
| Codec.DecodeEncoded | src/api/utf8.c:10-38 | wherever the encoding of a value up to 0x10FFFF stands in a buffer, decoding there yields the value and consumes Size(c) bytes |
| Codec.RoundTrip | src/api/utf8.c:10-46 | decode(encode(cp)) is cp in Size(cp) bytes for every value up to 0x10FFFF, surrogates included; above it, U+FFFD in 3 bytes |
| Codec.LeadNonzero | src/api/utf8.c:29-35 | only U+0000 is encoded with a leading zero byte |
| Codec.LeadMatchesSize | src/api/utf8.c:14-16 | the number of continuation bytes the decoder expects after the encoder's first byte is Size(cp) - 1 |
| Codec.BadContinuation | src/api/utf8.c:19-23 | resynchronisation: the first slot that holds a byte other than 10xxxxxx ends the sequence with U+FFFD after k + 1 bytes, the offending byte included |
| Codec.DecodeCanonical | src/api/utf8.c:10-26 | below 0xF8, any decoding to a value up to 0x10FFFF other than U+FFFD consumed exactly the encoding of that value |
| Utf16.Utf16Encode | src/api/utf8.c:61-69 | a value below 0x10000 is one unit equal to it; any other value gives a high surrogate followed by a low surrogate |
| Utf16.Utf16Into | src/api/utf8.c:61-69 | writing into a buffer puts Utf16Encode(cp) at the cursor, advances it by 1 or 2, and leaves every other unit unchanged |
| Utf16.SurrogatePairRoundTrip | src/api/utf8.c:63-67 | for 0x10000-0x10FFFF, the value of the pair written is cp itself |
| Utf16.PairWrapsAboveMax | src/api/utf8.c:64-66 | without a range check, cp + 0x100000 is written as the same pair as cp |
| Scan.Codepoints | src/api/utf8.c:53-56 | from an offset before the end, the decoding steps give between 1 and the number of remaining bytes codepoints; none at or past the end |
| Scan.Length | src/api/utf8.c:49-58 | the number of decoding steps from offset 0 until the cursor reaches or passes the end of the buffer, 0 for the empty buffer |
| Scan.Offset | src/api/utf8.c:53-56 | the cursor after k decoding steps from offset 0, which stops moving once it reaches or passes the end and never exceeds |s| + 1 |
| Scan.Utf8Len | src/api/utf8.c:49-58 | the counting loop returns Length(s), the number of decoding steps up to the end |
| Scan.LengthBounds | src/api/utf8.c:49-58 | the length is 0 exactly for the empty buffer and never exceeds the number of bytes |
| Scan.LengthIsLeastSteps | src/api/utf8.c:53-56 | the length is the least number of decoding steps that reaches or passes the end |
| Scan.OffsetStable | src/api/utf8.c:53-56 | once the end is passed, further steps leave the cursor where it is |
| Scan.OffsetMonotone | src/api/utf8.c:53-56 | the cursor never moves backwards |
| Scan.OffsetNext | src/api/utf8.c:53-56 | a decoding step taken from an offset before the end is one of the `utf8_len` steps, and lands where the decoder returned |
| Scan.OffsetAtEnd | src/api/utf8.c:53-56 | a cursor that has reached or passed the end after i steps means i is the length |
| Scan.CodepointsOfEncoded | src/api/utf8.c:10-38 | decoding the concatenated encodings of values up to 0x10FFFF gives the values back, in order |
| Scan.LengthOfEncoded | src/api/utf8.c:49-58 | `utf8_len` of the concatenated encodings of n values up to 0x10FFFF is n |
| Scan.OffsetOfEncoded | src/api/utf8.c:53-56 | on such a buffer, k decoding steps land where the encoding of the k-th value starts |
| Scan.WellFormedIsEncoded | src/api/utf8.c:10-38 | a buffer on which every decoding step consumes exactly the encoding of a value up to 0x10FFFF is the concatenation of the encodings of its codepoints |
| Scan.EncodedIsWellFormed | src/api/utf8.c:10-38 | conversely, every concatenation of encodings of values up to 0x10FFFF is well-formed |
| Slicing.First | src/api/utf8.c:108 | the 0-based index of the first codepoint kept: start - 1 for start >= 0, l + start - 1 for a negative start |
| Slicing.Last | src/api/utf8.c:109 | the 0-based index of the last codepoint kept: end - 1 for end >= 0, l + end for a negative end |
| Slicing.Substring | src/api/utf8.c:106-126 | the bytes `utf8.sub` returns: the length is taken only when a bound is negative, the bounds are normalised by First and Last, and the result is Cut of them; it is at most |s| + 1 bytes long |
| Slicing.Cut | src/api/utf8.c:112-126 | empty for crossed bounds; otherwise the bytes of s + [0] from where the scan records codepoint first (byte 0 if never) to where it stops after codepoint last (or at the end); at most |s| + 1 bytes |
| Slicing.Utf8Sub | src/api/utf8.c:106-126 | the normalisation, the early empty result and the scan loop compute exactly Substring |
| Slicing.SubScan | src/api/utf8.c:117-124 | the loop records the offset of codepoint `start` (byte 0 if it is never met) and stops just past codepoint `end`, or at the end of the buffer |
| Slicing.CutByOffsets | src/api/utf8.c:117-126 | the slice runs from where the scan recorded the start (byte 0 if never) to where it stopped, possibly one byte past the end |
| Slicing.SliceOfEncoded | src/api/utf8.c:117-126 | on concatenated encodings, the bytes between the offsets of steps i and j are the encodings of values i to j - 1 |
| Slicing.CutOfEncoded | src/api/utf8.c:117-126 | for any 0-based bounds first <= last, the slice is the encodings of values lo to hi - 1: lo is first if the scan reaches it and 0 otherwise, hi is last + 1 if the scan reaches last and the number of values otherwise |
| Slicing.SubOfEncoded | src/api/utf8.c:106-126 | with 1 <= start <= end <= length, `sub` gives the encodings of codepoints start to end inclusive |
| Slicing.SubNegative | src/api/utf8.c:107-109 | with 1 <= length + start and start <= end < 0, `sub` keeps codepoints from index length + start - 1 to length + end (0-based, inclusive): one more at the front than Lua's convention |
| Slicing.SubNegativeUnreached | src/api/utf8.c:107-124 | with start <= end < 0 and length + start < 1, the start is never reached and the slice starts at byte 0; it ends after codepoint length + end, or runs to the end of the string when length + end < 0 |
| Slicing.SubStartPastEnd | src/api/utf8.c:117-124 | with both bounds past the last codepoint and start <= end, the start is never reached and `sub` gives the whole string, not the empty one |
| Slicing.SubStartPastEndDefault | src/api/utf8.c:107-115 | with a negative end, a start past the last codepoint gives the empty string through the crossed-bounds exit, on any buffer |
| Slicing.SubEndPastEnd | src/api/utf8.c:117-124 | an end past the last codepoint is never reached, so the slice runs from codepoint start to the end of the string |
| Slicing.SubFromZero | src/api/utf8.c:106-124 | a start of 0 gives the slice from byte 0 up to codepoint end, and the whole string when end is 0 or past the last codepoint |
| Slicing.SubCrossed | src/api/utf8.c:112-115 | with 0 <= end < start, the result is empty whatever the buffer |
| Widening.Utf16All | src/api/utf8.c:61-69 | the UTF-16 form of n codepoints has between n and 2n units |
| Widening.Widen | src/api/utf8.c:72-79 | the units widening writes from an offset: it stops at |s| or at a zero byte in lead position, so a NUL consumed as a bad continuation byte does not stop it (C3 00 41 widens to U+FFFD, U+0041) |
| Widening.Utf8Widen | src/api/utf8.c:72-79 | the widening loop writes exactly Widen(s, 0) from index 0, returns its length and leaves the rest of the buffer unchanged |
| Widening.WidenWithoutNul | src/api/utf8.c:72-79 | on a buffer without zero bytes, widening is the UTF-16 form of all its decoded codepoints, U+FFFD included |
| Widening.WidenLength | src/api/utf8.c:72-79 | without zero bytes, the number of units lies between `utf8_len` and twice it |
| Widening.WidenOfEncoded | src/api/utf8.c:72-79 | widening the UTF-8 form of nonzero values up to 0x10FFFF gives their UTF-16 form |
| Widening.WidenAtMostTwice | src/api/utf8.c:72-79 | on any buffer, widening writes at most two units per decoding step |
| Widening.WidenNonzero | src/api/utf8.c:72-79 | no unit written by widening is zero |
| Widening.ShowUnitsAsWritten | src/api/utf8.c:135 | the number of wide characters `f_utf8_show` allocates: `utf8_len(str, len)` units, at most one per byte and none only for the empty string |
| Widening.ShowBuffer | src/api/utf8.c:135-137 | the zeroed wide buffer after `utf8_widen` has written into it: Widen(s, 0) followed by zero units up to the allocated count |
| Widening.ShowUnits | src/api/utf8.c:135 | the corrected allocation: twice the allocated `utf8_len` units plus one, at most 2 * |s| + 1 |
| Widening.ShownFrom | src/api/utf8.c:137 | what is shown from an index is the units before the first zero unit, all nonzero, and it is an overread exactly when no zero unit follows |
| Widening.ShowOverrun | src/api/utf8.c:135-137 | with `utf8_len` units allocated, U+1F600 needs two units for one allocated, and for "a" the address `utf8_widen` returns is past the one-unit buffer, so showing from it overreads |
| Widening.ShowFits | src/api/utf8.c:135-137 | 2 * `utf8_len` + 1 zeroed units always hold the widened string and a zero unit after it, so showing the buffer from its start gives exactly the widened string |
| Widening.ShowFromReturned | src/api/utf8.c:137 | even with that allocation, showing from the address `utf8_widen` returns gives the empty string |
| Reversal.Fits | src/api/utf8.c:157-160 | holds exactly when the loop, from the input cursor p with `room` output bytes left, never writes before the start of its buffer and never decodes past the terminator |
| Reversal.RevOut | src/api/utf8.c:156-161 | the part of the output still to be written by the loop from a given cursor has exactly the remaining room's length |
| Reversal.Reversed | src/api/utf8.c:143-166 | the reversal has the byte length of its input |
| Reversal.ReverseInto | src/api/utf8.c:153-161 | with the terminator stored and the loop applied to a buffer as long as the input, the buffer holds Reversed(s) |
| Reversal.ReverseStep | src/api/utf8.c:157-161 | one iteration decodes at the input cursor, lowers the output index by the decoded value's size, keeps the bytes written so far a suffix of Reversed(s), and leaves every byte before the new index unchanged |
| Reversal.Place | src/api/utf8.c:159-160 | `utf8_encode(out - utf8_size(cp), cp)` puts Encode(cp) just before the bytes already written, leaves them in place, and leaves every byte before it unchanged |
| Reversal.Utf8Reverse | src/api/utf8.c:143-166 | `utf8.reverse` returns Reversed(s), and the empty string for the empty input |
| Reversal.RevRev | src/api/utf8.c:156-161 | reversing a sequence of codepoints twice gives it back |
| Reversal.ReverseFrom | src/api/utf8.c:156-161 | from any offset of a well-formed buffer, the loop stays inside its output and fills the rest of it with the remaining codepoints encoded in reverse order |
| Reversal.ReversedOfEncoded | src/api/utf8.c:143-166 | on concatenated encodings of values up to 0x10FFFF the loop stays inside its buffer, and the result is the encodings of the values in reverse order |
| Reversal.ReversedCodepoints | src/api/utf8.c:143-166 | the reversed string decodes to the codepoints in reverse order |
| Reversal.ReverseTwice | src/api/utf8.c:143-166 | reversing the encoding of values up to 0x10FFFF twice gives it back, and both reversals stay inside their buffers |
| Reversal.ReverseWellFormed | src/api/utf8.c:143-166 | for any well-formed buffer, the reversal is well-formed, decodes to the reversed codepoints, and reversing again gives the buffer back |

## Findings

| source | as written | input that shows it | evidently intended | confidence | as-written member | corrected member |
|---|---|---|---|---|---|---|
| src/api/utf8.c:135-137 | `f_utf8_show` allocates `utf8_len(str, len)` wide characters for `utf8_widen`, which writes one or two units per codepoint, and then shows the wide string at the address `utf8_widen` returns, just past the last unit written | U+1F600 (F0 9F 98 80): 2 units written into 1 allocated; "a": 1 unit written into 1 allocated, and showing starts at index 1, past the buffer | allocate two zeroed units per codepoint plus one, and show the buffer from its start `wout` | not executed | Widening.ShowOverrun | Widening.ShowFits |

## Left out

- The Lua argument and result handling of `utf8.sub`, `utf8.reverse`, `utf8.len` and `utf8.size` is not modelled. That covers `luaL_checklstring`, `luaL_checknumber` and its truncation to an integer, `lua_pushlstring` and the `luaL_Buffer` calls. Bounds are plain integers. The default end bound of -1 is passed explicitly.
- `f_utf8_size` and `f_utf8_len` are not modelled separately. They are binding wrappers: `Size(Decode(s, idx).cp)` and `Length(s)`.
- `f_utf8_show` is modelled only for the size of its buffer and the index from which it is shown. Setting the console mode, allocating, freeing and the output of `wprintf` are I/O and memory management; Widening.ShownFrom models only which units `%s` reads.
- The TODO list at the end of the file is not code.
- Integer widths are not modelled. `int`, `ssize_t`, `size_t`, `unsigned` and `wchar_t` are unbounded integers here. The decoder's `unsigned` never exceeds 2^21, so no wrap-around can happen there. The `int l` of `utf8.sub` could in principle truncate the length of a string over 2^31 codepoints.
- `wchar_t` units are naturals. On a platform with 16-bit `wchar_t` every unit written fits, because all of them are below 0x10000.
- `utf8_widen`'s source cursor can pass the terminator after a truncated final sequence, and the source then reads beyond the string. Widening.Widen stops there instead.
- `utf8_widen` takes its output buffer's size on trust. Utf8Widen requires a buffer large enough for Widen(s, 0).
- In `utf8.reverse`, the inputs on which the loop writes before its buffer or decodes past the terminator are undefined behaviour. Reversal.ReverseInto and Reversal.Utf8Reverse require Fits, which excludes exactly those inputs. Every well-formed buffer satisfies it. Examples.ReverseOverrun exhibits an input that does not.
- Utf8Reverse returns the buffer's contents as a value. The address arithmetic on the `luaL_Buffer` is modelled only as array indices.
