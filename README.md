# image-steg: a verified model of the LSB codec

image-steg hides a file in the least significant bits of an image's pixel
samples. The image is flattened into one sequence of 8-bit samples. Each byte of
the payload is split into `8/w` symbols of `w` bits each, most significant first
(`bititer`). Each symbol replaces the low `w` bits of one sample. The width `w`
is 1, 2, 4 or 8.

In footprint mode, `steg.py`'s `encode` does two more things:
- it stores the width's index in (1, 2, 4, 8) in the low two bits of sample 0;
- it prefixes the content with a header: the file extension, a NUL byte, and the
  content length as 4 big-endian bytes.

`decode` does the reverse:
1. it masks every sample down to its low `w` bits;
2. it joins groups of `8/w` symbols back into bytes (`byteiter`);
3. it splits off the extension at the first zero byte;
4. it reads the length and slices out the content.

`hide.py` is the older stand-alone encoder. It has the same bit packer, the
same width code in sample 0 and the same masked write, but no extension/length
header (the prefix it builds at line 35 is left out, see below).

The model works on sequences of samples in 0..255 instead of images and files.
The in-place steps stay in-place:
- `dest[0] = ...`, `dest[start:end] &= ...` and `dest[start:end] |= ...` are
  methods on an `array<Byte>`;
- decode's `data &= mask` is a loop over an array;
- `byteiter` is the loop that appends to `nums`.

Each method is proved equal to a specification function, and the properties are
lemmas about those functions.

Modules:
- `Outcomes` — the exceptions the program raises, as an `Error` datatype, and
  the `Option`, `Result` and `Outcome` wrappers.
- `Bits` — Python's `&`, `|`, `<<` and `>>` on naturals, defined bit by bit, and
  the lemmas that turn them into arithmetic.
- `Packing` — `bititer` (`BitIter`) and `byteiter` (`ByteIter`). `ByteIter` is
  built literally from `bin`, `rjust`, `join` and `int(., 2)`, and the round
  trip between the two is proved.
- `Carrier` — the in-place write both encoders share:
  - the header sample;
  - the mask `np.uint8(~0 << w)`, taken as `(256 - 2^w) % 256`;
  - the clear and OR runs.

  Also the reading side: the inferred width and the low-bit mask.
- `Steg` — `encode` and `decode` from `steg.py`.
- `HideScript` — the main block of `hide.py`.

Behaviours of the code worth knowing:
- `decode` parses the extension/length header even without `infer`. Raw mode
  therefore does not return the whole buffer.
- Content shorter than the recorded length is truncated silently. It is not an
  error.
- `byteiter` keeps a trailing partial group, as the smaller number its symbols
  spell. It does not drop it.
- The capacity check compares the raw file length with `size*8//w`. It does this
  before the header is added. A write that then runs past the buffer fails at
  the OR; the model reports this as `ShapeMismatch`.
- The one exception is a run of a single symbol (one byte at width 8). NumPy
  broadcasts a one-element operand over the slice, and a run that does not fit
  starts at the end of the buffer, so the slice is empty: the OR succeeds and
  stores nothing. In the model only `HideSpec` reaches this case: with a
  footprint, a one-byte `src` (the bytes after line 35 of `hide.py`) and a
  one-sample image. The script as written never gets there. Under Python 2 the
  prefix line 35 builds (the length as text and the file name) makes a real
  `src` at least three bytes long, which fails the capacity check in a
  one-sample image. Under Python 3 line 35 raises first. `steg.py` cannot reach
  the case either.

## Model

| member | source | states |
|---|---|---|
| `Packing.BitIter` | steg.py:11-17 | Fails with `InvalidBitwidth` exactly when the width is not 1, 2, 4 or 8. Otherwise returns `8/w` symbols per byte, each below 2^w. Symbol j of byte i is the j-th w-bit digit from the top. |
| `Packing.SymbolIsDigit` | hide.py:17-19 | The comprehension term `n >> shift & mask` with `shift = 8 - w - j*w` is digit j of n in base 2^w (most significant first) and is below 2^w. `hide.py`'s copy of `bititer` is the same text as `steg.py`'s and is modelled by `Packing.BitIter`. |
| `Packing.ByteIter` | steg.py:20-28 | The loop fails with `InvalidBitwidth` for a bad width. Otherwise it returns `Collapse(bits, w)`: one number per group of `8/w` symbols, taken in order, with the last group possibly shorter. |
| `Packing.CollapseLength` | steg.py:25-27 | `byteiter` returns ceil(len(bits) / (8/w)) numbers: a trailing partial group is kept. |
| `Packing.CollapseAt` | steg.py:26-27 | Number j is the `int(''.join(bin...rjust), 2)` of the slice `bits[j*step : min((j+1)*step, len)]`. |
| `Packing.JoinSpells` | steg.py:27 | For symbols below 2^w, the text route (`bin`, `rjust`, `join`, `int(., 2)`) equals the positional value of the symbols in base 2^w. A partial group of k symbols therefore gives the k*w-bit number they spell. |
| `Packing.CollapseBytes` | steg.py:20-28 | On symbols below 2^w, every number `byteiter` returns is below 256. |
| `Packing.JoinSymbols` | steg.py:11-28 | Joining the `8/w` symbols `bititer` makes from one byte gives back that byte. |
| `Packing.RoundTrip` | steg.py:11-28 | `byteiter(bititer(b, w), w) == b` for every byte sequence b and valid w. |
| `Packing.CollapseAppend` | steg.py:26 | Groups start at multiples of `8/w`. A prefix whose length is such a multiple is therefore joined independently of what follows. |
| `Carrier.HeaderSampleBits` | steg.py:75 | Clearing the low two bits of sample 0 and OR-ing in the width's index keeps the upper six bits of sample 0 and puts the index in the low two bits. `1 << (x & 0b11)` recovers w from it. |
| `Carrier.InferWidthValid` | steg.py:39 | The width inferred from any sample is 1, 2, 4 or 8. |
| `Carrier.ClearedValue` | steg.py:82 | `x & np.uint8(~0 << w)`, with the mask taken mod 256, is x rounded down to a multiple of 2^w. At w = 8 the mask is 0. |
| `Carrier.WrittenBits` | steg.py:82-85 | Clearing a sample and OR-ing in a symbol below 2^w keeps the sample's bits above w. It leaves the symbol as the low w bits, which is exactly what decode's mask reads back. |
| `Carrier.LowBound` | steg.py:43-44 | `x & ~(~0 << w)` is below 2^w. |
| `Carrier.RunLength` | steg.py:79 | `len(src) * 8 // w` is `len(src) * (8/w)`: the number of symbols `bititer` makes, so no symbol is lost to the floor. |
| `Carrier.EmbedWrites` | steg.py:79-85 | The masked write fails with `ShapeMismatch` exactly when `start + len*8/w` passes the buffer and the run is longer than one symbol. A run that fits leaves samples outside `[start, end)` unchanged, and sample i inside keeps its high bits and carries symbol `i - start` in its low w bits. A single symbol that does not fit starts at the end of the buffer and is broadcast over an empty slice, leaving the buffer unchanged. |
| `Carrier.EmbedBranches` | steg.py:79-85 | Against the clipped slice end `min(end, len)`: symbols matching the slice in length are OR-ed in; a single symbol that does not match meets an empty slice and the result is the cleared buffer; any other mismatch is `ShapeMismatch`. |
| `Carrier.EmbedAt` | steg.py:82-85 | Sample by sample, a successful write is the cleared old sample OR-ed with the symbol inside the run and the old sample outside it. The run either fits or is one symbol starting at the end of the buffer. |
| `Carrier.WriteHeader` | steg.py:75 | Changes sample 0 alone, to the header sample. |
| `Carrier.ClearRun` | steg.py:82 | The `&=` over `dest[lo:hi]` clears the low w bits of exactly those samples. |
| `Carrier.OrRun` | steg.py:85 | The in-place OR over `dest[lo:lo+len(syms)]` ORs symbol k into sample `lo + k` and changes nothing else. |
| `Carrier.Embed` | steg.py:79-85 | The in-place clear and then OR on the array leaves exactly `EmbedSpec`'s buffer, a single symbol being broadcast over the slice. When the OR fails, the `&=` has already run on the part of the slice that exists, and the result is `Fail(ShapeMismatch)`. |
| `Steg.SizeOfValue` | steg.py:49 | OR-ing together `s0 << 24`, `s1 << 16`, `s2 << 8` and `s3` gives the base-256 value of the four bytes. |
| `Steg.SizeOfBigEndian` | steg.py:49 | Reading back `n.to_bytes(4, 'big')` with the shifts and ORs of line 49 gives n. |
| `Steg.BigEndianSizeOf` | steg.py:49 | Any four bytes are the big-endian form of the value line 49 reads from them, and that value is below 2^32. |
| `Steg.Encode` | steg.py:54-85 | The method copies the samples into an array, writes the header and runs the masked write. It returns exactly `EncodeSpec`: the checks in the code's order, then the header and the write. |
| `Steg.EncodeErrors` | steg.py:56-85 | Each failure holds exactly when its condition does. `InvalidBitwidth`: the width is not 1, 2, 4 or 8. `NotEnoughSpace`: `len(src) > size*8//w`, measured before any header. `LengthOverflow`: footprint with len >= 2^32. `EmptyImage`: footprint on an empty image. `ShapeMismatch`: the payload's symbols run past the buffer. |
| `Steg.EncodeRawWrites` | steg.py:76-85 | Without a footprint, a successful encode changes only the first `len(src)*8/w` samples. Each of those keeps its high bits and carries the next symbol of src. |
| `Steg.EncodeFootprintWrites` | steg.py:71-85 | With a footprint: sample 0 keeps its upper six bits and gets the width code, from which w is inferred. Samples 1.. carry the symbols of `ext + [0] + len(src).to_bytes(4, 'big') + src`, and nothing else changes. |
| `Steg.CapacityCheckLoose` | steg.py:65-66 | The capacity check never rejects content whose raw write fits. |
| `Steg.CapacityCheckPassesOverflow` | steg.py:65-85 | Concrete case: 2 bytes at width 1 in 8 samples pass the check (2 <= 64) but fail at the write. |
| `Steg.Decode` | steg.py:30-50 | The method (mask loop, `ByteIter`, parse) returns exactly `DecodeSpec`. |
| `Steg.DecodeErrors` | steg.py:31-43 | Each failure holds exactly when its condition does. `MissingBitwidth`: neither `infer` nor a non-zero bitwidth. `EmptyImage`: inferring on an empty image. `InvalidBitwidth`: a given width that is not 1, 2, 4 or 8. With `infer` the supplied bitwidth is ignored. |
| `Steg.FirstZero` | steg.py:46 | `data.index(0)`: the position holds a zero and nothing before it does. `None` exactly when the data holds no zero. |
| `Steg.Chars` | steg.py:47 | `''.join(map(chr, ...))`: one character per byte, with the byte's code. |
| `Steg.MaskAll` | steg.py:43-44 | The in-place `data &= mask` leaves every sample's low w bits. |
| `Steg.ParseNoTerminator` | steg.py:46 | The parse fails with `NoTerminator` exactly when the joined bytes hold no zero. |
| `Steg.ParseAt` | steg.py:46-50 | Take the first zero at p. The parse fails with `ShortHeader` exactly when fewer than four bytes follow it, and succeeds exactly when at least four do. Then `ext` is the chars before p and `size` is read from bytes p+1..p+4. The content is the next `min(size, remaining)` bytes: short content is truncated, not an error. |
| `Steg.ParsePayload` | steg.py:44-50 | Parsing a footprint payload, whatever follows it, gives back exactly the extension and the content, provided the extension holds no zero byte. |
| `Steg.LowsOfWrite` | steg.py:43-45 | After a successful write from `start`, the masked samples from `start` begin with the payload's symbols. |
| `Steg.CollapsedPrefix` | steg.py:20-28 | Masked samples that begin with a payload's symbols join into bytes that begin with the payload. |
| `Steg.FootprintRoundTrip` | steg.py:30-85 | Take a successful footprinted encode whose extension holds no zero byte, and decode it with the width inferred. The result is the extension (one char per byte) and exactly the original content, whatever bitwidth is passed. |
| `Steg.RawDecodeParsesContent` | steg.py:30-50 | Decoding a raw encode with the same width still parses a header. The bytes it parses are the content itself, followed by the bytes of the untouched samples. |
| `Steg.RawDecodeExample` | steg.py:46 | Concrete case: "AB" hidden raw at width 1 in 16 zero samples decodes to `NoTerminator`. |
| `HideScript.Hide` | hide.py:30-55 | The main block (copy, header write, masked write) returns exactly `HideSpec`: the checks in the script's order, then the header and the write. |
| `HideScript.HideErrors` | hide.py:30-55 | Each failure holds exactly when its condition does. `InvalidBitwidth`: a bad width, refused before the buffer is touched. `NotEnoughSpace`: `len(src) > size*8//w`. `EmptyImage`: footprint on an empty image. `ShapeMismatch`: the symbols run past the buffer, except for a footprinted one-byte src at width 8, whose single symbol is broadcast. |
| `HideScript.HideRawWrites` | hide.py:46-55 | Without a footprint, a successful run changes only the first `len(src)*8/w` samples. Each keeps its high bits and carries the next symbol of src. |
| `HideScript.HideFootprintWrites` | hide.py:43-55 | With a footprint, the header step changes sample 0 alone: upper six bits kept, width code below. When the run fits, samples 1.. carry the symbols of src, and nothing else changes. When it does not, the image has one sample, src is one byte at width 8, and only the header is written. |
| `HideScript.HideIsRawEncode` | hide.py:40-55 | Without a footprint, the script and `steg.py`'s `encode` are the same function of samples, content and width. |
| `HideScript.HideThenDecode` | hide.py:43-55 | `steg.py`'s `decode` with `infer` on the script's footprinted output infers the right width. It then parses src itself as the extension/length header, which the script never wrote. When src did not fit (the broadcast case), it reads no bytes and fails with `NoTerminator`. |
| `HideScript.FootprintOneByteBroadcast` | hide.py:40-55 | Concrete case: a one-byte `src` (the bytes after line 35) at width 8 with a footprint in a one-sample image passes the check (1 <= 1), gets the width code in sample 0 (5 becomes 7) and is broadcast over the empty slice `dest[1:2]`, so the write succeeds without storing the byte; `decode` then finds no terminator. A real `src` is longer, because of the prefix line 35 builds. |
| `HideScript.FootprintCapacityOverflow` | hide.py:40-55 | Concrete case: one byte at width 1 with a footprint passes the check (1 <= 64) in 8 samples. It fails at the write, because its symbols start at sample 1 and need a ninth sample. |

## Left out

- Image and file I/O is not modelled: `Image.open`, `np.array(...).reshape`,
  `Image.frombytes`, `save`, and the reads and writes of the hidden file. The
  model takes and returns a flat sequence of samples in 0..255, the file's bytes
  and, for decode, the pair (extension, content).
- The argparse command lines of both scripts are not modelled. `steg.py`
  line 65 reads the global `args.bitwidth`; the model uses the `bitwidth`
  parameter there.
- `os.path.splitext` and the UTF-8 encoding of the extension (`steg.py` line 73)
  are not modelled. The extension, without its dot, is a byte sequence
  parameter. Decode turns each byte into one character, so the round trip gives
  back the extension's own characters only when it is ASCII.
- The construction of `src` at `hide.py` line 35 is not modelled; `src` is taken
  as already built. Its meaning depends on the Python version: in Python 3,
  `bytes(str)` raises `TypeError`. Because `src` is free, `HideSpec` admits a
  one-byte `src`, which the prefix makes impossible in the script; that input
  is the only one that reaches the one-symbol broadcast.
- NumPy dtype details are reduced to plain values:
  - the mask `np.uint8(~0 << w)` is taken as `(256 - 2^w) % 256`;
  - `~0b11` on a `uint8` sample is taken as 252;
  - a broadcast failure is the `ShapeMismatch` error, and of NumPy's
    broadcasting only the two shapes these writes can meet are modelled (equal
    lengths, or one symbol);
  - the exact exception classes are merged into the `Error` kinds.
- `Steg.Decode` maps a negative given width straight to `InvalidBitwidth`. The
  source fails there too, but at the shift on line 43 rather than in `byteiter`.
- The image's mode and shape are not modelled; only the flattened samples are.
