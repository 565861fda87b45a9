/** steg.py `encode` and `decode`, with the image and file I/O replaced by a flat
    sequence of 8-bit samples in and out. The encoder optionally prefixes the
    content with a footprint header (extension, NUL, 4-byte big-endian length)
    and records the width in sample 0; the decoder masks every sample, joins the
    symbols back into bytes and always parses that header. */
module Steg {
  import opened Bits
  import opened Outcomes
  import opened Packing
  import opened Carrier

  // ---------------------------------------------------------------------------
  // The footprint header
  // ---------------------------------------------------------------------------

  /** `n.to_bytes(4, 'big')`. */
  function BigEndian4(n: nat): (b: seq<Byte>)
    requires n < 0x1_0000_0000
  {
    [n / 0x100_0000, (n / 0x1_0000) % 0x100, (n / 0x100) % 0x100, n % 0x100]
  }

  /** `size[0] << 24 | size[1] << 16 | size[2] << 8 | size[3]` (steg.py:49). */
  function SizeOf(b0: Byte, b1: Byte, b2: Byte, b3: Byte): (r: nat)
  {
    Or(Or(Or(Shl(b0, 24), Shl(b1, 16)), Shl(b2, 8)), b3)
  }

  /** The footprint payload `ext + b'\0' + len(src).to_bytes(4, 'big') + src`, where
      ext is the UTF-8 text of the file's extension without its dot. */
  function Payload(ext: seq<Byte>, src: seq<Byte>): (r: seq<Byte>)
    requires |src| < 0x1_0000_0000
  {
    ext + [0] + BigEndian4(|src|) + src
  }

  /** The OR-and-shift chain is plain positional arithmetic in base 256. */
  lemma SizeOfValue(b0: Byte, b1: Byte, b2: Byte, b3: Byte)
    ensures SizeOf(b0, b1, b2, b3) == ((b0 as nat * 0x100 + b1) * 0x100 + b2) * 0x100 + b3
  {
    var a1: nat := b0 * 0x100 + b1;
    var a2: nat := a1 * 0x100 + b2;
    var n: nat := a2 * 0x100 + b3;
    assert Or(Shl(b0, 24), Shl(b1, 16)) == Shl(a1, 16) by {
      OrShl(b0, b1, 16, 24);
    }
    assert Or(Shl(a1, 16), Shl(b2, 8)) == Shl(a2, 8) by {
      OrShl(a1, b2, 8, 16);
    }
    assert Or(Shl(a2, 8), b3) == n by {
      OrShl(a2, b3, 0, 8);
    }
  }

  /** One more base-256 digit: `a << (k + 8) | b << k` is `(a * 256 + b) << k`. */
  lemma OrShl(a: nat, b: Byte, k: nat, j: nat)
    requires j == k + 8
    ensures Or(Shl(a, j), Shl(b, k)) == Shl(a * 0x100 + b, k)
  {
    ShlMul(a, j);
    ShlMul(b, k);
    ShlMul(a * 0x100 + b, k);
    OrDigit(a, b, k);
  }

  lemma OrDigit(a: nat, b: Byte, k: nat)
    ensures Or(a * Pow2(k + 8), b * Pow2(k)) == (a * 0x100 + b) * Pow2(k)
  {
    var p := Pow2(k);
    assert Pow2(k + 8) == 0x100 * p by {
      Pow2Add(8, k);
      Pow2Values();
    }
    assert a * Pow2(k + 8) == (a * 0x100) * p;
    OrScaled(a * 0x100, b, k);
    assert Or(a * 0x100, b) == a * 0x100 + b by {
      Pow2Values();
      OrLow(a, b, 8);
    }
  }

  /** Reading back the four length bytes gives the length: `int.from_bytes` inverts
      `to_bytes` as steg.py spells it with shifts and ORs. */
  lemma SizeOfBigEndian(n: nat)
    requires n < 0x1_0000_0000
    ensures var b := BigEndian4(n); SizeOf(b[0], b[1], b[2], b[3]) == n
  {
    var b := BigEndian4(n);
    SizeOfValue(b[0], b[1], b[2], b[3]);
    var q1, q2 := n / 0x100, n / 0x1_0000;
    assert q2 == q1 / 0x100 by {
      DivDiv(n, 0x100, 0x100);
    }
    assert b[0] == q2 / 0x100 by {
      DivDiv(n, 0x1_0000, 0x100);
    }
    var b0: nat, b1: nat, b2: nat, b3: nat := b[0], b[1], b[2], b[3];
    assert q2 == b0 * 0x100 + b1;
    assert q1 == q2 * 0x100 + b2;
    assert n == q1 * 0x100 + b3;
  }

  /** And the other way round: any four bytes are the big-endian form of their value. */
  lemma BigEndianSizeOf(b0: Byte, b1: Byte, b2: Byte, b3: Byte)
    ensures SizeOf(b0, b1, b2, b3) < 0x1_0000_0000
    ensures BigEndian4(SizeOf(b0, b1, b2, b3)) == [b0, b1, b2, b3]
  {
    SizeOfValue(b0, b1, b2, b3);
    var a1: nat := b0 * 0x100 + b1;
    var a2: nat := a1 * 0x100 + b2;
    var n: nat := a2 * 0x100 + b3;
    assert n < 0x1_0000_0000 by {
      MulLe(0x100, a1, 0xFFFF);
      MulLe(0x100, a2, 0xFF_FFFF);
    }
    DivModUnique(a1, 0x100, b0, b1);
    DivModUnique(a2, 0x100, a1, b2);
    DivModUnique(n, 0x100, a2, b3);
    assert n / 0x1_0000 == a1 by {
      DivDiv(n, 0x100, 0x100);
    }
    assert n / 0x100_0000 == b0 by {
      DivDiv(n, 0x1_0000, 0x100);
    }
  }

  // ---------------------------------------------------------------------------
  // encode
  // ---------------------------------------------------------------------------

  /** steg.py `encode` (lines 56-85) on the samples of the image: the checks in the
      order the code makes them, then the header write and the masked write. */
  function EncodeSpec(samples: seq<Byte>, src: seq<Byte>, ext: seq<Byte>, bitwidth: int, footprint: bool)
    : (r: Result<seq<Byte>>)
  {
    if !IsWidth(bitwidth) then Err(InvalidBitwidth)
    else if |src| > |samples| * 8 / bitwidth then Err(NotEnoughSpace)
    else if !footprint then EmbedSpec(samples, 0, src, bitwidth)
    else if |src| >= 0x1_0000_0000 then Err(LengthOverflow)
    else if |samples| == 0 then Err(EmptyImage)
    else EmbedSpec(SetHeader(samples, bitwidth), 1, Payload(ext, src), bitwidth)
  }

  /** steg.py `encode`: `dest` is a fresh copy of the samples (`np.array(image)`),
      changed in place and returned. */
  method Encode(samples: seq<Byte>, src: seq<Byte>, ext: seq<Byte>, bitwidth: int, footprint: bool)
    returns (r: Result<seq<Byte>>)
    ensures r == EncodeSpec(samples, src, ext, bitwidth, footprint)
  {
    if !IsWidth(bitwidth) {
      return Err(InvalidBitwidth);
    }
    var dest := new Byte[|samples|](i requires 0 <= i < |samples| => samples[i]);
    assert dest[..] == samples;
    if |src| > dest.Length * 8 / bitwidth {
      return Err(NotEnoughSpace);
    }
    var start := 0;
    var payload := src;
    if footprint {
      start := 1;
      if |src| >= 0x1_0000_0000 {
        return Err(LengthOverflow);
      }
      payload := Payload(ext, src);
      if dest.Length == 0 {
        return Err(EmptyImage);
      }
      WriteHeader(dest, bitwidth);
    }
    var outcome := Embed(dest, start, payload, bitwidth);
    if outcome.Fail? {
      return Err(outcome.error);
    }
    return Ok(dest[..]);
  }

  /** Every way `encode` fails, each exactly when its condition holds. The capacity
      check measures the file alone, before any header is added. */
  lemma EncodeErrors(samples: seq<Byte>, src: seq<Byte>, ext: seq<Byte>, w: int, footprint: bool)
    ensures var r := EncodeSpec(samples, src, ext, w, footprint);
      (r == Err(InvalidBitwidth) <==> !IsWidth(w)) &&
      (r == Err(NotEnoughSpace) <==> IsWidth(w) && |src| > |samples| * 8 / w) &&
      (r == Err(LengthOverflow) <==>
         IsWidth(w) && |src| <= |samples| * 8 / w && footprint && |src| >= 0x1_0000_0000) &&
      (r == Err(EmptyImage) <==>
         IsWidth(w) && |src| <= |samples| * 8 / w && footprint && |src| < 0x1_0000_0000 && |samples| == 0) &&
      (r == Err(ShapeMismatch) <==>
         IsWidth(w) && |src| <= |samples| * 8 / w &&
         (if footprint then |src| < 0x1_0000_0000 && |samples| > 0 && 1 + (|ext| + 5 + |src|) * Step(w) > |samples|
          else |src| * Step(w) > |samples|)) &&
      (r.Err? ==> r.error in {InvalidBitwidth, NotEnoughSpace, LengthOverflow, EmptyImage, ShapeMismatch})
  {
    var r := EncodeSpec(samples, src, ext, w, footprint);
    if !IsWidth(w) || |src| > |samples| * 8 / w {
    } else if !footprint {
      assert r == EmbedSpec(samples, 0, src, w);
      EmbedWrites(samples, 0, src, w);
      assert |samples| == 0 ==> |src| == 0;
    } else if |src| >= 0x1_0000_0000 || |samples| == 0 {
    } else {
      var h, payload := SetHeader(samples, w), Payload(ext, src);
      assert r == EmbedSpec(h, 1, payload, w);
      EmbedWrites(h, 1, payload, w);
      assert |payload| * Step(w) >= 5;
    }
  }

  /** Without a footprint, a successful `encode` rewrites exactly the first
      `len(src) * 8 // w` samples: each keeps its high bits and carries the next
      symbol of src in its low w bits; every other sample is unchanged. */
  lemma EncodeRawWrites(samples: seq<Byte>, src: seq<Byte>, ext: seq<Byte>, w: int)
    requires EncodeSpec(samples, src, ext, w, false).Ok?
    ensures IsWidth(w)
    ensures var t := EncodeSpec(samples, src, ext, w, false).value;
      Untouched(samples, t, 0, |src| * Step(w)) && Carries(samples, t, 0, Expand(src, w), w)
  {
    EmbedWrites(samples, 0, src, w);
  }

  /** With a footprint, a successful `encode` keeps the upper six bits of sample 0 and
      stores the width code in its low two, then writes the payload (extension, NUL,
      length, content) into the samples after it; every other sample is unchanged. */
  lemma EncodeFootprintWrites(samples: seq<Byte>, src: seq<Byte>, ext: seq<Byte>, w: int)
    requires EncodeSpec(samples, src, ext, w, true).Ok?
    ensures IsWidth(w) && |samples| > 0 && |src| < 0x1_0000_0000
    ensures var t := EncodeSpec(samples, src, ext, w, true).value;
      t[0] / 4 == samples[0] / 4 && t[0] % 4 == WidthCode(w) && InferWidth(t[0]) == w &&
      Untouched(samples[0 := t[0]], t, 1, 1 + |Payload(ext, src)| * Step(w)) &&
      Carries(samples, t, 1, Expand(Payload(ext, src), w), w)
  {
    var h := SetHeader(samples, w);
    var t := EncodeSpec(samples, src, ext, w, true).value;
    EmbedWrites(h, 1, Payload(ext, src), w);
    assert t[0] == h[0];
    HeaderSampleBits(samples[0], w);
    assert h == samples[0 := t[0]];
    assert forall i :: 1 <= i < |h| ==> h[i] == samples[i];
  }

  /** The capacity check of line 65 is implied by the true fit of the raw write, so it
      never rejects content that fits; but it lets through content up to 8/w times
      too large, which then fails at the OR of line 85 instead. */
  lemma CapacityCheckLoose(samples: seq<Byte>, src: seq<Byte>, w: int)
    requires IsWidth(w) && |src| * Step(w) <= |samples|
    ensures |src| <= |samples| * 8 / w
  {
    RunLength(|samples|, w);
    StepWidth(w);
    MulLe(|src|, 1, Step(w));
    MulLe(|samples|, 1, Step(w));
  }

  /** Eight samples and two bytes at width 1: the capacity check passes (2 <= 64), yet
      the payload needs 16 samples and the write fails. */
  lemma CapacityCheckPassesOverflow()
    ensures EncodeSpec([0, 0, 0, 0, 0, 0, 0, 0], [65, 66], [], 1, false) == Err(ShapeMismatch)
  {
    var s: seq<Byte> := [0, 0, 0, 0, 0, 0, 0, 0];
    assert |s| * 8 / 1 == 64;
    assert 2 * 8 / 1 + 0 > |s|;
  }

  // ---------------------------------------------------------------------------
  // decode
  // ---------------------------------------------------------------------------

  /** What `decode` recovers: the extension, one `chr` per byte, and the content. */
  datatype Decoded = Decoded(ext: string, content: seq<Byte>)

  /** `''.join(map(chr, data))` on bytes. */
  function Chars(b: seq<Byte>): (s: string)
    ensures |s| == |b| && forall i :: 0 <= i < |b| ==> s[i] as int == b[i]
  {
    seq(|b|, i requires 0 <= i < |b| => b[i] as char)
  }

  /** `data.index(0)`: the position of the first zero, if any. */
  function FirstZero(data: seq<Byte>): (r: Option<nat>)
    ensures r.Some? ==> r.value < |data| && data[r.value] == 0 &&
                        forall i :: 0 <= i < r.value ==> data[i] != 0
    ensures r.None? ==> forall i :: 0 <= i < |data| ==> data[i] != 0
  {
    if data == [] then None
    else if data[0] == 0 then Some(0)
    else match FirstZero(data[1..])
      case None => None
      case Some(p) => Some(p + 1)
  }

  /** Lines 46-50: the extension before the first zero, the 4-byte length after it, and
      at most that many bytes of content after the length. */
  function ParseSpec(data: seq<Byte>): (r: Result<Decoded>)
  {
    match FirstZero(data)
    case None => Err(NoTerminator)
    case Some(p) =>
      if |data| < p + 5 then Err(ShortHeader)
      else
        var size := SizeOf(data[p + 1], data[p + 2], data[p + 3], data[p + 4]);
        Ok(Decoded(Chars(data[..p]), data[p + 5..Min(p + 5 + size, |data|)]))
  }

  /** The decoder's mask `data &= ~(~0 << w)` applied to every sample. */
  function Lows(s: seq<Byte>, w: nat): (t: seq<Byte>)
    ensures |t| == |s|
  {
    seq(|s|, i requires 0 <= i < |s| => Low(s[i], w))
  }

  /** The numbers `byteiter` returns on masked symbols, as the bytes they are. */
  function Collapsed(m: seq<Byte>, w: int): (b: seq<Byte>)
    requires IsWidth(w) && Fits(m, w)
  {
    CollapseBytes(m, w);
    var nums := Collapse(m, w);
    seq(|nums|, j requires 0 <= j < |nums| => nums[j] as Byte)
  }

  /** The masked samples from `start` on: symbols below 2^w. */
  lemma LowsFit(s: seq<Byte>, w: int, start: nat)
    requires IsWidth(w) && start <= |s|
    ensures Fits(Lows(s, w)[start..], w)
  {
    var m := Lows(s, w)[start..];
    forall k | 0 <= k < |m| ensures m[k] < Pow2(w) {
      LowBound(s[start + k], w);
    }
  }

  /** steg.py `decode` (lines 31-50) on the samples of the image. */
  function DecodeSpec(samples: seq<Byte>, infer: bool, bitwidth: Option<int>): (r: Result<Decoded>)
  {
    if !infer && (bitwidth.None? || bitwidth.value == 0) then Err(MissingBitwidth)
    else if infer && |samples| == 0 then Err(EmptyImage)
    else
      var w := if infer then InferWidth(samples[0]) else bitwidth.value;
      var start := if infer then 1 else 0;
      if !IsWidth(w) then Err(InvalidBitwidth)
      else
        LowsFit(samples, w, start);
        ParseSpec(Collapsed(Lows(samples, w)[start..], w))
  }

  /** `data &= mask` in place, with `mask = ~(~0 << w)`. */
  method MaskAll(data: array<Byte>, w: nat)
    modifies data
    ensures data[..] == Lows(old(data[..]), w)
  {
    var i := 0;
    while i < data.Length
      invariant 0 <= i <= data.Length
      invariant forall k :: 0 <= k < i ==> data[k] == Low(old(data[k]), w)
      invariant forall k :: i <= k < data.Length ==> data[k] == old(data[k])
    {
      data[i] := Low(data[i], w);
      i := i + 1;
    }
  }

  /** steg.py `decode`: `data` is a fresh copy of the samples, masked in place, then
      handed to `byteiter` and parsed. */
  method Decode(samples: seq<Byte>, infer: bool, bitwidth: Option<int>) returns (r: Result<Decoded>)
    ensures r == DecodeSpec(samples, infer, bitwidth)
  {
    if !infer && (bitwidth.None? || bitwidth.value == 0) {
      return Err(MissingBitwidth);
    }
    var data := new Byte[|samples|](i requires 0 <= i < |samples| => samples[i]);
    assert data[..] == samples;
    var w: int, start: nat;
    if infer {
      if data.Length == 0 {
        return Err(EmptyImage);
      }
      w := InferWidth(data[0]);
      start := 1;
    } else {
      w := bitwidth.value;
      start := 0;
    }
    if w < 0 {
      // `~0 << w` with a negative count raises before anything is masked.
      return Err(InvalidBitwidth);
    }
    MaskAll(data, w);
    var nums := ByteIter(data[start..], w);
    if nums.Err? {
      return Err(nums.error);
    }
    LowsFit(samples, w, start);
    CollapseBytes(data[start..], w);
    var bytes := seq(|nums.value|, j requires 0 <= j < |nums.value| => nums.value[j] as Byte);
    return ParseSpec(bytes);
  }

  /** Every way `decode` fails. When inferring, the supplied bitwidth is ignored and
      the width read from sample 0 is always one the packer accepts. */
  lemma DecodeErrors(samples: seq<Byte>, infer: bool, bitwidth: Option<int>)
    ensures var r := DecodeSpec(samples, infer, bitwidth);
      (r == Err(MissingBitwidth) <==> !infer && (bitwidth.None? || bitwidth.value == 0)) &&
      (r == Err(EmptyImage) <==> infer && |samples| == 0) &&
      (r == Err(InvalidBitwidth) <==> !infer && bitwidth.Some? && bitwidth.value != 0 && !IsWidth(bitwidth.value))
    ensures infer ==> DecodeSpec(samples, infer, bitwidth) == DecodeSpec(samples, infer, None)
  {
    if infer && |samples| > 0 {
      InferWidthValid(samples[0]);
    }
  }

  /** The parse fails for want of a terminator exactly when no byte is zero. */
  lemma ParseNoTerminator(data: seq<Byte>)
    ensures ParseSpec(data) == Err(NoTerminator) <==> forall i :: 0 <= i < |data| ==> data[i] != 0
  {
  }

  /** With the first zero at p, the parse fails exactly when fewer than four bytes
      follow it and succeeds otherwise, with the text before p as the extension and
      as content what follows the length, silently cut to the bytes available. */
  lemma ParseAt(data: seq<Byte>, p: nat)
    requires p < |data| && data[p] == 0 && forall i :: 0 <= i < p ==> data[i] != 0
    ensures ParseSpec(data) == Err(ShortHeader) <==> |data| < p + 5
    ensures ParseSpec(data).Ok? <==> |data| >= p + 5
    ensures ParseSpec(data).Ok? ==>
      var size := SizeOf(data[p + 1], data[p + 2], data[p + 3], data[p + 4]);
      var d := ParseSpec(data).value;
      d.ext == Chars(data[..p]) &&
      |d.content| == Min(size, |data| - (p + 5)) &&
      d.content == data[p + 5..p + 5 + |d.content|]
  {
    FirstZeroUnique(data, p);
  }

  /** The first zero is the only zero with no zero before it. */
  lemma FirstZeroUnique(data: seq<Byte>, p: nat)
    requires p < |data| && data[p] == 0 && forall i :: 0 <= i < p ==> data[i] != 0
    ensures FirstZero(data) == Some(p)
  {
    var z := FirstZero(data);
    if z.Some? && z.value < p {
      assert false;
    }
  }

  /** A footprint parses back: with no zero byte in the extension, the payload
      followed by anything decodes to the extension and the content. */
  lemma ParsePayload(ext: seq<Byte>, src: seq<Byte>, rest: seq<Byte>)
    requires |src| < 0x1_0000_0000
    requires forall i :: 0 <= i < |ext| ==> ext[i] != 0
    ensures ParseSpec(Payload(ext, src) + rest) == Ok(Decoded(Chars(ext), src))
  {
    var data := Payload(ext, src) + rest;
    var p := |ext|;
    assert data[p] == 0;
    assert forall i :: 0 <= i < p ==> data[i] == ext[i];
    FirstZeroUnique(data, p);
    var b := BigEndian4(|src|);
    assert data[p + 1..p + 5] == b;
    SizeOfBigEndian(|src|);
    assert data[..p] == ext;
    assert data[p + 5..p + 5 + |src|] == src;
  }

  /** The byteiter half of the round trip: the masked samples start with the payload's
      symbols, so the bytes joined from them start with the payload. */
  lemma CollapsedPrefix(m: seq<Byte>, payload: seq<Byte>, w: int)
    requires IsWidth(w) && Fits(m, w)
    requires |payload| * Step(w) <= |m| && m[..|payload| * Step(w)] == Expand(payload, w)
    ensures Fits(m[|payload| * Step(w)..], w)
    ensures Collapsed(m, w) == payload + Collapsed(m[|payload| * Step(w)..], w)
  {
    var j := m[|payload| * Step(w)..];
    FitsSuffix(m, |payload| * Step(w), w);
    CollapsePrefix(m, payload, w);
    CollapsedSplit(m, j, payload, w);
  }

  lemma FitsSuffix(m: seq<Byte>, n: nat, w: nat)
    requires Fits(m, w) && n <= |m|
    ensures Fits(m[n..], w)
  {
    forall k | 0 <= k < |m| - n ensures m[n..][k] < Pow2(w) {
      assert m[n..][k] == m[n + k];
    }
  }

  /** The same prefix property on the numbers `byteiter` joins. */
  lemma CollapsePrefix(m: seq<Byte>, payload: seq<Byte>, w: int)
    requires IsWidth(w)
    requires |payload| * Step(w) <= |m| && m[..|payload| * Step(w)] == Expand(payload, w)
    ensures Collapse(m, w) == payload + Collapse(m[|payload| * Step(w)..], w)
  {
    var n := |payload| * Step(w);
    assert m == m[..n] + m[n..];
    DivModUnique(n, Step(w), |payload|, 0);
    CollapseAppend(m[..n], m[n..], w);
    RoundTrip(payload, w);
  }

  lemma CollapsedSplit(m: seq<Byte>, j: seq<Byte>, payload: seq<Byte>, w: int)
    requires IsWidth(w) && Fits(m, w) && Fits(j, w)
    requires Collapse(m, w) == payload + Collapse(j, w)
    ensures Collapsed(m, w) == payload + Collapsed(j, w)
  {
    CollapsedIsCollapse(m, w);
    CollapsedIsCollapse(j, w);
  }

  /** The conversion to bytes changes no value. */
  lemma CollapsedIsCollapse(m: seq<Byte>, w: int)
    requires IsWidth(w) && Fits(m, w)
    ensures Collapsed(m, w) == Collapse(m, w)
  {
  }

  /** The masked samples after `start` are the payload's symbols, followed by
      whatever the untouched samples hold. */
  lemma LowsOfWrite(s: seq<Byte>, t: seq<Byte>, start: nat, payload: seq<Byte>, w: int)
    requires IsWidth(w) && Carries(s, t, start, Expand(payload, w), w)
    ensures |payload| * Step(w) <= |t| - start
    ensures Lows(t, w)[start..][..|payload| * Step(w)] == Expand(payload, w)
  {
  }

  /** The footprint round trip: a footprinted `encode` that succeeds, decoded with the
      width inferred, gives back the extension (one character per byte, which is the
      extension itself when it is ASCII) and exactly the content. */
  lemma FootprintRoundTrip(samples: seq<Byte>, src: seq<Byte>, ext: seq<Byte>, w: int, bitwidth: Option<int>)
    requires forall i :: 0 <= i < |ext| ==> ext[i] != 0
    requires EncodeSpec(samples, src, ext, w, true).Ok?
    ensures DecodeSpec(EncodeSpec(samples, src, ext, w, true).value, true, bitwidth) == Ok(Decoded(Chars(ext), src))
  {
    var t := EncodeSpec(samples, src, ext, w, true).value;
    var payload := Payload(ext, src);
    EncodeFootprintWrites(samples, src, ext, w);
    assert InferWidth(t[0]) == w;
    LowsFit(t, w, 1);
    var m := Lows(t, w)[1..];
    LowsOfWrite(samples, t, 1, payload, w);
    CollapsedPrefix(m, payload, w);
    ParsePayload(ext, src, Collapsed(m[|payload| * Step(w)..], w));
  }

  /** Without a footprint, decoding with the same width still parses a header: the
      bytes it reads are the content itself, followed by bytes from the untouched
      samples, so the content's own first zero byte ends the "extension". */
  lemma RawDecodeParsesContent(samples: seq<Byte>, src: seq<Byte>, ext: seq<Byte>, w: int)
    requires EncodeSpec(samples, src, ext, w, false).Ok?
    ensures IsWidth(w)
    ensures var t := EncodeSpec(samples, src, ext, w, false).value;
      Fits(Lows(t, w)[|src| * Step(w)..], w) &&
      DecodeSpec(t, false, Some(w)) == ParseSpec(src + Collapsed(Lows(t, w)[|src| * Step(w)..], w))
  {
    var t := EncodeSpec(samples, src, ext, w, false).value;
    EncodeRawWrites(samples, src, ext, w);
    LowsFit(t, w, 0);
    var m := Lows(t, w)[0..];
    assert m == Lows(t, w);
    LowsOfWrite(samples, t, 0, src, w);
    CollapsedPrefix(m, src, w);
  }

  /** Raw mode on a concrete image: "AB" hidden at width 1 in sixteen zero samples
      holds no zero byte, so decoding it fails for want of a terminator. */
  lemma RawDecodeExample()
    ensures var z: seq<Byte> := seq(16, _ => 0);
      EncodeSpec(z, [65, 66], [], 1, false).Ok? &&
      DecodeSpec(EncodeSpec(z, [65, 66], [], 1, false).value, false, Some(1)) == Err(NoTerminator)
  {
    var z: seq<Byte> := seq(16, _ => 0);
    assert |z| * 8 / 1 == 128;
    EncodeErrors(z, [65, 66], [], 1, false);
    RawDecodeParsesContent(z, [65, 66], [], 1);
    var t := EncodeSpec(z, [65, 66], [], 1, false).value;
    assert Lows(t, 1)[16..] == [];
    var data: seq<Byte> := [65, 66] + Collapsed([], 1);
    assert Collapse([], 1) == [];
    assert data == [65, 66];
    ParseNoTerminator(data);
  }
}
