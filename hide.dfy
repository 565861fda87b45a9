/** hide.py, the older stand-alone encoder: the main block after argument parsing,
    with the image read replaced by a flat sequence of 8-bit samples and the bytes
    to hide (`src` after line 35) taken as a parameter. It checks the width and the
    capacity, optionally records the width in sample 0, then writes the symbols of
    `src` into the low bits of the samples that follow. It writes no extension or
    length header of its own. */
module HideScript {
  import opened Bits
  import opened Outcomes
  import opened Packing
  import opened Carrier
  import Steg

  /** Lines 30-55 on the samples of the image: the checks in the order the script
      makes them, then the header write and the masked write. */
  function HideSpec(samples: seq<Byte>, src: seq<Byte>, bitwidth: int, footprint: bool)
    : (r: Result<seq<Byte>>)
  {
    if !IsWidth(bitwidth) then Err(InvalidBitwidth)
    else if |src| > |samples| * 8 / bitwidth then Err(NotEnoughSpace)
    else if !footprint then EmbedSpec(samples, 0, src, bitwidth)
    else if |samples| == 0 then Err(EmptyImage)
    else EmbedSpec(SetHeader(samples, bitwidth), 1, src, bitwidth)
  }

  /** The main block: `dest` is a fresh copy of the samples, changed in place at
      lines 45, 52 and 55. */
  method Hide(samples: seq<Byte>, src: seq<Byte>, bitwidth: int, footprint: bool)
    returns (r: Result<seq<Byte>>)
    ensures r == HideSpec(samples, src, bitwidth, footprint)
  {
    if !IsWidth(bitwidth) {
      return Err(InvalidBitwidth);
    }
    var dest := new Byte[|samples|](i requires 0 <= i < |samples| => samples[i]);
    assert dest[..] == samples;
    if |src| > dest.Length * 8 / bitwidth {
      return Err(NotEnoughSpace);
    }
    var start := 0;
    if footprint {
      start := 1;
      if dest.Length == 0 {
        return Err(EmptyImage);
      }
      WriteHeader(dest, bitwidth);
    }
    var outcome := Embed(dest, start, src, bitwidth);
    if outcome.Fail? {
      return Err(outcome.error);
    }
    return Ok(dest[..]);
  }

  /** Every way the script fails, each exactly when its condition holds. A bad width
      is refused before the buffer is touched, and the capacity check measures `src`
      without the sample the footprint takes. A footprinted one-byte src at width 8
      is a single symbol, which the OR broadcasts, so it never fails there. */
  lemma HideErrors(samples: seq<Byte>, src: seq<Byte>, w: int, footprint: bool)
    ensures var r := HideSpec(samples, src, w, footprint);
      (r == Err(InvalidBitwidth) <==> !IsWidth(w)) &&
      (r == Err(NotEnoughSpace) <==> IsWidth(w) && |src| > |samples| * 8 / w) &&
      (r == Err(EmptyImage) <==> IsWidth(w) && |src| <= |samples| * 8 / w && footprint && |samples| == 0) &&
      (r == Err(ShapeMismatch) <==>
         IsWidth(w) && |src| <= |samples| * 8 / w &&
         (if footprint then |samples| > 0 && 1 + |src| * Step(w) > |samples| && !(|src| == 1 && w == 8)
          else |src| * Step(w) > |samples|)) &&
      (r.Err? ==> r.error in {InvalidBitwidth, NotEnoughSpace, EmptyImage, ShapeMismatch})
  {
    var r := HideSpec(samples, src, w, footprint);
    if !IsWidth(w) || |src| > |samples| * 8 / w {
    } else if !footprint {
      assert r == EmbedSpec(samples, 0, src, w);
      EmbedWrites(samples, 0, src, w);
      assert |samples| == 0 ==> |src| == 0;
    } else if |samples| == 0 {
    } else {
      var h := SetHeader(samples, w);
      assert r == EmbedSpec(h, 1, src, w);
      EmbedWrites(h, 1, src, w);
      assert |src| * Step(w) == 1 <==> |src| == 1 && w == 8 by {
        StepWidth(w);
      }
    }
  }

  /** Without a footprint, a successful run rewrites exactly the first
      `len(src) * 8 // w` samples: each keeps its high bits and carries the next
      symbol of src in its low w bits; every other sample is unchanged. */
  lemma HideRawWrites(samples: seq<Byte>, src: seq<Byte>, w: int)
    requires HideSpec(samples, src, w, false).Ok?
    ensures IsWidth(w)
    ensures var t := HideSpec(samples, src, w, false).value;
      Untouched(samples, t, 0, |src| * Step(w)) && Carries(samples, t, 0, Expand(src, w), w)
  {
    EmbedWrites(samples, 0, src, w);
  }

  /** With a footprint, the header step changes sample 0 alone: its upper six bits
      stay and its low two hold the width code, from which a decoder infers w. The
      symbols of src then go into the samples after it; every other sample is
      unchanged. A run that does not fit is one byte at width 8 on a one-sample
      image, where only the header is written. */
  lemma HideFootprintWrites(samples: seq<Byte>, src: seq<Byte>, w: int)
    requires HideSpec(samples, src, w, true).Ok?
    ensures IsWidth(w) && |samples| > 0
    ensures var t := HideSpec(samples, src, w, true).value;
      |t| == |samples| &&
      t[0] / 4 == samples[0] / 4 && t[0] % 4 == WidthCode(w) && InferWidth(t[0]) == w
    ensures var t := HideSpec(samples, src, w, true).value;
      1 + |src| * Step(w) <= |samples| ==>
        Untouched(samples[0 := t[0]], t, 1, 1 + |src| * Step(w)) &&
        Carries(samples, t, 1, Expand(src, w), w)
    ensures var t := HideSpec(samples, src, w, true).value;
      1 + |src| * Step(w) > |samples| ==>
        |samples| == 1 && |src| == 1 && w == 8 && t == samples[0 := t[0]]
  {
    var h := SetHeader(samples, w);
    var t := HideSpec(samples, src, w, true).value;
    EmbedWrites(h, 1, src, w);
    StepWidth(w);
    assert t[0] == h[0] by {
      if 1 + |src| * Step(w) <= |samples| {
        assert Untouched(h, t, 1, 1 + |src| * Step(w));
      }
    }
    HeaderSampleBits(samples[0], w);
    assert h == samples[0 := t[0]];
    assert forall i :: 1 <= i < |h| ==> h[i] == samples[i];
  }

  /** Without a footprint the script and steg.py's `encode` are the same encoder:
      the same checks in the same order and the same write. */
  lemma HideIsRawEncode(samples: seq<Byte>, src: seq<Byte>, ext: seq<Byte>, w: int)
    ensures HideSpec(samples, src, w, false) == Steg.EncodeSpec(samples, src, ext, w, false)
  {
  }

  /** What steg.py's `decode` makes of a footprinted image from this script: it infers
      the right width, but then reads src itself as the extension/length header that
      the script never wrote. When src did not fit (the broadcast case), the decoder
      reads nothing after the header and finds no terminator. */
  lemma HideThenDecode(samples: seq<Byte>, src: seq<Byte>, w: int, bitwidth: Option<int>)
    requires HideSpec(samples, src, w, true).Ok?
    ensures IsWidth(w)
    ensures var t := HideSpec(samples, src, w, true).value;
      1 + |src| * Step(w) <= |t| ==>
        Fits(Steg.Lows(t, w)[1 + |src| * Step(w)..], w) &&
        Steg.DecodeSpec(t, true, bitwidth) ==
          Steg.ParseSpec(src + Steg.Collapsed(Steg.Lows(t, w)[1 + |src| * Step(w)..], w))
    ensures var t := HideSpec(samples, src, w, true).value;
      1 + |src| * Step(w) > |t| ==> Steg.DecodeSpec(t, true, bitwidth) == Err(NoTerminator)
  {
    var t := HideSpec(samples, src, w, true).value;
    HideFootprintWrites(samples, src, w);
    if 1 + |src| * Step(w) > |t| {
      assert Steg.Lows(t, w)[1..] == [];
      assert Steg.Collapsed([], w) == [];
      return;
    }
    Steg.LowsFit(t, w, 1);
    var m := Steg.Lows(t, w)[1..];
    Steg.LowsOfWrite(samples, t, 1, src, w);
    Steg.CollapsedPrefix(m, src, w);
    assert m[|src| * Step(w)..] == Steg.Lows(t, w)[1 + |src| * Step(w)..];
  }

  /** Eight samples, one byte, width 1, with a footprint: the capacity check passes
      (1 <= 64), but the byte's eight symbols start at sample 1 and need a ninth
      sample, so the write fails. */
  lemma FootprintCapacityOverflow()
    ensures HideSpec([0, 0, 0, 0, 0, 0, 0, 0], [65], 1, true) == Err(ShapeMismatch)
  {
    var s: seq<Byte> := [0, 0, 0, 0, 0, 0, 0, 0];
    assert |s| * 8 / 1 == 64;
    assert 1 * 8 / 1 + 1 > |s|;
  }

  /** One sample, a one-byte src, width 8, with a footprint: the capacity check
      passes (1 <= 1), the header goes into sample 0 (5 & 0b11111100 | 3 = 7), and
      the byte's single symbol is broadcast over the empty slice `dest[1:2]`, so the
      write succeeds without storing the byte, and `decode` finds no terminator.
      Here src stands for the bytes after line 35; the prefix that line builds
      makes a real src at least three bytes long. */
  lemma FootprintOneByteBroadcast()
    ensures HideSpec([5], [200], 8, true) == Ok([7])
    ensures Steg.DecodeSpec([7], true, None) == Err(NoTerminator)
  {
    var h := SetHeader([5], 8);
    assert h == [7] by {
      HeaderSampleBits(5, 8);
      assert h[0] / 4 == 1 && h[0] % 4 == 3;
    }
    assert HideSpec([5], [200], 8, true) == EmbedSpec(h, 1, [200], 8) by {
      assert |[200]| <= |[5]| * 8 / 8;
    }
    EmbedWrites(h, 1, [200], 8);
    assert HideSpec([5], [200], 8, true) == Ok([7]);
    HideThenDecode([5], [200], 8, None);
  }
}
