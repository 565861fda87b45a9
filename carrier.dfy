/** The in-place write both encoders share (steg.py lines 75 and 79-85, hide.py
    lines 45 and 49-55): the width code goes into the low two bits of sample 0,
    then the low w bits of a run of samples are cleared and replaced by the
    payload's symbols. Also the reading side of the same bits: the width a decoder
    infers from sample 0 and the mask it applies to every sample. */
module Carrier {
  import opened Bits
  import opened Outcomes
  import opened Packing

  // ---------------------------------------------------------------------------
  // Per-sample operations
  // ---------------------------------------------------------------------------

  /** `(1, 2, 4, 8).index(w)`: the two-bit code of a width. */
  function WidthCode(w: int): (c: nat)
    requires IsWidth(w)
    ensures c < 4
  {
    if w == 1 then 0 else if w == 2 then 1 else if w == 4 then 2 else 3
  }

  /** `1 << (sample & 0b11)`: the width a decoder reads back from sample 0. */
  function InferWidth(x: Byte): (r: nat)
  {
    Shl(1, And(x, 3))
  }

  /** Two bytes OR-ed stay a byte (the `|=` of two uint8 arrays). */
  function OrByte(a: Byte, b: Byte): (r: Byte)
  {
    OrBound(a, b, 8);
    Pow2Values();
    Or(a, b)
  }

  /** `dest[0] & ~0b11 | code`: the header write of sample 0. */
  function HeaderSample(d: Byte, w: int): (r: Byte)
    requires IsWidth(w)
  {
    OrByte(And(d, 252), WidthCode(w))
  }

  /** `np.uint8(~0 << w)`, the clearing mask, taken modulo 256: 254, 252, 240 or 0. */
  function ClearMask(w: int): (r: nat)
    requires IsWidth(w)
  {
    (256 - Pow2(w)) % 256
  }

  /** `sample & np.uint8(~0 << w)`: the sample with its low w bits cleared. */
  function Cleared(x: Byte, w: int): (r: Byte)
    requires IsWidth(w)
  {
    And(x, ClearMask(w))
  }

  /** `sample & ~(~0 << w)`: the low w bits a decoder keeps. */
  function Low(x: Byte, w: nat): (r: Byte)
  {
    And(x, Pow2(w) - 1)
  }

  /** The header sample keeps the upper six bits, carries the width code in the low
      two, and a decoder infers the width back from it. */
  lemma HeaderSampleBits(d: Byte, w: int)
    requires IsWidth(w)
    ensures HeaderSample(d, w) / 4 == d / 4
    ensures HeaderSample(d, w) % 4 == WidthCode(w)
    ensures InferWidth(HeaderSample(d, w)) == w
  {
    var c, q := WidthCode(w), d / 4;
    Pow2Values();
    assert And(d, 252) == q * Pow2(2) by {
      AndHighMask(d, 2, 8);
    }
    OrLow(q, c, 2);
    var h := HeaderSample(d, w);
    assert h == q * 4 + c;
    DivModUnique(h, 4, q, c);
    AndLowMask(h, 2);
    ShlMul(1, c);
  }

  /** Whatever sample 0 holds, the inferred width is one the packer accepts. */
  lemma InferWidthValid(x: Byte)
    ensures IsWidth(InferWidth(x))
  {
    Pow2Values();
    AndLowMask(x, 2);
    ShlMul(1, And(x, 3));
    var c := x % 4;
    assert c == 0 || c == 1 || c == 2 || c == 3;
  }

  /** Clearing keeps exactly the bits above the low w: the sample rounded down to a
      multiple of 2^w. */
  lemma ClearedValue(x: Byte, w: int)
    requires IsWidth(w)
    ensures Cleared(x, w) == (x / Pow2(w)) * Pow2(w)
  {
    if w == 8 {
      ClearedWhole(x);
    } else {
      ClearedPart(x, w);
    }
  }

  lemma ClearedWhole(x: Byte)
    ensures Cleared(x, 8) == (x / Pow2(8)) * Pow2(8)
  {
    Pow2Values();
    assert ClearMask(8) == 0;
    assert x / 256 == 0;
  }

  lemma ClearedPart(x: Byte, w: int)
    requires IsWidth(w) && w < 8
    ensures Cleared(x, w) == (x / Pow2(w)) * Pow2(w)
  {
    ClearMaskValue(w);
    AndRoundDown(x, w, 8);
  }

  /** Below the full width, the mask is the eight-bit complement of 2^w - 1. */
  lemma ClearMaskValue(w: int)
    requires IsWidth(w) && w < 8
    ensures Pow2(8) == 256 && ClearMask(w) == Pow2(8) - Pow2(w)
  {
    Pow2Values();
    ModSmall(256 - Pow2(w), 256);
  }

  /** Clearing then OR-ing a symbol below 2^w keeps the sample's high bits and sets its
      low w bits to the symbol, which is what the decoder's mask reads back. */
  lemma WrittenBits(x: Byte, sym: Byte, w: int)
    requires IsWidth(w) && sym < Pow2(w)
    ensures OrByte(Cleared(x, w), sym) / Pow2(w) == x / Pow2(w)
    ensures OrByte(Cleared(x, w), sym) % Pow2(w) == sym
    ensures Low(OrByte(Cleared(x, w), sym), w) == sym
  {
    var p := Pow2(w);
    DivModNat(x, p);
    var q: nat, c := x / p, Cleared(x, w);
    assert c == q * p by {
      ClearedValue(x, w);
    }
    var y := OrByte(c, sym);
    assert y == q * p + sym by {
      OrLow(q, sym, w);
    }
    DivModUnique(y, p, q, sym);
    assert Low(y, w) == y % p by {
      AndLowMask(y, w);
    }
  }

  /** The decoder's mask leaves a value below 2^w. */
  lemma LowBound(x: Byte, w: nat)
    ensures Low(x, w) < Pow2(w)
  {
    AndLowMask(x, w);
  }

  // ---------------------------------------------------------------------------
  // The buffer as a sequence
  // ---------------------------------------------------------------------------

  /** The buffer after `dest[lo:hi] &= mask`. */
  function ClearSpan(s: seq<Byte>, lo: nat, hi: nat, w: int): (t: seq<Byte>)
    requires IsWidth(w) && lo <= hi <= |s|
  {
    seq(|s|, i requires 0 <= i < |s| => if lo <= i < hi then Cleared(s[i], w) else s[i])
  }

  /** The buffer after `dest[lo:lo + len(syms)] |= syms`. */
  function OrSpan(s: seq<Byte>, lo: nat, syms: seq<Byte>): (t: seq<Byte>)
    requires lo + |syms| <= |s|
  {
    seq(|s|, i requires 0 <= i < |s| => if lo <= i < lo + |syms| then OrByte(s[i], syms[i - lo]) else s[i])
  }

  /** The buffer after the header write of sample 0. */
  function SetHeader(s: seq<Byte>, w: int): (t: seq<Byte>)
    requires IsWidth(w) && |s| > 0
  {
    s[0 := HeaderSample(s[0], w)]
  }

  /** `len(payload) * 8 // w` samples carry the payload: its number of symbols. */
  lemma RunLength(n: nat, w: int)
    requires IsWidth(w)
    ensures n * 8 / w == n * Step(w)
  {
    StepWidth(w);
    assert n * 8 == w * (n * Step(w));
    DivModUnique(n * 8, w, n * Step(w), 0);
  }

  /** Lines 79-85 of steg.py (49-55 of hide.py): with `end = len(payload)*8//w + start`,
      clear the low bits of the clipped slice `dest[start:end]`, then OR in the symbols
      of the payload. NumPy accepts the OR when the symbols match the clipped slice in
      length, or when there is a single symbol, which it broadcasts over the slice;
      any other mismatch fails. */
  function EmbedSpec(s: seq<Byte>, start: nat, payload: seq<Byte>, w: int): (r: Result<seq<Byte>>)
    requires IsWidth(w) && start <= |s|
  {
    RunLength(|payload|, w);
    var end := |payload| * 8 / w + start;
    var e := Expand(payload, w);
    if end <= |s| then Ok(OrSpan(ClearSpan(s, start, end, w), start, e))
    else if |e| == 1 then Ok(OrSpan(ClearSpan(s, start, |s|, w), start, seq(|s| - start, _ => e[0])))
    else Err(ShapeMismatch)
  }

  /** The three outcomes of the write, against the clipped end `hi` of the slice. */
  lemma EmbedBranches(s: seq<Byte>, start: nat, payload: seq<Byte>, w: int, hi: int)
    requires IsWidth(w) && start <= |s| && hi == Min(|payload| * 8 / w + start, |s|)
    ensures start <= hi <= |s|
    ensures |Expand(payload, w)| == hi - start ==>
      EmbedSpec(s, start, payload, w) == Ok(OrSpan(ClearSpan(s, start, hi, w), start, Expand(payload, w)))
    ensures |Expand(payload, w)| != hi - start && |Expand(payload, w)| == 1 ==>
      hi == start && EmbedSpec(s, start, payload, w) == Ok(ClearSpan(s, start, hi, w))
    ensures |Expand(payload, w)| != hi - start && |Expand(payload, w)| != 1 ==>
      EmbedSpec(s, start, payload, w) == Err(ShapeMismatch)
  {
    RunLength(|payload|, w);
    OrSpanEmpty(ClearSpan(s, start, |s|, w), start);
  }

  /** OR-ing in no symbols changes nothing. */
  lemma OrSpanEmpty(s: seq<Byte>, lo: nat)
    requires lo <= |s|
    ensures OrSpan(s, lo, []) == s
  {
  }

  /** Every sample outside [lo, hi) is as it was. */
  predicate Untouched(s: seq<Byte>, t: seq<Byte>, lo: nat, hi: nat)
  {
    |t| == |s| && forall i :: 0 <= i < |s| && !(lo <= i < hi) ==> t[i] == s[i]
  }

  /** From lo on, each sample keeps its bits above the low w and carries the next
      symbol in its low w bits. */
  predicate Carries(s: seq<Byte>, t: seq<Byte>, lo: nat, syms: seq<Byte>, w: int)
    requires IsWidth(w)
  {
    lo + |syms| <= |s| == |t| &&
    forall i :: lo <= i < lo + |syms| ==> t[i] / Pow2(w) == s[i] / Pow2(w) && Low(t[i], w) == syms[i - lo]
  }

  /** The write fails exactly when the run of symbols passes the end of the buffer and
      is longer than one symbol. A run that fits changes only its own samples, where
      every sample keeps its high bits and carries the next symbol of the payload in
      its low w bits. A single symbol that does not fit starts at the end of the
      buffer, so the broadcast covers no sample and the buffer is unchanged. */
  lemma EmbedWrites(s: seq<Byte>, start: nat, payload: seq<Byte>, w: int)
    requires IsWidth(w) && start <= |s|
    ensures EmbedSpec(s, start, payload, w).Err? <==>
      start + |payload| * Step(w) > |s| && |payload| * Step(w) != 1
    ensures EmbedSpec(s, start, payload, w).Err? ==> EmbedSpec(s, start, payload, w).error == ShapeMismatch
    ensures EmbedSpec(s, start, payload, w).Ok? && start + |payload| * Step(w) <= |s| ==>
      var t := EmbedSpec(s, start, payload, w).value;
      Untouched(s, t, start, start + |payload| * Step(w)) && Carries(s, t, start, Expand(payload, w), w)
    ensures EmbedSpec(s, start, payload, w).Ok? && start + |payload| * Step(w) > |s| ==>
      start == |s| && |payload| * Step(w) == 1 && EmbedSpec(s, start, payload, w).value == s
  {
    RunLength(|payload|, w);
    var e := Expand(payload, w);
    ExpandFits(payload, w);
    if start + |e| <= |s| {
      var t := EmbedSpec(s, start, payload, w).value;
      forall i | 0 <= i < |s| && !(start <= i < start + |e|) ensures t[i] == s[i] {
        EmbedAt(s, start, payload, w, i);
      }
      forall i | start <= i < start + |e|
        ensures t[i] / Pow2(w) == s[i] / Pow2(w) && Low(t[i], w) == e[i - start]
      {
        EmbedAt(s, start, payload, w, i);
        WrittenBits(s[i], e[i - start], w);
      }
    } else if |e| == 1 {
      var t := EmbedSpec(s, start, payload, w).value;
      forall i | 0 <= i < |s| ensures t[i] == s[i] {
        EmbedAt(s, start, payload, w, i);
      }
    }
  }

  /** One sample of a successful write: the cleared old sample OR-ed with its symbol
      inside the run, the old sample outside it. A run that does not fit is a single
      symbol placed at the end of the buffer. */
  lemma EmbedAt(s: seq<Byte>, start: nat, payload: seq<Byte>, w: int, i: nat)
    requires IsWidth(w) && start <= |s| && i < |s|
    requires EmbedSpec(s, start, payload, w).Ok?
    ensures start + |Expand(payload, w)| <= |s| || (|Expand(payload, w)| == 1 && start == |s|)
    ensures EmbedSpec(s, start, payload, w).value[i] ==
      if start <= i < start + |Expand(payload, w)| then OrByte(Cleared(s[i], w), Expand(payload, w)[i - start])
      else s[i]
  {
    var e := Expand(payload, w);
    RunLength(|payload|, w);
    if start + |e| <= |s| {
      assert EmbedSpec(s, start, payload, w) == Ok(OrSpan(ClearSpan(s, start, start + |e|, w), start, e));
      SpanAt(s, start, e, w, i);
    } else {
      assert EmbedSpec(s, start, payload, w) == Ok(OrSpan(ClearSpan(s, start, |s|, w), start, []));
      SpanAt(s, start, [], w, i);
    }
  }

  /** One sample of a cleared-then-OR-ed span. */
  lemma SpanAt(s: seq<Byte>, lo: nat, syms: seq<Byte>, w: int, i: nat)
    requires IsWidth(w) && lo + |syms| <= |s| && i < |s|
    ensures OrSpan(ClearSpan(s, lo, lo + |syms|, w), lo, syms)[i] ==
      if lo <= i < lo + |syms| then OrByte(Cleared(s[i], w), syms[i - lo]) else s[i]
  {
    var c := ClearSpan(s, lo, lo + |syms|, w);
    assert c[i] == if lo <= i < lo + |syms| then Cleared(s[i], w) else s[i];
  }

  // ---------------------------------------------------------------------------
  // The buffer as an array, changed in place
  // ---------------------------------------------------------------------------

  /** `dest[0] = dest[0] & ~0b11 | code`. */
  method WriteHeader(dest: array<Byte>, w: int)
    requires IsWidth(w) && dest.Length > 0
    modifies dest
    ensures dest[..] == SetHeader(old(dest[..]), w)
  {
    dest[0] := HeaderSample(dest[0], w);
  }

  /** `dest[lo:hi] &= np.uint8(~0 << w)`. */
  method ClearRun(dest: array<Byte>, lo: nat, hi: nat, w: int)
    requires IsWidth(w) && lo <= hi <= dest.Length
    modifies dest
    ensures dest[..] == ClearSpan(old(dest[..]), lo, hi, w)
  {
    var i := lo;
    while i < hi
      invariant lo <= i <= hi
      invariant dest[..] == ClearSpan(old(dest[..]), lo, i, w)
    {
      dest[i] := Cleared(dest[i], w);
      i := i + 1;
    }
  }

  /** `dest[lo:lo + len(syms)] |= syms`. */
  method OrRun(dest: array<Byte>, lo: nat, syms: seq<Byte>)
    requires lo + |syms| <= dest.Length
    modifies dest
    ensures dest[..] == OrSpan(old(dest[..]), lo, syms)
  {
    var k := 0;
    while k < |syms|
      invariant 0 <= k <= |syms|
      invariant dest[..] == OrSpan(old(dest[..]), lo, syms[..k])
    {
      dest[lo + k] := OrByte(dest[lo + k], syms[k]);
      k := k + 1;
    }
    assert syms[..k] == syms;
  }

  /** The masked write of lines 79-85: clears the clipped slice `dest[start:end]`, then
      either fails, leaving the clearing in place, or ORs in the symbols, a single
      symbol broadcast over the whole slice. */
  method Embed(dest: array<Byte>, start: nat, payload: seq<Byte>, w: int) returns (r: Outcome)
    requires IsWidth(w) && start <= dest.Length
    modifies dest
    ensures EmbedSpec(old(dest[..]), start, payload, w).Ok? ==>
              r == Pass && dest[..] == EmbedSpec(old(dest[..]), start, payload, w).value
    ensures EmbedSpec(old(dest[..]), start, payload, w).Err? ==>
              r == Fail(ShapeMismatch) && dest[..] == ClearSpan(old(dest[..]), start, dest.Length, w)
  {
    ghost var s := dest[..];
    var end := |payload| * 8 / w + start;
    var hi := Min(end, dest.Length);
    EmbedBranches(s, start, payload, w, hi);
    ClearRun(dest, start, hi, w);
    var symbols := BitIter(payload, w);
    assert symbols == Ok(Expand(payload, w));
    var syms := symbols.value;
    if |syms| == hi - start {
      OrRun(dest, start, syms);
    } else if |syms| == 1 {
      // a lone symbol broadcast over the slice, which is empty here
      ghost var c := dest[..];
      var spread := seq(hi - start, _ => syms[0]);
      OrRun(dest, start, spread);
      assert spread == [];
      OrSpanEmpty(c, start);
    } else {
      return Fail(ShapeMismatch);
    }
    return Pass;
  }
}
