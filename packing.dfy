/** The bit packer of steg.py: `bititer` splits bytes into w-bit symbols,
    most significant group first, and `byteiter` joins groups of 8/w symbols
    back into numbers by printing them in binary and parsing the result. */
module Packing {
  import opened Bits
  import opened Outcomes

  /** The bitwidths the packer accepts: `count in (1, 2, 4, 8)`. */
  predicate IsWidth(w: int)
  {
    w == 1 || w == 2 || w == 4 || w == 8
  }

  /** Symbols per byte at width w: `8 // count`. */
  function Step(w: int): (s: nat)
    requires IsWidth(w)
    ensures 1 <= s <= 8
  {
    if w == 1 then 8 else if w == 2 then 4 else if w == 4 then 2 else 1
  }

  lemma StepWidth(w: int)
    requires IsWidth(w)
    ensures Step(w) * w == 8 && Step(w) == 8 / w
  {
  }

  function Min(a: int, b: int): (r: int)
  {
    if a <= b then a else b
  }

  // ---------------------------------------------------------------------------
  // bititer
  // ---------------------------------------------------------------------------

  /** The shift of the j-th group of a byte: `range(8 - count, -1, -count)[j]`. */
  function Shift(j: nat, w: int): (s: nat)
    requires IsWidth(w) && j < Step(w)
    ensures s + (j + 1) * w == 8
  {
    StepWidth(w);
    MulLe(w, j + 1, Step(w));
    8 - (j + 1) * w
  }

  /** One symbol of the comprehension: `n >> shift & mask` with `mask = ~(~0 << count)`,
      which is 2^count - 1. */
  function Symbol(n: Byte, j: nat, w: int): (r: Byte)
    requires IsWidth(w) && j < Step(w)
  {
    Pow2Monotone(w, 8);
    Pow2Values();
    And(Shr(n, Shift(j, w)), Pow2(w) - 1)
  }

  /** The j-th w-bit digit of n, most significant first, in plain arithmetic. */
  function Digit(n: nat, j: nat, w: int): (r: nat)
    requires IsWidth(w) && j < Step(w)
  {
    (n / Pow2(Shift(j, w))) % Pow2(w)
  }

  /** The symbols of one byte, in the order of `for shift in shifts`. */
  function Symbols(n: Byte, w: int): (s: seq<Byte>)
    requires IsWidth(w)
    ensures |s| == Step(w)
  {
    seq(Step(w), j requires 0 <= j < Step(w) => Symbol(n, j, w))
  }

  /** `[n >> shift & mask for n in nums for shift in shifts]`. */
  function Expand(nums: seq<Byte>, w: int): (s: seq<Byte>)
    requires IsWidth(w)
    ensures |s| == |nums| * Step(w)
  {
    if nums == [] then [] else Symbols(nums[0], w) + Expand(nums[1..], w)
  }

  /** steg.py `bititer`: rejects a count outside (1, 2, 4, 8); otherwise yields
      8/count symbols per byte, symbol j of byte i being its j-th count-bit digit. */
  function BitIter(nums: seq<Byte>, count: int): (r: Result<seq<Byte>>)
    ensures r.Err? <==> !IsWidth(count)
    ensures r.Err? ==> r.error == InvalidBitwidth
    ensures r.Ok? ==> |r.value| == |nums| * Step(count)
    ensures r.Ok? ==> forall k :: 0 <= k < |r.value| ==> r.value[k] < Pow2(count)
    ensures r.Ok? ==> forall i, j :: 0 <= i < |nums| && 0 <= j < Step(count) ==>
                        Index(i, j, count) < |r.value| && r.value[Index(i, j, count)] == Digit(nums[i], j, count)
  {
    if !IsWidth(count) then Err(InvalidBitwidth)
    else
      ExpandDigits(nums, count);
      ExpandFits(nums, count);
      Ok(Expand(nums, count))
  }

  /** The literal `n >> shift & mask` is the arithmetic digit, and fits in w bits. */
  lemma SymbolIsDigit(n: Byte, j: nat, w: int)
    requires IsWidth(w) && j < Step(w)
    ensures Symbol(n, j, w) == Digit(n, j, w) < Pow2(w)
  {
    ShrDiv(n, Shift(j, w));
    AndLowMask(Shr(n, Shift(j, w)), w);
  }

  /** Position i * step + j of the expansion is symbol j of byte i. */
  lemma {:induction false} ExpandAt(nums: seq<Byte>, w: int, i: nat, j: nat)
    requires IsWidth(w) && i < |nums| && j < Step(w)
    ensures i * Step(w) + j < |Expand(nums, w)|
    ensures Expand(nums, w)[i * Step(w) + j] == Symbol(nums[i], j, w)
    decreases i, 1
  {
    IndexInGroups(i, j, Step(w), |nums|);
    if i == 0 {
      assert Expand(nums, w)[j] == Symbols(nums[0], w)[j];
    } else {
      ExpandAtTail(nums, w, i, j);
    }
  }

  lemma {:induction false} ExpandAtTail(nums: seq<Byte>, w: int, i: nat, j: nat)
    requires IsWidth(w) && 0 < i < |nums| && j < Step(w)
    ensures i * Step(w) + j < |Expand(nums, w)|
    ensures Expand(nums, w)[i * Step(w) + j] == Symbol(nums[i], j, w)
    decreases i, 0
  {
    var s := Step(w);
    ExpandAt(nums[1..], w, i - 1, j);
    var k := (i - 1) * s + j;
    MulSucc(i - 1, s);
    ExpandShift(nums, w, k);
    assert nums[1..][i - 1] == nums[i];
  }

  /** Past the first byte's symbols, the expansion continues with the rest of the bytes. */
  lemma ExpandShift(nums: seq<Byte>, w: int, k: nat)
    requires IsWidth(w) && nums != [] && k < |Expand(nums[1..], w)|
    ensures Expand(nums, w)[Step(w) + k] == Expand(nums[1..], w)[k]
  {
  }

  /** The position of symbol j of byte i in the output of `bititer`. */
  function Index(i: nat, j: nat, w: int): (r: nat)
    requires IsWidth(w)
  {
    i * Step(w) + j
  }

  /** Symbol j of byte i of the expansion is the j-th digit of that byte. */
  lemma ExpandDigits(nums: seq<Byte>, w: int)
    requires IsWidth(w)
    ensures forall i, j :: 0 <= i < |nums| && 0 <= j < Step(w) ==>
              Index(i, j, w) < |Expand(nums, w)| && Expand(nums, w)[Index(i, j, w)] == Digit(nums[i], j, w)
  {
    forall i, j | 0 <= i < |nums| && 0 <= j < Step(w)
      ensures Index(i, j, w) < |Expand(nums, w)| && Expand(nums, w)[Index(i, j, w)] == Digit(nums[i], j, w)
    {
      ExpandAt(nums, w, i, j);
      SymbolIsDigit(nums[i], j, w);
    }
  }

  /** Every symbol of the expansion fits in w bits. */
  lemma {:induction false} ExpandFits(nums: seq<Byte>, w: int)
    requires IsWidth(w)
    ensures Fits(Expand(nums, w), w)
  {
    if nums != [] {
      var head := Symbols(nums[0], w);
      forall j | 0 <= j < |head| ensures head[j] < Pow2(w) {
        SymbolIsDigit(nums[0], j, w);
      }
      ExpandFits(nums[1..], w);
      FitsAppend(head, Expand(nums[1..], w), w);
    }
  }

  // ---------------------------------------------------------------------------
  // byteiter
  // ---------------------------------------------------------------------------

  function BitChar(b: nat): (r: char)
    requires b < 2
  {
    if b == 0 then '0' else '1'
  }

  /** `bin(n)[2:]`: the binary digits of n, without leading zeros ("0" for zero). */
  function BinDigits(n: nat): (s: seq<char>)
    ensures |s| >= 1
  {
    if n < 2 then [BitChar(n)] else BinDigits(n / 2) + [BitChar(n % 2)]
  }

  function Zeros(k: nat): (s: seq<char>)
    ensures |s| == k
  {
    seq(k, _ => '0')
  }

  /** `s.rjust(width, '0')`. */
  function RJust(s: seq<char>, width: nat): (t: seq<char>)
    ensures |t| == if |s| >= width then |s| else width
  {
    if |s| >= width then s else Zeros(width - |s|) + s
  }

  /** `''.join([bin(n)[2:].rjust(count, '0') for n in group])`. */
  function GroupText(g: seq<Byte>, w: nat): (r: seq<char>)
  {
    if g == [] then [] else GroupText(g[..|g| - 1], w) + RJust(BinDigits(g[|g| - 1]), w)
  }

  /** `int(s, 2)` on a string of binary digits. */
  function ParseBin(s: seq<char>): (r: nat)
  {
    if s == [] then 0 else 2 * ParseBin(s[..|s| - 1]) + (if s[|s| - 1] == '1' then 1 else 0)
  }

  /** The number one group of symbols becomes in `byteiter` (the groups it forms are
      never empty, see GroupsSized). */
  function Join(g: seq<Byte>, w: int): (r: nat)
    requires IsWidth(w)
  {
    ParseBin(GroupText(g, w))
  }

  /** The slices `bits[i:i + step]` for i in `range(0, len(bits), step)`; a trailing
      partial slice is kept. */
  function Groups(bits: seq<Byte>, step: nat): (gs: seq<seq<Byte>>)
    requires step >= 1
    decreases |bits|
  {
    if |bits| == 0 then []
    else if |bits| <= step then [bits]
    else [bits[..step]] + Groups(bits[step..], step)
  }

  /** Every group holds between one and `step` symbols. */
  lemma {:induction false} GroupsSized(bits: seq<Byte>, step: nat)
    requires step >= 1
    ensures forall k :: 0 <= k < |Groups(bits, step)| ==> 0 < |Groups(bits, step)[k]| <= step
    decreases |bits|
  {
    if |bits| > step {
      GroupsSized(bits[step..], step);
    }
  }

  /** Every group joined into one number. */
  function Joined(gs: seq<seq<Byte>>, w: int): (r: seq<nat>)
    requires IsWidth(w)
    ensures |r| == |gs|
  {
    seq(|gs|, k requires 0 <= k < |gs| => Join(gs[k], w))
  }

  /** What `byteiter` returns for a valid count: one joined number per group of 8/count symbols. */
  function Collapse(bits: seq<Byte>, w: int): (r: seq<nat>)
    requires IsWidth(w)
  {
    Joined(Groups(bits, Step(w)), w)
  }

  /** steg.py `byteiter`: rejects a count outside (1, 2, 4, 8); otherwise appends
      one joined group per step of 8/count symbols. */
  method ByteIter(bits: seq<Byte>, count: int) returns (r: Result<seq<nat>>)
    ensures !IsWidth(count) ==> r == Err(InvalidBitwidth)
    ensures IsWidth(count) ==> r == Ok(Collapse(bits, count))
  {
    if !IsWidth(count) {
      return Err(InvalidBitwidth);
    }
    var nums: seq<nat> := [];
    var step := 8 / count;
    StepWidth(count);
    var i := 0;
    while i < |bits|
      invariant 0 <= i
      invariant nums + Collapse(bits[Min(i, |bits|)..], count) == Collapse(bits, count)
    {
      var hi := Min(i + step, |bits|);
      CollapseStep(bits, count, i, nums);
      nums := nums + [Join(bits[i..hi], count)];
      i := i + step;
    }
    assert |Collapse(bits[Min(i, |bits|)..], count)| == 0;
    assert nums + [] == nums;
    return Ok(nums);
  }

  /** Joining distributes over concatenation of group lists. */
  lemma JoinedAppend(a: seq<seq<Byte>>, b: seq<seq<Byte>>, w: int)
    requires IsWidth(w)
    ensures Joined(a + b, w) == Joined(a, w) + Joined(b, w)
  {
    var l, r := Joined(a + b, w), Joined(a, w) + Joined(b, w);
    assert |l| == |r|;
    forall k | 0 <= k < |l| ensures l[k] == r[k] {
      if k < |a| {
        assert (a + b)[k] == a[k];
      } else {
        assert (a + b)[k] == b[k - |a|];
      }
    }
  }

  /** The groups from a group boundary i on: the group at i, then the groups after it. */
  lemma GroupsFrom(bits: seq<Byte>, s: nat, i: nat)
    requires s >= 1 && i < |bits|
    ensures Groups(bits[i..], s) == [bits[i..Min(i + s, |bits|)]] + Groups(bits[Min(i + s, |bits|)..], s)
  {
    var rest, hi := bits[i..], Min(i + s, |bits|);
    if |rest| > s {
      assert rest[..s] == bits[i..hi] && rest[s..] == bits[hi..];
    } else {
      assert rest == bits[i..hi] && bits[hi..] == [];
    }
  }

  /** The loop invariant of `byteiter` survives one turn. */
  lemma CollapseStep(bits: seq<Byte>, w: int, i: nat, nums: seq<nat>)
    requires IsWidth(w) && i < |bits|
    requires nums + Collapse(bits[Min(i, |bits|)..], w) == Collapse(bits, w)
    ensures var hi := Min(i + Step(w), |bits|);
      (nums + [Join(bits[i..hi], w)]) + Collapse(bits[hi..], w) == Collapse(bits, w)
  {
    var hi := Min(i + Step(w), |bits|);
    var x, rest := Join(bits[i..hi], w), Collapse(bits[hi..], w);
    CollapseFrom(bits, w, i);
    assert (nums + [x]) + rest == nums + ([x] + rest);
  }

  /** From a group boundary i on, `byteiter` yields the group at i joined, then the rest. */
  lemma CollapseFrom(bits: seq<Byte>, w: int, i: nat)
    requires IsWidth(w) && i < |bits|
    ensures var hi := Min(i + Step(w), |bits|);
      Collapse(bits[i..], w) == [Join(bits[i..hi], w)] + Collapse(bits[hi..], w)
  {
    var hi := Min(i + Step(w), |bits|);
    var g, rest := bits[i..hi], Groups(bits[hi..], Step(w));
    GroupsFrom(bits, Step(w), i);
    JoinedAppend([g], rest, w);
    assert Joined([g], w) == [Join(g, w)];
  }

  // ---------------------------------------------------------------------------
  // What a joined group means
  // ---------------------------------------------------------------------------

  /** The number the symbols of g spell as consecutive w-bit digits, most significant first. */
  function Spell(g: seq<Byte>, w: nat): (r: nat)
  {
    if g == [] then 0 else Spell(g[..|g| - 1], w) * Pow2(w) + g[|g| - 1]
  }

  predicate Fits(g: seq<Byte>, w: nat)
  {
    forall k :: 0 <= k < |g| ==> g[k] < Pow2(w)
  }

  lemma FitsAppend(a: seq<Byte>, b: seq<Byte>, w: nat)
    requires Fits(a, w) && Fits(b, w)
    ensures Fits(a + b, w)
  {
  }

  lemma {:induction false} ParseBinAppend(a: seq<char>, b: seq<char>)
    ensures ParseBin(a + b) == ParseBin(a) * Pow2(|b|) + ParseBin(b)
    decreases |b|
  {
    if b != [] {
      var b' := b[..|b| - 1];
      assert (a + b)[..|a + b| - 1] == a + b';
      ParseBinAppend(a, b');
      MulPow2Succ(ParseBin(a), |b'|);
    } else {
      assert a + b == a;
    }
  }

  lemma {:induction false} ParseBinZeros(k: nat)
    ensures ParseBin(Zeros(k)) == 0
  {
    if k > 0 {
      assert Zeros(k)[..k - 1] == Zeros(k - 1);
      ParseBinZeros(k - 1);
    }
  }

  /** `int(bin(n)[2:], 2) == n`, and the digits fit the width n is below. */
  lemma {:induction false} ParseBinDigits(n: nat, w: nat)
    requires n < Pow2(w)
    ensures ParseBin(BinDigits(n)) == n
    ensures w >= 1 ==> |BinDigits(n)| <= w
  {
    if n >= 2 {
      var s := BinDigits(n);
      assert s[..|s| - 1] == BinDigits(n / 2);
      ParseBinDigits(n / 2, w - 1);
    }
  }

  /** Padding with zeros to the width keeps the value and yields exactly w digits. */
  lemma RJustDigits(n: nat, w: nat)
    requires w >= 1 && n < Pow2(w)
    ensures ParseBin(RJust(BinDigits(n), w)) == n
    ensures |RJust(BinDigits(n), w)| == w
  {
    ParseBinDigits(n, w);
    RJustValue(BinDigits(n), w);
  }

  /** Left padding with zeros keeps the value of a binary string. */
  lemma RJustValue(s: seq<char>, w: nat)
    requires |s| <= w
    ensures ParseBin(RJust(s, w)) == ParseBin(s) && |RJust(s, w)| == w
  {
    if |s| < w {
      var z := Zeros(w - |s|);
      ParseBinAppend(z, s);
      ParseBinZeros(w - |s|);
    }
  }

  /** `int(''.join(...), 2)` of symbols below 2^w is the number they spell. */
  lemma {:induction false} GroupTextSpells(g: seq<Byte>, w: int)
    requires IsWidth(w) && Fits(g, w)
    ensures ParseBin(GroupText(g, w)) == Spell(g, w)
    ensures |GroupText(g, w)| == |g| * w
  {
    if g != [] {
      var g' := g[..|g| - 1];
      assert Fits(g', w);
      GroupTextSpells(g', w);
      RJustDigits(g[|g| - 1], w);
      ParseBinAppend(GroupText(g', w), RJust(BinDigits(g[|g| - 1]), w));
    }
  }

  /** A group of k symbols below 2^w spells a number below 2^(k*w). */
  lemma {:induction false} SpellBound(g: seq<Byte>, w: nat)
    requires Fits(g, w)
    ensures Spell(g, w) < Pow2(|g| * w)
  {
    if g != [] {
      var g' := g[..|g| - 1];
      assert Fits(g', w);
      SpellBound(g', w);
      DigitAppendBound(Spell(g', w), g[|g| - 1], Pow2(w), Pow2(|g'| * w));
      Pow2Add(|g'| * w, w);
      MulSucc(|g'|, w);
    }
  }

  /** The first k digits of a byte spell the byte shifted right past the rest. */
  lemma {:induction false} SpellPrefix(n: Byte, w: int, k: nat)
    requires IsWidth(w) && k <= Step(w)
    ensures k * w <= 8
    ensures Spell(Symbols(n, w)[..k], w) == n / Pow2(8 - k * w)
    decreases k, 1
  {
    StepWidth(w);
    MulLe(w, k, Step(w));
    if k == 0 {
      Pow2Values();
      ModSmall(n, 256);
    } else {
      SpellPrefixStep(n, w, k);
    }
  }

  lemma {:induction false} SpellPrefixStep(n: Byte, w: int, k: nat)
    requires IsWidth(w) && 0 < k <= Step(w)
    ensures k * w <= 8
    ensures Spell(Symbols(n, w)[..k], w) == n / Pow2(8 - k * w)
    decreases k, 0
  {
    var s := Symbols(n, w);
    ShiftNext(k, w);
    SpellPrefixLast(s, k, w);
    SpellPrefix(n, w, k - 1);
    SymbolIsDigit(n, k - 1, w);
    var sh := Shift(k - 1, w);
    SpellStep(n, sh, w);
    assert Spell(s[..k], w) == n / Pow2(sh) by {
      Substitute(Spell(s[..k], w), Spell(s[..k - 1], w), Pow2(w), s[k - 1],
                 n / Pow2(sh + w), (n / Pow2(sh)) % Pow2(w), n / Pow2(sh));
    }
  }

  /** `a == h*p + d`, with h and d replaced by equals. */
  lemma Substitute(a: int, h: int, p: int, d: int, h': int, d': int, v: int)
    requires a == h * p + d && h == h' && d == d' && h' * p + d' == v
    ensures a == v
  {
  }

  /** The shift of digit k - 1, against the bits the first k - 1 and k digits leave. */
  lemma ShiftNext(k: nat, w: int)
    requires IsWidth(w) && 0 < k <= Step(w)
    ensures 8 - (k - 1) * w == Shift(k - 1, w) + w && 8 - k * w == Shift(k - 1, w)
  {
    MulSucc(k - 1, w);
  }

  /** Spelling a prefix peels off its last digit. */
  lemma SpellPrefixLast(g: seq<Byte>, k: nat, w: nat)
    requires 0 < k <= |g|
    ensures Spell(g[..k], w) == Spell(g[..k - 1], w) * Pow2(w) + g[k - 1]
  {
    assert g[..k][..k - 1] == g[..k - 1];
  }

  /** One more digit: `(n >> (s + w)) * 2^w + ((n >> s) % 2^w) == n >> s`. */
  lemma SpellStep(n: nat, s: nat, w: nat)
    ensures (n / Pow2(s + w)) * Pow2(w) + (n / Pow2(s)) % Pow2(w) == n / Pow2(s)
  {
    Pow2Add(s, w);
    DivDiv(n, Pow2(s), Pow2(w));
  }

  /** Joining symbols below 2^w gives the number they spell. */
  lemma JoinSpells(g: seq<Byte>, w: int)
    requires IsWidth(w) && Fits(g, w)
    ensures Join(g, w) == Spell(g, w)
  {
    GroupTextSpells(g, w);
  }

  /** Every symbol of a byte is below 2^w. */
  lemma SymbolsFit(n: Byte, w: int)
    requires IsWidth(w)
    ensures Fits(Symbols(n, w), w)
  {
    var s := Symbols(n, w);
    forall k | 0 <= k < |s| ensures s[k] < Pow2(w) {
      SymbolIsDigit(n, k, w);
    }
  }

  /** The symbols of a byte spell the byte. */
  lemma SymbolsSpell(n: Byte, w: int)
    requires IsWidth(w)
    ensures Spell(Symbols(n, w), w) == n
  {
    var s := Symbols(n, w);
    StepWidth(w);
    SpellPrefix(n, w, Step(w));
    assert s[..Step(w)] == s;
    assert Pow2(8 - Step(w) * w) == 1;
  }

  /** Joining the symbols of a byte gives the byte back. */
  lemma JoinSymbols(n: Byte, w: int)
    requires IsWidth(w)
    ensures Join(Symbols(n, w), w) == n
  {
    SymbolsFit(n, w);
    JoinSpells(Symbols(n, w), w);
    SymbolsSpell(n, w);
  }

  /** The groups of packed bytes are the symbols of each byte. */
  lemma {:induction false} GroupsExpand(b: seq<Byte>, w: int)
    requires IsWidth(w) && |b| > 0
    ensures Groups(Expand(b, w), Step(w)) == [Symbols(b[0], w)] + Groups(Expand(b[1..], w), Step(w))
  {
    var e, s := Expand(b, w), Step(w);
    assert e == Symbols(b[0], w) + Expand(b[1..], w);
    if |b| == 1 {
      assert e == Symbols(b[0], w);
      assert Expand(b[1..], w) == [];
    } else {
      assert e[..s] == Symbols(b[0], w);
      assert e[s..] == Expand(b[1..], w);
    }
  }

  /** The round trip of the packer: `byteiter(bititer(b, w), w) == b`. */
  lemma {:induction false} RoundTrip(b: seq<Byte>, w: int)
    requires IsWidth(w)
    ensures Collapse(Expand(b, w), w) == b
  {
    if b != [] {
      var g, rest := Symbols(b[0], w), Groups(Expand(b[1..], w), Step(w));
      GroupsExpand(b, w);
      JoinedAppend([g], rest, w);
      JoinSymbols(b[0], w);
      assert Joined([g], w) == [b[0]];
      RoundTrip(b[1..], w);
      assert b == [b[0]] + b[1..];
    }
  }

  /** Grouping is compositional at group boundaries. */
  lemma {:induction false} GroupsAppend(a: seq<Byte>, b: seq<Byte>, s: nat)
    requires s >= 1 && |a| % s == 0
    ensures Groups(a + b, s) == Groups(a, s) + Groups(b, s)
    decreases |a|
  {
    if a == [] {
      assert a + b == b;
    } else if b == [] {
      assert a + b == a;
    } else {
      MultipleAtLeast(|a|, s);
      var ab := a + b;
      assert ab[..s] == a[..s];
      assert ab[s..] == a[s..] + b;
      if |a| == s {
        assert a[s..] + b == b;
      } else {
        ModSub(|a|, s);
        GroupsAppend(a[s..], b, s);
      }
    }
  }

  /** Collapsing is compositional at group boundaries. */
  lemma CollapseAppend(a: seq<Byte>, b: seq<Byte>, w: int)
    requires IsWidth(w) && |a| % Step(w) == 0
    ensures Collapse(a + b, w) == Collapse(a, w) + Collapse(b, w)
  {
    GroupsAppend(a, b, Step(w));
    JoinedAppend(Groups(a, Step(w)), Groups(b, Step(w)), w);
  }

  /** There are ceil(len(bits) / step) groups. */
  lemma {:induction false} GroupsLength(bits: seq<Byte>, s: nat)
    requires s >= 1
    ensures |Groups(bits, s)| == (|bits| + s - 1) / s
    decreases |bits|
  {
    if |bits| == 0 {
      ModSmall(s - 1, s);
    } else if |bits| <= s {
      DivModUnique(|bits| + s - 1, s, 1, |bits| - 1);
    } else {
      GroupsLength(bits[s..], s);
      var q := (|bits| - s + s - 1) / s;
      DivModUnique(|bits| + s - 1, s, q + 1, (|bits| - 1) % s);
    }
  }

  /** `byteiter` returns ceil(len(bits) / step) numbers. */
  lemma CollapseLength(bits: seq<Byte>, w: int)
    requires IsWidth(w)
    ensures |Collapse(bits, w)| == (|bits| + Step(w) - 1) / Step(w)
  {
    GroupsLength(bits, Step(w));
  }

  lemma SliceOfSuffix<T>(xs: seq<T>, s: nat, a: nat, e: nat)
    requires s <= |xs| && a <= e <= |xs| - s
    ensures xs[s..][a..e] == xs[s + a..s + e]
  {
  }

  /** Group j is `bits[j*step : (j+1)*step]`, clipped at the end. */
  lemma {:induction false} GroupsAt(bits: seq<Byte>, s: nat, j: nat)
    requires s >= 1 && j < |Groups(bits, s)|
    ensures j * s < |bits|
    ensures Groups(bits, s)[j] == bits[j * s..Min((j + 1) * s, |bits|)]
    decreases |bits|, 1
  {
    if j == 0 {
      if |bits| > s {
        assert bits[..s] == bits[0..Min(s, |bits|)];
      } else {
        assert bits == bits[0..Min(s, |bits|)];
      }
    } else {
      GroupsAtTail(bits, s, j);
    }
  }

  lemma {:induction false} GroupsAtTail(bits: seq<Byte>, s: nat, j: nat)
    requires s >= 1 && 0 < j < |Groups(bits, s)|
    ensures j * s < |bits|
    ensures Groups(bits, s)[j] == bits[j * s..Min((j + 1) * s, |bits|)]
    decreases |bits|, 0
  {
    assert |bits| > s;
    var tail := bits[s..];
    assert Groups(bits, s)[j] == Groups(tail, s)[j - 1];
    GroupsAt(tail, s, j - 1);
    var a, b, c := (j - 1) * s, j * s, (j + 1) * s;
    MulSucc(j - 1, s);
    MulSucc(j, s);
    assert s + a == b && s + Min(b, |bits| - s) == Min(c, |bits|);
    SliceOfSuffix(bits, s, a, Min(b, |bits| - s));
  }

  /** Number j of `byteiter` joins the symbols `bits[j*step : (j+1)*step]`, clipped at the end. */
  lemma CollapseAt(bits: seq<Byte>, w: int, j: nat)
    requires IsWidth(w) && j < |Collapse(bits, w)|
    ensures j * Step(w) < |bits|
    ensures Collapse(bits, w)[j] == Join(bits[j * Step(w)..Min((j + 1) * Step(w), |bits|)], w)
  {
    GroupsAt(bits, Step(w), j);
  }

  /** With symbols below 2^w, every number `byteiter` returns is a byte. */
  lemma CollapseBytes(bits: seq<Byte>, w: int)
    requires IsWidth(w) && Fits(bits, w)
    ensures forall j :: 0 <= j < |Collapse(bits, w)| ==> Collapse(bits, w)[j] < 256
  {
    forall j | 0 <= j < |Collapse(bits, w)| ensures Collapse(bits, w)[j] < 256 {
      GroupBytes(bits, w, j);
    }
  }

  lemma GroupBytes(bits: seq<Byte>, w: int, j: nat)
    requires IsWidth(w) && Fits(bits, w) && j < |Collapse(bits, w)|
    ensures Collapse(bits, w)[j] < 256
  {
    var s := Step(w);
    var g := Groups(bits, s)[j];
    GroupsSized(bits, s);
    GroupsAt(bits, s, j);
    assert Fits(g, w);
    JoinSpells(g, w);
    SpellBound(g, w);
    MulLe(w, |g|, s);
    StepWidth(w);
    Pow2Monotone(|g| * w, 8);
    Pow2Values();
  }
}
