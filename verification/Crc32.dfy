/**
 The kernel's CRC-32 (generator 0x04C11DB7, most significant bit first, register
 preset to ones, no final XOR), as in Annex A of ISO/IEC 13818-1.

 The theory is about polynomials over GF(2), written as bit sequences with the
 highest coefficient first. `Compute` is the table-driven loop on 32-bit words; it
 is proved to return the remainder of polynomial division, and the register step is
 proved linear and invertible, which gives the error-detection results at the end.
 */
module Crc32 {
  import opened CrcTable

  type Bits = seq<bool>

  const PRESET: bv32 := 0xFFFFFFFF

  // ---------------------------------------------------------------------
  // Polynomials over GF(2)
  // ---------------------------------------------------------------------

  function Zeros(n: nat): (r: Bits)
    ensures |r| == n
  {
    seq(n, _ => false)
  }

  function Xor(a: Bits, b: Bits): (r: Bits)
    requires |a| == |b|
    ensures |r| == |a|
  {
    seq(|a|, i requires 0 <= i < |a| => a[i] != b[i])
  }

  /** Bit `i` of a word, counted from the most significant one. */
  predicate Bit(w: bv32, i: nat)
    decreases i
  {
    if i == 0 then w >= 0x80000000 else Bit(Double(w), i - 1)
  }

  /** The coefficients of a word, most significant bit first. */
  function WordBits(w: bv32): (r: Bits)
    ensures |r| == 32
  {
    seq(32, i requires 0 <= i => Bit(w, i))
  }

  /** The bits of a byte, most significant first. */
  function ByteBits(b: bv8): (r: Bits)
    ensures |r| == 8
  {
    WordBits((b as bv32) << (24 as bv6))[..8]
  }

  function MessageBits(m: seq<bv8>): (r: Bits)
    ensures |r| == 8 * |m|
  {
    if m == [] then [] else ByteBits(m[0]) + MessageBits(m[1..])
  }

  // x^32 modulo the generator; the generator itself has a leading one in front.
  const REDUCTION: Bits := WordBits(POLY)
  const GENERATOR: Bits := [true] + REDUCTION

  // ---------------------------------------------------------------------
  // The register, one bit at a time
  // ---------------------------------------------------------------------

  type Register = r: Bits | |r| == 32 witness Zeros(32)

  function TimesX(r: Register): Register {
    if r[0] then Xor(r[1..] + [false], REDUCTION) else r[1..] + [false]
  }

  function FeedBit(r: Register, bit: bool): Register {
    TimesX(r[0 := r[0] != bit])
  }

  function Feed(r: Register, bits: Bits): Register
    decreases |bits|
  {
    if bits == [] then r else Feed(FeedBit(r, bits[0]), bits[1..])
  }

  function Crc(m: seq<bv8>): Register {
    Feed(WordBits(PRESET), MessageBits(m))
  }

  function Ones(n: nat): (r: Bits)
    ensures |r| == n
  {
    seq(n, _ => true)
  }

  /** A word of ones, and zeros behind them. */
  lemma {:induction false} LeadingOnes(w: bv32, k: bv6, i: nat)
    requires k < 32 && w == 0xFFFFFFFF << k && k as int + i < 32
    ensures Bit(w, i)
    decreases i
  {
    if i == 0 {
      OnesOnTop(w, k);
    } else {
      NextOnes(w, k);
      LeadingOnes(Double(w), k + 1, i - 1);
    }
  }

  lemma OnesOnTop(w: bv32, k: bv6)
    requires k < 32 && w == 0xFFFFFFFF << k
    ensures w >= 0x80000000
  { }

  lemma NextOnes(w: bv32, k: bv6)
    requires k < 32 && w == 0xFFFFFFFF << k
    ensures Double(w) == 0xFFFFFFFF << (k + 1) && (k + 1) as int == k as int + 1
  { }

  /** The register is preset to ones; that is the CRC of no message at all. */
  lemma PresetIsOnes()
    ensures WordBits(PRESET) == Ones(32) == Crc([])
  {
    forall i | 0 <= i < 32
      ensures WordBits(PRESET)[i]
    {
      LeadingOnes(PRESET, 0, i);
    }
  }

  lemma {:induction false} FeedAppend(r: Register, u: Bits, v: Bits)
    ensures Feed(r, u + v) == Feed(Feed(r, u), v)
    decreases |u|
  {
    if u == [] {
      assert u + v == v;
    } else {
      assert (u + v)[1..] == u[1..] + v;
      FeedAppend(FeedBit(r, u[0]), u[1..], v);
    }
  }

  lemma {:induction false} MessageBitsAppend(a: seq<bv8>, b: seq<bv8>)
    ensures MessageBits(a + b) == MessageBits(a) + MessageBits(b)
  {
    if a == [] {
      assert a + b == b;
    } else {
      assert (a + b)[1..] == a[1..] + b;
      MessageBitsAppend(a[1..], b);
    }
  }

  /** The CRC of a concatenation continues from the register left by the first part. */
  lemma CrcAppend(a: seq<bv8>, b: seq<bv8>)
    ensures Crc(a + b) == Feed(Crc(a), MessageBits(b))
  {
    MessageBitsAppend(a, b);
    FeedAppend(WordBits(PRESET), MessageBits(a), MessageBits(b));
  }

  lemma CrcAppendByte(a: seq<bv8>, b: bv8)
    ensures Crc(a + [b]) == Feed(Crc(a), ByteBits(b))
  {
    CrcAppend(a, [b]);
    assert MessageBits([b]) == ByteBits(b) + [] == ByteBits(b);
  }

  // ---------------------------------------------------------------------
  // Linearity and invertibility of the register
  // ---------------------------------------------------------------------

  /** `n` multiplications by x. */
  function Shift(r: Register, n: nat): Register
    decreases n
  {
    if n == 0 then r else Shift(TimesX(r), n - 1)
  }

  lemma TimesXLinear(a: Register, b: Register)
    ensures TimesX(Xor(a, b)) == Xor(TimesX(a), TimesX(b))
  { }

  lemma {:induction false} ShiftLinear(a: Register, b: Register, n: nat)
    ensures Shift(Xor(a, b), n) == Xor(Shift(a, n), Shift(b, n))
    decreases n
  {
    if n > 0 {
      TimesXLinear(a, b);
      ShiftLinear(TimesX(a), TimesX(b), n - 1);
    }
  }

  lemma LastReductionBit()
    ensures REDUCTION[31]
  {
    ByteSteps(0x04C11DB7, 0xC11DB700, 23);
    ByteSteps(0xC11DB700, 0x1DB70000, 15);
    ByteSteps(0x1DB70000, 0xB7000000, 7);
    FourSteps(0xB7000000, 0x70000000, 3);
  }

  lemma FourSteps(w: bv32, w': bv32, i: nat)
    requires w' == Double(Double(Double(Double(w))))
    ensures Bit(w, i + 4) == Bit(w', i)
  {
    assert Bit(w, i + 4) == Bit(Double(Double(w)), i + 2);
  }

  lemma ByteSteps(w: bv32, w': bv32, i: nat)
    requires w' == w << (8 as bv6)
    ensures Bit(w, i + 8) == Bit(w', i)
  {
    var v := Double(Double(Double(Double(w))));
    FourSteps(w, v, i + 4);
    FourSteps(v, w', i);
  }

  /** The generator's constant term is one, so the last bit tells whether a reduction took place. */
  lemma TimesXInjective(a: Register, b: Register)
    requires TimesX(a) == TimesX(b)
    ensures a == b
  {
    LastReductionBit();
    assert a[0] == TimesX(a)[31] && b[0] == TimesX(b)[31];
    forall i | 0 < i < 32
      ensures a[i] == b[i]
    {
      assert a[i] == (TimesX(a)[i - 1] != (a[0] && REDUCTION[i - 1]));
      assert b[i] == (TimesX(b)[i - 1] != (b[0] && REDUCTION[i - 1]));
    }
  }

  lemma {:induction false} ShiftInjective(a: Register, b: Register, n: nat)
    requires Shift(a, n) == Shift(b, n)
    ensures a == b
    decreases n
  {
    if n > 0 {
      ShiftInjective(TimesX(a), TimesX(b), n - 1);
      TimesXInjective(a, b);
    }
  }

  /** Multiplication by x is onto, too: the last bit tells how to go back. */
  lemma TimesXOnto(b: Register) returns (a: Register)
    ensures TimesX(a) == b
  {
    LastReductionBit();
    a := [b[31]] + if b[31] then Xor(b, REDUCTION)[..31] else b[..31];
    assert a[1..] + [false] == if b[31] then Xor(b, REDUCTION) else b;
    if b[31] {
      assert Xor(Xor(b, REDUCTION), REDUCTION) == b;
    }
  }

  /** Every state is the outcome of feeding those bits to some state. */
  lemma {:induction false} FeedOnto(b: Register, bits: Bits) returns (a: Register)
    ensures Feed(a, bits) == b
    decreases |bits|
  {
    if bits == [] {
      a := b;
    } else {
      var b' := FeedOnto(b, bits[1..]);
      var a' := TimesXOnto(b');
      a := a'[0 := a'[0] != bits[0]];
      assert a[0 := a[0] != bits[0]] == a';
    }
  }

  lemma {:induction false} FeedInjective(a: Register, b: Register, bits: Bits)
    requires Feed(a, bits) == Feed(b, bits)
    ensures a == b
    decreases |bits|
  {
    if bits != [] {
      var a', b' := a[0 := a[0] != bits[0]], b[0 := b[0] != bits[0]];
      FeedInjective(TimesX(a'), TimesX(b'), bits[1..]);
      TimesXInjective(a', b');
      assert a == a'[0 := a'[0] != bits[0]] && b == b'[0 := b'[0] != bits[0]];
    }
  }

  /** Feeding at most 32 bits is one XOR at the top of the register and plain multiplications. */
  lemma {:induction false} FeedIsShift(r: Register, bits: Bits)
    requires |bits| <= 32
    ensures Feed(r, bits) == Shift(Xor(r, bits + Zeros(32 - |bits|)), |bits|)
    decreases |bits|
  {
    if bits == [] {
      assert Xor(r, bits + Zeros(32)) == r;
    } else {
      var rest := bits[1..] + Zeros(32 - |bits|);
      var r' := r[0 := r[0] != bits[0]];
      FeedIsShift(TimesX(r'), bits[1..]);
      assert bits[1..] + Zeros(32 - |bits[1..]|) == rest + [false];
      TimesXLinear(r', [false] + rest);
      NoReduction(rest);
      TopBitMoved(r, bits[0], rest);
      assert bits + Zeros(32 - |bits|) == [bits[0]] + rest;
    }
  }

  lemma NoReduction(rest: Bits)
    requires |rest| == 31
    ensures TimesX([false] + rest) == rest + [false]
  { }

  lemma TopBitMoved(r: Register, bit: bool, rest: Bits)
    requires |rest| == 31
    ensures Xor(r, [bit] + rest) == Xor(r[0 := r[0] != bit], [false] + rest)
  { }

  // ---------------------------------------------------------------------
  // The table-driven loop
  // ---------------------------------------------------------------------

  function TableStep(s: bv32, b: bv8): bv32 {
    (s << (8 as bv6)) ^ TABLE[(((s >> (24 as bv6)) ^ (b as bv32)) & 255) as int]
  }

  lemma XorTests(a: bv32, b: bv32, c: bv32)
    requires c == a ^ b
    ensures c >= 0x80000000 <==> (a >= 0x80000000) != (b >= 0x80000000)
  { }

  predicate IsXor(a: bv32, b: bv32, c: bv32) {
    c == a ^ b
  }

  lemma XorDoubled(a: bv32, b: bv32, c: bv32)
    requires IsXor(a, b, c)
    ensures IsXor(Double(a), Double(b), Double(c))
  { }

  lemma TopBitXor(a: bv32, b: bv32, c: bv32)
    requires IsXor(a, b, c)
    ensures Bit(c, 0) == (Bit(a, 0) != Bit(b, 0))
  {
    XorTests(a, b, c);
  }

  lemma NextBit(a: bv32, i: nat)
    requires i > 0
    ensures Bit(a, i) == Bit(Double(a), i - 1)
  { }

  lemma {:induction false} BitXor(a: bv32, b: bv32, c: bv32, i: nat)
    requires IsXor(a, b, c)
    ensures Bit(c, i) == (Bit(a, i) != Bit(b, i))
    decreases i
  {
    if i == 0 {
      TopBitXor(a, b, c);
    } else {
      XorDoubled(a, b, c);
      BitXor(Double(a), Double(b), Double(c), i - 1);
      NextBit(a, i);
      NextBit(b, i);
      NextBit(c, i);
    }
  }

  lemma WordBitsXor(a: bv32, b: bv32, c: bv32)
    requires c == a ^ b
    ensures WordBits(c) == Xor(WordBits(a), WordBits(b))
  {
    forall i | 0 <= i < 32
      ensures WordBits(c)[i] == (WordBits(a)[i] != WordBits(b)[i])
    {
      BitXor(a, b, c, i);
    }
  }

  lemma {:induction false} BitZero(i: nat)
    ensures !Bit(0, i)
  {
    if i > 0 {
      BitZero(i - 1);
    }
  }

  lemma BitPastEnd(w: bv32)
    ensures !Bit(w, 32)
  {
    ByteSteps(w, w << (8 as bv6), 24);
    ByteSteps(w << (8 as bv6), w << (16 as bv6), 16);
    ByteSteps(w << (16 as bv6), w << (24 as bv6), 8);
    ByteSteps(w << (24 as bv6), 0, 0);
    BitZero(0);
  }

  lemma WordBitsShl(s: bv32)
    ensures WordBits(Double(s)) == WordBits(s)[1..] + [false]
  {
    BitPastEnd(s);
    var s' := Double(s);
    forall i | 0 <= i < 32
      ensures WordBits(s')[i] == (WordBits(s)[1..] + [false])[i]
    {
      assert Bit(s, i + 1) == Bit(s', i);
    }
  }

  lemma WordBitsMulX(s: bv32)
    ensures WordBits(MulX(s)) == TimesX(WordBits(s))
  {
    WordBitsShl(s);
    WordBitsXor(Double(s), POLY, Double(s) ^ POLY);
  }

  lemma WordBitsMulX8(s: bv32)
    ensures WordBits(MulX8(s)) == Shift(WordBits(s), 8)
  {
    var s1 := MulX(s);   WordBitsMulX(s);
    var s2 := MulX(s1);  WordBitsMulX(s1);
    var s3 := MulX(s2);  WordBitsMulX(s2);
    var s4 := MulX(s3);  WordBitsMulX(s3);
    var s5 := MulX(s4);  WordBitsMulX(s4);
    var s6 := MulX(s5);  WordBitsMulX(s5);
    var s7 := MulX(s6);  WordBitsMulX(s6);
    WordBitsMulX(s7);
  }

  /** A byte at the top of a word, followed by zeros. */
  lemma ByteOnTop(b: bv8)
    ensures WordBits((b as bv32) << (24 as bv6)) == ByteBits(b) + Zeros(24)
  {
    var w := (b as bv32) << (24 as bv6);
    forall i | 8 <= i < 32
      ensures !WordBits(w)[i]
    {
      ByteSteps(w, 0, i - 8);
      BitZero(i - 8);
    }
  }

  lemma SplitWord(s: bv32, b: bv8)
    ensures s ^ ((b as bv32) << (24 as bv6)) ==
            ((((s >> (24 as bv6)) ^ (b as bv32)) & 255) << (24 as bv6)) ^ (s & 0x00FFFFFF)
  { }

  lemma SplitBits(s: bv32, b: bv8, high: bv32, low: bv32, w: bv32)
    requires w == s ^ ((b as bv32) << (24 as bv6)) && w == high ^ low
    ensures Xor(WordBits(s), ByteBits(b) + Zeros(24)) == Xor(WordBits(high), WordBits(low))
  {
    ByteOnTop(b);
    WordBitsXor(s, (b as bv32) << (24 as bv6), w);
    WordBitsXor(high, low, w);
  }

  lemma SplitIndex(s: bv32, b: bv8, i: bv32, low: bv32)
    requires i == ((s >> (24 as bv6)) ^ (b as bv32)) & 255 && low == s & 0x00FFFFFF
    ensures Xor(WordBits(s), ByteBits(b) + Zeros(24)) == Xor(WordBits(i << (24 as bv6)), WordBits(low))
  {
    SplitWord(s, b);
    var high := i << (24 as bv6);
    SplitBits(s, b, high, low, high ^ low);
  }

  /** Nothing is reduced while the top byte is zero. */
  lemma LowPart(s: bv32)
    ensures MulX8(s & 0x00FFFFFF) == s << (8 as bv6)
  { }

  lemma LowBits(s: bv32)
    ensures Shift(WordBits(s & 0x00FFFFFF), 8) == WordBits(s << (8 as bv6))
  {
    LowPart(s);
    WordBitsMulX8(s & 0x00FFFFFF);
  }

  lemma EntryBits(i: bv32)
    requires i <= 255
    ensures Shift(WordBits(i << (24 as bv6)), 8) == WordBits(TABLE[i as int])
  {
    Entry(i);
    WordBitsMulX8(i << (24 as bv6));
  }

  lemma FeedByte(r: Register, byte: Bits, high: Register, low: Register)
    requires |byte| == 8 && Xor(r, byte + Zeros(24)) == Xor(high, low)
    ensures Feed(r, byte) == Xor(Shift(low, 8), Shift(high, 8))
  {
    FeedIsShift(r, byte);
    ShiftLinear(high, low, 8);
    assert Xor(Shift(high, 8), Shift(low, 8)) == Xor(Shift(low, 8), Shift(high, 8));
  }

  /** One table step is eight register steps. */
  lemma TableStepIsFeed(s: bv32, b: bv8)
    ensures WordBits(TableStep(s, b)) == Feed(WordBits(s), ByteBits(b))
  {
    var i := ((s >> (24 as bv6)) ^ (b as bv32)) & 255;
    var low := s & 0x00FFFFFF;
    SplitIndex(s, b, i, low);
    FeedByte(WordBits(s), ByteBits(b), WordBits(i << (24 as bv6)), WordBits(low));
    LowBits(s);
    EntryBits(i);
    WordBitsXor(s << (8 as bv6), TABLE[i as int], TableStep(s, b));
  }

  method Compute(buffer: array<bv8>, length: int) returns (ret: bv32)
    requires 0 <= length <= buffer.Length
    ensures WordBits(ret) == Crc(buffer[..length])
    ensures length == 0 ==> ret == 0xFFFFFFFF
  {
    ret := PRESET;
    var k := 0;
    while k < length
      invariant 0 <= k <= length
      invariant WordBits(ret) == Crc(buffer[..k]) && (k == 0 ==> ret == 0xFFFFFFFF)
    {
      TableStepIsFeed(ret, buffer[k]);
      CrcAppendByte(buffer[..k], buffer[k]);
      assert buffer[..k + 1] == buffer[..k] + [buffer[k]];
      ret := TableStep(ret, buffer[k]);
      k := k + 1;
    }
  }

  // ---------------------------------------------------------------------
  // Polynomial division
  // ---------------------------------------------------------------------

  /** One step of long division: cancel the leading coefficient and drop it. */
  function DivisionStep(d: Bits): (r: Bits)
    requires |d| > 32
    ensures |r| == |d| - 1
  {
    Xor(d, Multiple(d[0]) + Zeros(|d| - 33))[1..]
  }

  /** The generator times a single coefficient. */
  function Multiple(bit: bool): (r: Bits)
    ensures |r| == 33
  {
    if bit then GENERATOR else Zeros(33)
  }

  function Remainder(d: Bits): (r: Register)
    requires |d| >= 32
    decreases |d|
  {
    if |d| == 32 then d else Remainder(DivisionStep(d))
  }

  function Quotient(d: Bits): (q: Bits)
    requires |d| >= 32
    ensures |q| == |d| - 32
    decreases |d|
  {
    if |d| == 32 then [] else [d[0]] + Quotient(DivisionStep(d))
  }

  /** The product of `q` and the generator. */
  function Product(q: Bits): (r: Bits)
    ensures |r| == |q| + 32
  {
    if q == [] then Zeros(32)
    else Xor(Multiple(q[0]) + Zeros(|q| - 1), [false] + Product(q[1..]))
  }

  /** A multiple of the generator and a remainder. */
  function Combined(q: Bits, r: Register): (d: Bits)
    ensures |d| == |q| + 32
  {
    Xor(Product(q), Zeros(|q|) + r)
  }

  /** `r` is what is left of `d` after taking away some multiple of the generator. */
  ghost predicate IsRemainder(d: Bits, q: Bits, r: Register)
    requires |d| == |q| + 32
  {
    d == Combined(q, r)
  }

  /** The generator times the leading one of `n` coefficients. */
  function Leading(bit: bool, n: nat): (r: Bits)
    requires n > 0
    ensures |r| == n + 32 && r[0] == bit
  {
    Multiple(bit) + Zeros(n - 1)
  }

  lemma CombinedStep(q: Bits, r: Register)
    requires q != []
    ensures Combined(q, r) == Xor(Leading(q[0], |q|), [false] + Combined(q[1..], r))
  {
    var lead, tail, rest := Leading(q[0], |q|), Product(q[1..]), Zeros(|q| - 1) + r;
    assert Product(q) == Xor(lead, [false] + tail);
    assert Zeros(|q|) + r == [false] + rest;
    XorMoved(lead, tail, rest);
  }

  lemma XorMoved(lead: Bits, a: Bits, b: Bits)
    requires |lead| == |a| + 1 == |b| + 1
    ensures Xor(Xor(lead, [false] + a), [false] + b) == Xor(lead, [false] + Xor(a, b))
  { }

  lemma StepUndone(d: Bits)
    requires |d| > 32
    ensures d == Xor(Leading(d[0], |d| - 32), [false] + DivisionStep(d))
  { }

  lemma {:induction false} DivisionIdentity(d: Bits)
    requires |d| >= 32
    ensures IsRemainder(d, Quotient(d), Remainder(d))
    decreases |d|
  {
    if |d| == 32 {
      assert d == Xor(Zeros(32), Zeros(0) + d);
    } else {
      DivisionIdentity(DivisionStep(d));
      StepUndone(d);
      assert Quotient(d)[1..] == Quotient(DivisionStep(d));
      CombinedStep(Quotient(d), Remainder(d));
    }
  }

  lemma XorCancels(lead: Bits, e: Bits, e': Bits)
    requires |lead| == |e| + 1 == |e'| + 1 && Xor(lead, [false] + e) == Xor(lead, [false] + e')
    ensures e == e'
  {
    forall i | 0 <= i < |e|
      ensures e[i] == e'[i]
    {
      assert Xor(lead, [false] + e)[i + 1] == (lead[i + 1] != e[i]);
      assert Xor(lead, [false] + e')[i + 1] == (lead[i + 1] != e'[i]);
    }
  }

  lemma {:induction false} RemainderUnique(q: Bits, r: Register, q': Bits, r': Register)
    requires |q| == |q'| && Combined(q, r) == Combined(q', r')
    ensures q == q' && r == r'
  {
    if q == [] {
      assert Combined(q, r) == r && Combined(q', r') == r';
    } else {
      CombinedStep(q, r);
      CombinedStep(q', r');
      assert Combined(q, r)[0] == q[0] && Combined(q', r')[0] == q'[0];
      XorCancels(Leading(q[0], |q|), Combined(q[1..], r), Combined(q'[1..], r'));
      RemainderUnique(q[1..], r, q'[1..], r');
    }
  }

  /**
   The dividend of a message: the message times x^32, with the preset added to its
   32 leading coefficients.
   */
  function Dividend(preset: Register, bits: Bits): (d: Bits)
    ensures |d| == |bits| + 32
  {
    Xor(bits + Zeros(32), preset + Zeros(|bits|))
  }

  lemma {:induction false} FeedIsRemainder(r: Register, bits: Bits)
    ensures Remainder(Dividend(r, bits)) == Feed(r, bits)
    decreases |bits|
  {
    var d := Dividend(r, bits);
    if bits == [] {
      assert d == r;
    } else {
      DivisionStepFeeds(r, bits);
      FeedIsRemainder(FeedBit(r, bits[0]), bits[1..]);
    }
  }

  lemma DivisionStepFeeds(r: Register, bits: Bits)
    requires bits != []
    ensures DivisionStep(Dividend(r, bits)) == Dividend(FeedBit(r, bits[0]), bits[1..])
  {
    var d := Dividend(r, bits);
    var lead := Multiple(d[0]) + Zeros(|d| - 33);
    var r' := FeedBit(r, bits[0]);
    assert d[0] == (r[0] != bits[0]);
    forall i | 0 <= i < |d| - 1
      ensures DivisionStep(d)[i] == Dividend(r', bits[1..])[i]
    {
      assert DivisionStep(d)[i] == (d[i + 1] != lead[i + 1]);
      assert (bits[1..] + Zeros(32))[i] == (bits + Zeros(32))[i + 1];
      if i < 31 {
        assert r'[i] == (r[i + 1] != (d[0] && REDUCTION[i]));
      } else if i == 31 {
        assert r'[i] == (d[0] && REDUCTION[i]);
      }
    }
  }

  /** The CRC is the only remainder of the dividend modulo the generator. */
  lemma CrcIsTheRemainder(m: seq<bv8>, q: Bits, r: Register)
    requires |q| == 8 * |m|
    requires IsRemainder(Dividend(Ones(32), MessageBits(m)), q, r)
    ensures r == Crc(m)
  {
    PresetIsOnes();
    var d := Dividend(WordBits(PRESET), MessageBits(m));
    FeedIsRemainder(WordBits(PRESET), MessageBits(m));
    DivisionIdentity(d);
    RemainderUnique(q, r, Quotient(d), Remainder(d));
  }

  lemma CrcIsARemainder(m: seq<bv8>)
    ensures exists q: Bits :: |q| == 8 * |m| &&
              IsRemainder(Dividend(Ones(32), MessageBits(m)), q, Crc(m))
  {
    PresetIsOnes();
    var d := Dividend(WordBits(PRESET), MessageBits(m));
    FeedIsRemainder(WordBits(PRESET), MessageBits(m));
    DivisionIdentity(d);
  }

  // ---------------------------------------------------------------------
  // Error detection
  // ---------------------------------------------------------------------

  /** From one register, different messages of the same length up to 32 bits lead apart. */
  lemma ShortFeedInjective(r: Register, u: Bits, v: Bits)
    requires |u| == |v| <= 32 && Feed(r, u) == Feed(r, v)
    ensures u == v
  {
    var n := |u|;
    FeedIsShift(r, u);
    FeedIsShift(r, v);
    var x, y := Xor(r, u + Zeros(32 - n)), Xor(r, v + Zeros(32 - n));
    ShiftInjective(x, y, n);
    forall i | 0 <= i < n
      ensures u[i] == v[i]
    {
      assert x[i] == (r[i] != u[i]) && y[i] == (r[i] != v[i]);
    }
  }

  lemma FeedBurst(r: Register, u: Bits, x: Bits, y: Bits, v: Bits)
    requires |x| == |y| <= 32 && x != y
    ensures Feed(r, u + x + v) != Feed(r, u + y + v)
  {
    var start := Feed(r, u);
    FeedAppend(r, u, x);
    FeedAppend(r, u, y);
    FeedAppend(r, u + x, v);
    FeedAppend(r, u + y, v);
    if Feed(start, x) == Feed(start, y) {
      ShortFeedInjective(start, x, y);
    } else if Feed(Feed(start, x), v) == Feed(Feed(start, y), v) {
      FeedInjective(Feed(start, x), Feed(start, y), v);
    }
  }

  /**
   Two different messages of the same length that differ only within a window of
   32 consecutive bits have different CRCs.
   */
  lemma BurstDetected(a: seq<bv8>, b: seq<bv8>, from: nat, width: nat)
    requires a != b && |a| == |b| && width <= 32 && from + width <= 8 * |a|
    requires MessageBits(a)[..from] == MessageBits(b)[..from]
    requires MessageBits(a)[from + width..] == MessageBits(b)[from + width..]
    ensures Crc(a) != Crc(b)
  {
    var u, v := MessageBits(a), MessageBits(b);
    var x, y := u[from..from + width], v[from..from + width];
    assert u == u[..from] + x + u[from + width..];
    assert v == u[..from] + y + u[from + width..];
    if x == y {
      MessageBitsInjective(a, b);
    } else {
      FeedBurst(WordBits(PRESET), u[..from], x, y, u[from + width..]);
    }
  }

  /** Two messages of the same length that differ in exactly one byte have different CRCs. */
  lemma OneByteDetected(front: seq<bv8>, x: bv8, y: bv8, back: seq<bv8>)
    requires x != y
    ensures Crc(front + [x] + back) != Crc(front + [y] + back)
  {
    if ByteBits(x) == ByteBits(y) {
      ByteBitsInjective(x, y);
    }
    ThreeParts(front, x, back);
    ThreeParts(front, y, back);
    FeedBurst(WordBits(PRESET), MessageBits(front), ByteBits(x), ByteBits(y), MessageBits(back));
  }

  lemma ThreeParts(front: seq<bv8>, x: bv8, back: seq<bv8>)
    ensures MessageBits(front + [x] + back) == MessageBits(front) + ByteBits(x) + MessageBits(back)
  {
    MessageBitsAppend(front + [x], back);
    MessageBitsAppend(front, [x]);
    assert [x][1..] == [];
    assert MessageBits([x]) == ByteBits(x) + [];
  }

  lemma {:induction false} MessageBitsInjective(a: seq<bv8>, b: seq<bv8>)
    requires |a| == |b| && MessageBits(a) == MessageBits(b)
    ensures a == b
  {
    if a != [] {
      var u, v := MessageBits(a), MessageBits(b);
      assert u[..8] == ByteBits(a[0]) && v[..8] == ByteBits(b[0]);
      assert u[8..] == MessageBits(a[1..]) && v[8..] == MessageBits(b[1..]);
      ByteBitsInjective(a[0], b[0]);
      MessageBitsInjective(a[1..], b[1..]);
    }
  }

  lemma ByteBitsInjective(a: bv8, b: bv8)
    requires ByteBits(a) == ByteBits(b)
    ensures a == b
  {
    SameHighNibble(a, b);
    SameLowNibble(a, b);
    NibblesMakeByte(a, b);
  }

  lemma SameTopBits(a: bv8, b: bv8, i: nat)
    requires ByteBits(a) == ByteBits(b) && i < 8
    ensures Bit((a as bv32) << (24 as bv6), i) == Bit((b as bv32) << (24 as bv6), i)
  {
    assert ByteBits(a)[i] == ByteBits(b)[i];
  }

  lemma SameHighNibble(a: bv8, b: bv8)
    requires ByteBits(a) == ByteBits(b)
    ensures ((a as bv32) << (24 as bv6)) >> (28 as bv6) == ((b as bv32) << (24 as bv6)) >> (28 as bv6)
  {
    var v, w := (a as bv32) << (24 as bv6), (b as bv32) << (24 as bv6);
    forall i | 0 <= i < 4
      ensures Bit(v, i) == Bit(w, i)
    {
      SameTopBits(a, b, i);
    }
    TopNibbleEqual(v, w);
  }

  lemma SameLowNibble(a: bv8, b: bv8)
    requires ByteBits(a) == ByteBits(b)
    ensures ((a as bv32) << (24 as bv6) << (4 as bv6)) >> (28 as bv6) ==
            ((b as bv32) << (24 as bv6) << (4 as bv6)) >> (28 as bv6)
  {
    var v, w := (a as bv32) << (24 as bv6), (b as bv32) << (24 as bv6);
    var v4, w4 := v << (4 as bv6), w << (4 as bv6);
    forall i | 0 <= i < 4
      ensures Bit(v4, i) == Bit(w4, i)
    {
      SameTopBits(a, b, i + 4);
      FourSteps(v, v4, i);
      FourSteps(w, w4, i);
    }
    TopNibbleEqual(v4, w4);
  }

  lemma NibblesMakeByte(a: bv8, b: bv8)
    requires var v, w := (a as bv32) << (24 as bv6), (b as bv32) << (24 as bv6);
             v >> (28 as bv6) == w >> (28 as bv6) &&
             (v << (4 as bv6)) >> (28 as bv6) == (w << (4 as bv6)) >> (28 as bv6)
    ensures a == b
  { }

  lemma TopNibbleEqual(v: bv32, w: bv32)
    requires forall i :: 0 <= i < 4 ==> Bit(v, i) == Bit(w, i)
    ensures v >> (28 as bv6) == w >> (28 as bv6)
  {
    assert Bit(v, 0) == Bit(w, 0) && Bit(v, 1) == Bit(w, 1);
    assert Bit(v, 2) == Bit(w, 2) && Bit(v, 3) == Bit(w, 3);
    var v1, w1 := Double(v), Double(w);
    var v2, w2 := Double(v1), Double(w1);
    var v3, w3 := Double(v2), Double(w2);
    assert Bit(v, 2) == Bit(v2, 0) && Bit(w, 2) == Bit(w2, 0);
    assert Bit(v, 3) == Bit(v1, 2) == Bit(v3, 0) && Bit(w, 3) == Bit(w1, 2) == Bit(w3, 0);
    TopNibble(v, w);
  }

  lemma TopNibble(v: bv32, w: bv32)
    requires v >= 0x80000000 <==> w >= 0x80000000
    requires Double(v) >= 0x80000000 <==> Double(w) >= 0x80000000
    requires Double(Double(v)) >= 0x80000000 <==> Double(Double(w)) >= 0x80000000
    requires Double(Double(Double(v))) >= 0x80000000 <==> Double(Double(Double(w))) >= 0x80000000
    ensures v >> (28 as bv6) == w >> (28 as bv6)
  { }

  function TopByte(w: bv32): bv8 {
    (w >> (24 as bv6)) as bv8
  }

  function BigEndian(w: bv32): seq<bv8> {
    [TopByte(w), TopByte(w << (8 as bv6)), TopByte(w << (16 as bv6)), TopByte(w << (24 as bv6))]
  }

  /**
   A message followed by four more bytes has CRC zero exactly when these bytes are the
   message's own CRC in big-endian order.
   */
  lemma AppendedCrc(m: seq<bv8>, crc: bv32, tail: seq<bv8>)
    requires WordBits(crc) == Crc(m) && |tail| == 4
    ensures Crc(m + tail) == Zeros(32) <==> tail == BigEndian(crc)
  {
    var c, t := Crc(m), MessageBits(tail);
    CrcAppend(m, tail);
    FeedIsShift(c, c);
    assert Xor(c, c + Zeros(0)) == Zeros(32);
    ShiftZero(32);
    BigEndianBits(crc);
    if Crc(m + tail) == Zeros(32) {
      ShortFeedInjective(c, t, c);
      MessageBitsInjective(tail, BigEndian(crc));
    }
  }

  lemma BigEndianBits(w: bv32)
    ensures MessageBits(BigEndian(w)) == WordBits(w)
  {
    var w1, w2, w3 := w << (8 as bv6), w << (16 as bv6), w << (24 as bv6);
    PeelByte(w, w1);
    PeelByte(w1, w2);
    PeelByte(w2, w3);
    PeelByte(w3, 0);
    FourBytes(TopByte(w), TopByte(w1), TopByte(w2), TopByte(w3));
    FourParts(WordBits(w), WordBits(w1), WordBits(w2), WordBits(w3));
  }

  lemma FourParts(x: Register, x1: Register, x2: Register, x3: Register)
    requires x[8..] == x1[..24] && x1[8..] == x2[..24] && x2[8..] == x3[..24]
    ensures x == x[..8] + x1[..8] + x2[..8] + x3[..8]
  {
    assert x == x[..8] + x1[..24];
    assert x1[..24] == x1[..8] + x2[..16] by {
      assert x1[..24] == x1[..8] + x1[8..][..16];
      assert x2[..24][..16] == x2[..16];
    }
    assert x2[..16] == x2[..8] + x3[..8] by {
      assert x2[..16] == x2[..8] + x2[8..][..8];
      assert x3[..24][..8] == x3[..8];
    }
  }

  lemma FourBytes(a: bv8, b: bv8, c: bv8, d: bv8)
    ensures MessageBits([a, b, c, d]) == ByteBits(a) + ByteBits(b) + ByteBits(c) + ByteBits(d)
  {
    assert MessageBits([d]) == ByteBits(d) + [];
    assert [c, d][1..] == [d] && [b, c, d][1..] == [c, d] && [a, b, c, d][1..] == [b, c, d];
    assert MessageBits([b, c, d]) == ByteBits(b) + (ByteBits(c) + ByteBits(d));
  }

  lemma PeelByte(w: bv32, w': bv32)
    requires w' == w << (8 as bv6)
    ensures WordBits(w)[..8] == ByteBits(TopByte(w))
    ensures WordBits(w)[8..] == WordBits(w')[..24]
  {
    var b := TopByte(w);
    TopByteDiffers(w, b);
    forall i | 0 <= i < 8
      ensures WordBits(w)[i] == ByteBits(b)[i]
    {
      TopByteBit(w, b, i);
    }
    forall i | 8 <= i < 32
      ensures WordBits(w)[i] == WordBits(w')[i - 8]
    {
      ByteSteps(w, w', i - 8);
    }
  }

  lemma TopByteBit(w: bv32, b: bv8, i: nat)
    requires i < 8 && w ^ ((b as bv32) << (24 as bv6)) <= 0x00FFFFFF
    ensures ByteBits(b)[i] == Bit(w, i)
  {
    var v := (b as bv32) << (24 as bv6);
    var d := w ^ v;
    BitXor(w, v, d, i);
    NoTopBits(d, i);
    assert ByteBits(b) == WordBits(v)[..8];
    assert WordBits(v)[i] == Bit(v, i);
  }

  lemma TopByteDiffers(w: bv32, b: bv8)
    requires b == TopByte(w)
    ensures w ^ ((b as bv32) << (24 as bv6)) <= 0x00FFFFFF
  { }

  lemma NoTopBits(d: bv32, i: nat)
    requires d <= 0x00FFFFFF && i < 8
    ensures !Bit(d, i)
  {
    var d4 := d << (4 as bv6);
    assert d4 <= 0x0FFFFFFF;
    if i < 4 {
      NoTopBits4(d, i);
    } else {
      FourSteps(d, d4, i - 4);
      NoTopBits4(d4, i - 4);
    }
  }

  lemma NoTopBits4(d: bv32, i: nat)
    requires d <= 0x0FFFFFFF && i < 4
    ensures !Bit(d, i)
  {
    var d1 := Double(d);
    var d2 := Double(d1);
    assert d1 <= 0x1FFFFFFF && d2 <= 0x3FFFFFFF && Double(d2) <= 0x7FFFFFFF;
    assert i >= 1 ==> Bit(d, i) == Bit(d1, i - 1);
    assert i >= 2 ==> Bit(d, i) == Bit(d2, i - 2);
  }

  lemma {:induction false} ShiftZero(n: nat)
    ensures Shift(Zeros(32), n) == Zeros(32)
  {
    if n > 0 {
      assert TimesX(Zeros(32)) == Zeros(32);
      ShiftZero(n - 1);
    }
  }
}
