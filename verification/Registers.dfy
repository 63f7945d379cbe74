/**
 What the checksum register does to a message, bit by bit: feeding a message divides its polynomial
 by the generator, feeding is linear, and a short burst of errors always leaves a trace.
 */
module Registers {
  import opened Gf2
  import opened Crc

  /** x^16 + x^15 + x^2 + 1 */
  const CRC16_EXPONENTS: seq<nat> := [16, 15, 2, 0]

  /** The generator of section 3.2.9 of IEEE Std 802.3. */
  const CRC32_EXPONENTS: seq<nat> := [32, 26, 23, 22, 16, 12, 11, 10, 8, 7, 5, 4, 2, 1, 0]

  // ---------------------------------------------------------------- bits of registers

  /** Bit `i` of a register. */
  predicate Bit(c: bv32, i: nat)
    decreases i
  {
    if i == 0 then Low(c) else Bit(Shr(c), i - 1)
  }

  /** No bit from `k` on. */
  predicate Fits(c: bv32, k: nat)
    decreases k
  {
    if k == 0 then c == 0 else Fits(Shr(c), k - 1)
  }

  lemma {:induction false} BitXor(c: bv32, d: bv32, i: nat)
    ensures Bit(Xor(c, d), i) <==> Bit(c, i) != Bit(d, i)
    decreases i
  {
    hide Xor, Shr, Low;
    XorParts(c, d);
    if i > 0 { BitXor(Shr(c), Shr(d), i - 1); }
  }

  lemma {:induction false} BitOfZero(i: nat)
    ensures !Bit(0, i)
  {
    hide Shr, Low;
    ZeroParts();
    if i > 0 { BitOfZero(i - 1); }
  }

  lemma {:induction false} BitOfUnit(b: bool, i: nat)
    ensures Bit(Unit(b), i) <==> b && i == 0
  {
    hide Shr, Low, Unit;
    UnitParts(b);
    if i > 0 { BitOfZero(i - 1); }
  }

  lemma {:induction false} NoBitBeyond(c: bv32, k: nat, i: nat)
    requires Fits(c, k) && k <= i
    ensures !Bit(c, i)
    decreases k
  {
    hide Shr, Low;
    if k == 0 { BitOfZero(i); } else { NoBitBeyond(Shr(c), k - 1, i - 1); }
  }

  lemma {:induction false} FitsFromBits(c: bv32, k: nat, n: nat)
    requires k <= n && Fits(c, n) && forall i: nat :: k <= i < n ==> !Bit(c, i)
    ensures Fits(c, k)
    decreases n
  {
    hide Shr, Low;
    if k > 0 {
      forall i: nat | k - 1 <= i < n - 1 ensures !Bit(Shr(c), i) { assert !Bit(c, i + 1); }
      FitsFromBits(Shr(c), k - 1, n - 1);
    } else if n > 0 {
      forall i: nat | i < n - 1 ensures !Bit(Shr(c), i) { assert !Bit(c, i + 1); }
      FitsFromBits(Shr(c), 0, n - 1);
      assert !Bit(c, 0);
      ZeroFromParts(c);
    }
  }

  lemma {:induction false} ZeroFits(k: nat)
    ensures Fits(0, k)
  {
    hide Shr, Low;
    ZeroParts();
    if k > 0 { ZeroFits(k - 1); }
  }

  lemma {:induction false} FitsXor(c: bv32, d: bv32, k: nat)
    requires Fits(c, k) && Fits(d, k)
    ensures Fits(Xor(c, d), k)
    decreases k
  {
    hide Xor, Shr, Low;
    if k == 0 {
      XorZero(0);
    } else {
      XorParts(c, d);
      FitsXor(Shr(c), Shr(d), k - 1);
    }
  }

  lemma {:induction false} FitsMore(c: bv32, k: nat)
    requires Fits(c, k)
    ensures Fits(c, k + 1)
    decreases k
  {
    hide Shr, Low;
    if k == 0 { ZeroParts(); } else { FitsMore(Shr(c), k - 1); }
  }

  lemma ByteFits(b: bv8)
    ensures Fits(WideByte(b), 8)
  {
    var c := b as bv32;
    assert c >> 1 >> 1 >> 1 >> 1 >> 1 >> 1 >> 1 >> 1 == 0;
    assert Shr(Shr(Shr(Shr(Shr(Shr(Shr(Shr(c)))))))) == 0;
  }

  // ---------------------------------------------------------------- bit by bit

  /** One message bit enters the register. */
  function Feed(g: bv32, c: bv32, b: bool): bv32 {
    BitStep(g, Xor(c, Unit(b)))
  }

  function FeedAll(g: bv32, c: bv32, bits: seq<bool>): bv32
    decreases |bits|
  {
    if bits == [] then c else FeedAll(g, Feed(g, c, bits[0]), bits[1..])
  }

  /** The lowest `n` bits of `x`, lowest first. */
  function LowBits(x: bv32, n: nat): (s: seq<bool>)
    ensures |s| == n
    ensures forall i :: 0 <= i < n ==> s[i] == Bit(x, i)
    decreases n
  {
    hide Shr, Low;
    if n == 0 then [] else [Low(x)] + LowBits(Shr(x), n - 1)
  }

  /** The message in the order in which the register takes it: each byte from its lowest bit. */
  function MessageBits(buf: seq<bv8>): (s: seq<bool>)
    ensures |s| == 8 * |buf|
  {
    if buf == [] then [] else LowBits(WideByte(buf[0]), 8) + MessageBits(buf[1..])
  }

  lemma {:induction false} FeedConcat(g: bv32, c: bv32, a: seq<bool>, b: seq<bool>)
    ensures FeedAll(g, c, a + b) == FeedAll(g, FeedAll(g, c, a), b)
    decreases |a|
  {
    hide Feed;
    if a == [] {
      assert a + b == b;
    } else {
      assert (a + b)[1..] == a[1..] + b;
      FeedConcat(g, Feed(g, c, a[0]), a[1..], b);
    }
  }

  lemma StepSplits(g: bv32, c: bv32, x: bv32)
    ensures BitStep(g, Xor(c, x)) == Xor(Feed(g, c, Low(x)), Shr(x))
  {
    hide Xor, Shr, Low, Unit;
    XorParts(c, x);
    XorParts(c, Unit(Low(x)));
    UnitParts(Low(x));
    XorZero(Shr(c));
    XorSwap(Shr(c), Shr(x), g);
  }

  lemma {:induction false} StepsFeed(g: bv32, c: bv32, x: bv32, k: nat)
    requires Fits(x, k)
    ensures Steps(g, Xor(c, x), k) == FeedAll(g, c, LowBits(x, k))
    decreases k
  {
    hide Xor, Shr, Low, BitStep, Feed;
    if k == 0 {
      XorZero(c);
    } else {
      StepSplits(g, c, x);
      var s := LowBits(x, k);
      assert s[1..] == LowBits(Shr(x), k - 1);
      StepsFeed(g, Feed(g, c, s[0]), Shr(x), k - 1);
    }
  }

  lemma {:induction false} UpdateIsFeeding(g: bv32, c: bv32, buf: seq<bv8>)
    ensures Update(g, c, buf) == FeedAll(g, c, MessageBits(buf))
    decreases |buf|
  {
    hide Steps, FeedAll, LowBits, Xor, WideByte;
    if buf == [] {
      FeedNothing(g, c);
    } else {
      ByteFits(buf[0]);
      StepsFeed(g, c, WideByte(buf[0]), 8);
      UpdateIsFeeding(g, ByteStep(g, c, buf[0]), buf[1..]);
      FeedConcat(g, c, LowBits(WideByte(buf[0]), 8), MessageBits(buf[1..]));
    }
  }

  lemma FeedNothing(g: bv32, c: bv32)
    ensures FeedAll(g, c, []) == c
  {
  }

  // ---------------------------------------------------------------- generators

  /** A register polynomial of width `w`: it has bit w - 1, the coefficient of x^0, and none from `w` on. */
  predicate Width(g: bv32, w: nat) {
    0 < w && Fits(g, w) && Bit(g, w - 1)
  }

  /** The coefficient of x^e in a register of width `w` is bit w - 1 - e. */
  predicate RegisterCoefficient(c: bv32, w: nat, e: nat) {
    e < w && Bit(c, w - 1 - e)
  }

  function RegisterPoly(c: bv32, w: nat): (p: Poly)
    ensures forall e: nat :: e in p <==> RegisterCoefficient(c, w, e)
  {
    set e: nat | e < w && RegisterCoefficient(c, w, e)
  }

  /** `g` holds the exponents of `exponents` below the leading one. */
  ghost predicate Represents(g: bv32, w: nat, exponents: seq<nat>) {
    Width(g, w) && Generator(exponents, w) && Mul({0}, exponents) == Add({w}, RegisterPoly(g, w))
  }

  lemma {:induction false} StepFits(g: bv32, c: bv32, w: nat)
    requires Width(g, w) && Fits(c, w)
    ensures Fits(BitStep(g, c), w)
  {
    hide Xor, Shr, Low;
    FitsMore(Shr(c), w - 1);
    FitsXor(Shr(c), g, w);
  }

  lemma UnitFits(b: bool, w: nat)
    requires w > 0
    ensures Fits(Unit(b), w)
  {
    hide Shr, Low, Unit;
    UnitParts(b);
    ZeroFits(w - 1);
  }

  lemma FeedFits(g: bv32, c: bv32, b: bool, w: nat)
    requires Width(g, w) && Fits(c, w)
    ensures Fits(Feed(g, c, b), w)
  {
    hide BitStep, Xor, Unit;
    UnitFits(b, w);
    FitsXor(c, Unit(b), w);
    StepFits(g, Xor(c, Unit(b)), w);
  }

  /** Bit `i` after a message bit `b`. */
  lemma FeedBit(g: bv32, c: bv32, b: bool, i: nat)
    ensures Bit(Feed(g, c, b), i) <==> Bit(c, i + 1) != ((Bit(c, 0) != b) && Bit(g, i))
  {
    hide Xor, Shr, Low, Unit;
    var x := Xor(c, Unit(b));
    BitXor(c, Unit(b), 0);
    BitXor(c, Unit(b), i + 1);
    BitOfUnit(b, 0);
    BitOfUnit(b, i + 1);
    BitXor(Shr(x), g, i);
    assert Bit(x, i + 1) == Bit(Shr(x), i);
  }

  // ---------------------------------------------------------------- the checksum is a remainder

  lemma FeedReduces(g: bv32, w: nat, exponents: seq<nat>, c: bv32, b: bool)
    requires Represents(g, w, exponents) && Fits(c, w)
    ensures RegisterPoly(Feed(g, c, b), w) == NextRemainder(RegisterPoly(c, w), b, w, exponents)
  {
    hide Bit, Feed, Fits, Mul, Add, Shift;
    var r, s := RegisterPoly(c, w), Add(Shift(RegisterPoly(c, w), 1), BitPoly(b, w));
    var next := NextRemainder(r, b, w, exponents);
    NextRemainderIsBelow(w, exponents, r, b);
    NoBitBeyond(c, w, w);
    assert w in s <==> Bit(c, 0) != b;
    forall e: nat | e < w ensures e in next <==> RegisterCoefficient(Feed(g, c, b), w, e) {
      FeedBit(g, c, b, w - 1 - e);
      assert e in s <==> e >= 1 && Bit(c, w - e);
      assert e in Mul({0}, exponents) <==> Bit(g, w - 1 - e);
    }
  }

  lemma {:induction false} FeedingIsDividing(g: bv32, w: nat, exponents: seq<nat>, bits: seq<bool>)
    requires Represents(g, w, exponents)
    ensures Fits(FeedAll(g, 0, bits), w)
    ensures IsRemainder(MessagePoly(bits), w, exponents, RegisterPoly(FeedAll(g, 0, bits), w))
    decreases |bits|
  {
    hide Represents, Fits, Feed, RegisterPoly, Mul, Add, Shift;
    if bits == [] {
      FeedNothing(g, 0);
      ZeroFits(w);
      EmptyMessage(w, exponents);
    } else {
      var n := |bits| - 1;
      var c := FeedAll(g, 0, bits[..n]);
      FeedingIsDividing(g, w, exponents, bits[..n]);
      assert bits == bits[..n] + [bits[n]];
      FeedConcat(g, 0, bits[..n], [bits[n]]);
      FeedOne(g, c, bits[n]);
      RepresentsWidth(g, w, exponents);
      FeedFits(g, c, bits[n], w);
      FeedReduces(g, w, exponents, c, bits[n]);
      NextRemainderIsRemainder(MessagePoly(bits[..n]), w, exponents, RegisterPoly(c, w), bits[n]);
      MessageGrows(bits[..n], bits[n]);
    }
  }

  lemma FeedOne(g: bv32, c: bv32, b: bool)
    ensures FeedAll(g, c, [b]) == Feed(g, c, b)
  {
    hide Feed;
    assert [b][1..] == [];
  }

  lemma RepresentsWidth(g: bv32, w: nat, exponents: seq<nat>)
    requires Represents(g, w, exponents)
    ensures Width(g, w) && Generator(exponents, w)
  {
  }

  lemma EmptyMessage(w: nat, exponents: seq<nat>)
    ensures IsRemainder(MessagePoly([]), w, exponents, RegisterPoly(0, w))
  {
    hide Bit;
    forall e: nat ensures !RegisterCoefficient(0, w, e) {
      if e < w { BitOfZero(w - 1 - e); }
    }
    MulZero(exponents);
    assert RegisterPoly(0, w) == {} && MessagePoly([]) == {};
    assert Divides({}, w, exponents, {}, {});
  }

  // ---------------------------------------------------------------- error detection

  function XorBits(a: seq<bool>, b: seq<bool>): (r: seq<bool>)
    requires |a| == |b|
    ensures |r| == |a| && forall i :: 0 <= i < |a| ==> r[i] == (a[i] != b[i])
  {
    seq(|a|, i requires 0 <= i < |a| => a[i] != b[i])
  }

  lemma LinearStep(g: bv32, c: bv32, d: bv32)
    ensures BitStep(g, Xor(c, d)) == Xor(BitStep(g, c), BitStep(g, d))
  {
    hide Xor, Shr, Low;
    XorParts(c, d);
    XorSwap(Shr(c), Shr(d), g);
    XorAssociative(Shr(c), Shr(d), g);
    XorPairs(Shr(c), Shr(d), g, g);
    XorSelf(g);
    XorZero(Xor(Shr(c), Shr(d)));
  }

  lemma FeedXor(g: bv32, c: bv32, d: bv32, a: bool, b: bool)
    ensures Feed(g, Xor(c, d), a != b) == Xor(Feed(g, c, a), Feed(g, d, b))
  {
    hide Xor, BitStep, Unit;
    LinearStep(g, Xor(c, Unit(a)), Xor(d, Unit(b)));
    UnitXor(a, b);
    XorPairs(c, d, Unit(a), Unit(b));
  }

  /** The checksum is linear. */
  lemma {:induction false} FeedAllXor(g: bv32, c: bv32, d: bv32, a: seq<bool>, b: seq<bool>)
    requires |a| == |b|
    ensures FeedAll(g, Xor(c, d), XorBits(a, b)) == Xor(FeedAll(g, c, a), FeedAll(g, d, b))
    decreases |a|
  {
    hide Feed, Xor;
    if a != [] {
      FeedXor(g, c, d, a[0], b[0]);
      assert XorBits(a, b)[1..] == XorBits(a[1..], b[1..]);
      FeedAllXor(g, Feed(g, c, a[0]), Feed(g, d, b[0]), a[1..], b[1..]);
    }
  }

  /** At most `w` bits take a register to zero only if they are its bits. */
  lemma {:induction false} OnlyItsOwnBitsClear(g: bv32, w: nat, c: bv32, bits: seq<bool>)
    requires Width(g, w) && Fits(c, w) && |bits| <= w && FeedAll(g, c, bits) == 0
    ensures forall i: nat :: Bit(c, i) <==> i < |bits| && bits[i]
    decreases |bits|
  {
    hide Feed, Width, Fits;
    if bits == [] {
      forall i: nat ensures !Bit(c, i) { BitOfZero(i); }
    } else {
      var next := Feed(g, c, bits[0]);
      FeedFits(g, c, bits[0], w);
      OnlyItsOwnBitsClear(g, w, next, bits[1..]);
      TopBitTells(g, w, c, bits[0]);
      forall i: nat ensures Bit(c, i) <==> i < |bits| && bits[i] {
        if i > 0 { FeedBit(g, c, bits[0], i - 1); }
      }
    }
  }

  /** The highest bit after a step tells whether the polynomial was added. */
  lemma TopBitTells(g: bv32, w: nat, c: bv32, b: bool)
    requires Width(g, w) && Fits(c, w)
    ensures Bit(Feed(g, c, b), w - 1) <==> Bit(c, 0) != b
  {
    hide Bit, Feed, Fits;
    FeedBit(g, c, b, w - 1);
    NoBitBeyond(c, w, w);
  }

  /** The bits of a register take it to zero. */
  lemma {:induction false} OwnBitsClear(g: bv32, c: bv32, n: nat)
    requires Fits(c, n)
    ensures FeedAll(g, c, LowBits(c, n)) == 0
    decreases n
  {
    hide Feed, Shr, Low;
    if n > 0 {
      OwnLowBit(g, c);
      assert LowBits(c, n)[1..] == LowBits(Shr(c), n - 1);
      OwnBitsClear(g, Shr(c), n - 1);
    }
  }

  lemma OwnLowBit(g: bv32, c: bv32)
    ensures Feed(g, c, Low(c)) == Shr(c)
  {
    hide Xor, Shr, Low, Unit;
    XorParts(c, Unit(Low(c)));
    UnitParts(Low(c));
    XorZero(Shr(c));
  }

  ghost predicate SameOutside(a: seq<bool>, b: seq<bool>, from: nat, to: nat) {
    |a| == |b| && forall i :: 0 <= i < |a| && !(from <= i < to) ==> a[i] == b[i]
  }

  /** No bits and a zero register stay zero; a register that is not zero does not become zero. */
  lemma {:induction false} ZerosKeep(g: bv32, w: nat, c: bv32, bits: seq<bool>)
    requires Width(g, w) && Fits(c, w) && forall i :: 0 <= i < |bits| ==> !bits[i]
    ensures FeedAll(g, c, bits) == 0 <==> c == 0
    decreases |bits|
  {
    hide Feed, Width, Fits;
    if bits != [] {
      FeedFits(g, c, bits[0], w);
      ZerosKeep(g, w, Feed(g, c, false), bits[1..]);
      ZeroStep(g, w, c);
    }
  }

  lemma ZeroStep(g: bv32, w: nat, c: bv32)
    requires Width(g, w) && Fits(c, w)
    ensures Feed(g, c, false) == 0 <==> c == 0
  {
    hide Bit, Feed, Fits;
    if c == 0 {
      OwnLowBitOfZero(g);
    } else if Feed(g, c, false) == 0 {
      TopBitTells(g, w, c, false);
      BitOfZero(w - 1);
      forall i: nat | 0 <= i < w ensures !Bit(c, i) {
        if i > 0 { FeedBit(g, c, false, i - 1); BitOfZero(i - 1); }
      }
      FitsFromBits(c, 0, w);
      FitsNone(c);
      assert false;
    }
  }

  /** The bit step never takes two registers to one. */
  lemma StepIsInjective(g: bv32, w: nat, c: bv32, d: bv32)
    requires Width(g, w) && Fits(c, w) && Fits(d, w) && BitStep(g, c) == BitStep(g, d)
    ensures c == d
  {
    hide Xor, BitStep, Fits, Width;
    var e := Xor(c, d);
    LinearStep(g, c, d);
    XorSelf(BitStep(g, c));
    XorZero(e);
    FitsXor(c, d, w);
    ZeroStep(g, w, e);
    XorNonZero(c, d);
  }

  function Shr8(c: bv32): bv32 {
    Shr(Shr(Shr(Shr(Shr(Shr(Shr(Shr(c))))))))
  }

  lemma NothingAbove(c: bv32, k: nat)
    requires Fits(c, k + 8)
    ensures Fits(Shr8(c), k)
  {
    hide Shr;
    assert Fits(Shr(c), k + 7);
    assert Fits(Shr(Shr(c)), k + 6);
    assert Fits(Shr(Shr(Shr(c))), k + 5);
    assert Fits(Shr(Shr(Shr(Shr(c)))), k + 4);
    assert Fits(Shr(Shr(Shr(Shr(Shr(c))))), k + 3);
    assert Fits(Shr(Shr(Shr(Shr(Shr(Shr(c)))))), k + 2);
    assert Fits(Shr(Shr(Shr(Shr(Shr(Shr(Shr(c))))))), k + 1);
  }

  lemma Shr8Is(c: bv32)
    ensures Shr8(c) == c >> 8
  {
  }

  lemma ShiftsAdd(c: bv32)
    ensures (c >> 8) >> 8 == c >> 16 && (c >> 16) >> 8 == c >> 24 && (c >> 24) >> 8 == 0
  {
  }

  /** A register that leaves the highest bit free survives a shift to the left and back. */
  lemma TopBitFree(c: bv32, k: nat)
    requires Fits(c, k) && k <= 31
    ensures c >> 31 == 0
  {
    hide Shr, Shr8, Fits;
    FitsUpTo(c, k, 31);
    NothingAbove(c, 23);
    NothingAbove(Shr8(c), 15);
    NothingAbove(Shr8(Shr8(c)), 7);
    Shr8Is(c);
    Shr8Is(Shr8(c));
    Shr8Is(Shr8(Shr8(c)));
    ShiftsAdd(c);
    SevenBits(c >> 24);
    TopOf(c);
  }

  lemma SevenBits(c: bv32)
    requires Fits(c, 7)
    ensures c >> 7 == 0
  {
    assert Shr(Shr(Shr(Shr(Shr(Shr(Shr(c))))))) == 0;
    assert c >> 1 >> 1 >> 1 >> 1 >> 1 >> 1 >> 1 == c >> 7;
  }

  lemma TopOf(c: bv32)
    ensures (c >> 24) >> 7 == c >> 31
  {
  }

  lemma {:induction false} FitsUpTo(c: bv32, k: nat, n: nat)
    requires Fits(c, k) && k <= n
    ensures Fits(c, n)
    decreases n - k
  {
    hide Fits;
    if k < n {
      FitsMore(c, k);
      FitsUpTo(c, k + 1, n);
    }
  }

  function Double(c: bv32): bv32 { c << 1 }

  lemma DoubleShifts(c: bv32)
    requires c >> 31 == 0
    ensures Shr(Double(c)) == c
  {
  }

  lemma DoubleIsEven(c: bv32)
    ensures !Low(Double(c))
  {
  }

  function Shl(c: bv32, low: bool): bv32 {
    Xor(Double(c), Unit(low))
  }

  lemma ShlParts(c: bv32, low: bool)
    requires c >> 31 == 0
    ensures Shr(Shl(c, low)) == c && Low(Shl(c, low)) == low
  {
    hide Xor, Shr, Low, Unit, Double;
    DoubleShifts(c);
    DoubleIsEven(c);
    UnitParts(low);
    XorParts(Double(c), Unit(low));
    XorZero(c);
  }

  /** The register before a step: its lowest bit was the highest one afterwards. */
  function StepBack(g: bv32, w: nat, d: bv32): bv32
    requires w > 0
  {
    Shl(if Bit(d, w - 1) then Xor(d, g) else d, Bit(d, w - 1))
  }

  /** The bit step is a bijection of the registers of its width: each has one predecessor. */
  lemma StepIsBijection(g: bv32, w: nat, c: bv32, d: bv32)
    requires Width(g, w) && w <= 32 && Fits(c, w) && Fits(d, w)
    ensures Fits(StepBack(g, w, d), w)
    ensures BitStep(g, c) == d <==> c == StepBack(g, w, d)
  {
    hide Xor, Shr, Low, Bit, Shl;
    var top := Bit(d, w - 1);
    var before, y := StepBack(g, w, d), if top then Xor(d, g) else d;
    BitXor(d, g, w - 1);
    FitsXor(d, g, w);
    FitsFromBits(y, w - 1, w);
    TopBitFree(y, w - 1);
    ShlParts(y, top);
    assert Fits(before, w);
    XorAssociative(d, g, g);
    XorSelf(g);
    XorZero(d);
    assert BitStep(g, before) == d;
    if BitStep(g, c) == d {
      StepIsInjective(g, w, c, before);
    }
  }

  lemma OwnLowBitOfZero(g: bv32)
    ensures Feed(g, 0, false) == 0
  {
    hide Xor, Unit;
    OwnLowBit(g, 0);
    ZeroParts();
  }

  lemma FitsNone(c: bv32)
    requires Fits(c, 0)
    ensures c == 0
  {
  }

  /** A difference of at most `w` consecutive bits, not all zero, leaves a register that is not zero. */
  lemma BurstLeavesATrace(g: bv32, w: nat, before: seq<bool>, burst: seq<bool>, after: seq<bool>, k: nat)
    requires Width(g, w) && |burst| <= w && k < |burst| && burst[k]
    requires forall i :: 0 <= i < |before| ==> !before[i]
    requires forall i :: 0 <= i < |after| ==> !after[i]
    ensures FeedAll(g, 0, before + (burst + after)) != 0
  {
    hide Feed, Width, Fits, FeedAll;
    FeedConcat(g, 0, before, burst + after);
    FeedConcat(g, FeedAll(g, 0, before), burst, after);
    ZeroFits(w);
    ZerosKeep(g, w, 0, before);
    var e := FeedAll(g, 0, burst);
    FeedAllFits(g, w, 0, burst);
    ZerosKeep(g, w, e, after);
    if e == 0 {
      OnlyItsOwnBitsClear(g, w, 0, burst);
      BitOfZero(k);
    }
  }

  lemma CutInThree(d: seq<bool>, from: nat, to: nat)
    requires from <= to <= |d|
    ensures d == d[..from] + (d[from..to] + d[to..])
  {
    assert d[from..] == d[from..to] + d[to..];
  }

  lemma QuietOutside(a: seq<bool>, b: seq<bool>, from: nat, limit: nat, to: nat)
    requires SameOutside(a, b, from, limit) && from <= to <= |a| && (to == limit || to == |a| <= limit)
    ensures forall i :: 0 <= i < from ==> !XorBits(a, b)[..from][i]
    ensures forall i :: 0 <= i < |a| - to ==> !XorBits(a, b)[to..][i]
  {
  }

  lemma FirstDifference(a: seq<bool>, b: seq<bool>, from: nat, to: nat) returns (at: nat)
    requires SameOutside(a, b, from, to) && a != b
    ensures |a| == |b| && from <= at < to && at < |a| && a[at] != b[at]
  {
    at :| at < |a| && a[at] != b[at];
  }

  /** Where two messages differ, cut into what comes before the burst, the burst and what follows. */
  lemma CutBurst(a: seq<bool>, b: seq<bool>, from: nat, w: nat)
      returns (before: seq<bool>, burst: seq<bool>, after: seq<bool>, k: nat)
    requires SameOutside(a, b, from, from + w) && a != b
    ensures |a| == |b| && XorBits(a, b) == before + (burst + after)
    ensures |burst| <= w && k < |burst| && burst[k]
    ensures forall i :: 0 <= i < |before| ==> !before[i]
    ensures forall i :: 0 <= i < |after| ==> !after[i]
  {
    hide XorBits, SameOutside;
    var at := FirstDifference(a, b, from, from + w);
    var d := XorBits(a, b);
    var to := if from + w <= |a| then from + w else |a|;
    CutInThree(d, from, to);
    QuietOutside(a, b, from, from + w, to);
    before, burst, after, k := d[..from], d[from..to], d[to..], at - from;
  }

  /** Messages that differ only within `w` consecutive bits have different checksums. */
  lemma BurstIsDetected(g: bv32, w: nat, c: bv32, a: seq<bool>, b: seq<bool>, from: nat)
    requires Width(g, w) && SameOutside(a, b, from, from + w) && a != b
    ensures FeedAll(g, c, a) != FeedAll(g, c, b)
  {
    hide Width, FeedAll, Xor, SameOutside;
    var before, burst, after, k := CutBurst(a, b, from, w);
    BurstLeavesATrace(g, w, before, burst, after, k);
    FeedAllXor(g, c, c, a, b);
    XorSelf(c);
    XorNonZero(FeedAll(g, c, a), FeedAll(g, c, b));
  }

  lemma {:induction false} FeedAllFits(g: bv32, w: nat, c: bv32, bits: seq<bool>)
    requires Width(g, w) && Fits(c, w)
    ensures Fits(FeedAll(g, c, bits), w)
    decreases |bits|
  {
    hide Feed, Width, Fits;
    if bits != [] {
      FeedFits(g, c, bits[0], w);
      FeedAllFits(g, w, Feed(g, c, bits[0]), bits[1..]);
    }
  }

  // ---------------------------------------------------------------- the two polynomials

  /** Bits `k`.. of the register as a bit string says them. */
  lemma {:induction false} BitsOf(c: bv32, s: seq<bool>, i: nat)
    requires i < |s| && Spells(c, s)
    ensures Bit(c, i) == s[i]
    decreases i
  {
    hide Shr, Low;
    if i > 0 { BitsOf(Shr(c), s[1..], i - 1); }
  }

  /** `s` lists all bits of `c`, lowest first. */
  predicate Spells(c: bv32, s: seq<bool>)
    decreases |s|
  {
    if s == [] then c == 0 else Low(c) == s[0] && Spells(Shr(c), s[1..])
  }

  lemma {:induction false} SpellsFits(c: bv32, s: seq<bool>)
    requires Spells(c, s)
    ensures Fits(c, |s|)
    decreases |s|
  {
    hide Shr, Low;
    if s != [] { SpellsFits(Shr(c), s[1..]); }
  }

  /** The bits of the register polynomial that go with the exponents of the generator. */
  function ReflectedBits(w: nat, exponents: seq<nat>): (s: seq<bool>)
    ensures |s| == w && forall i :: 0 <= i < w ==> s[i] == (w - 1 - i in exponents)
  {
    seq(w, i requires 0 <= i < w => w - 1 - i in exponents)
  }

  predicate Distinct(s: seq<nat>) {
    forall i, j :: 0 <= i < j < |s| ==> s[i] != s[j]
  }

  lemma {:induction false} ProductOfOne(exponents: seq<nat>)
    requires Distinct(exponents)
    ensures forall e: nat :: e in Mul({0}, exponents) <==> e in exponents
  {
    if exponents != [] {
      ProductOfOne(exponents[1..]);
      assert exponents == [exponents[0]] + exponents[1..];
    }
  }

  lemma RepresentsFromBits(g: bv32, w: nat, exponents: seq<nat>)
    requires w > 0 && Spells(g, ReflectedBits(w, exponents))
    requires Generator(exponents, w) && Distinct(exponents) && 0 in exponents
    ensures Represents(g, w, exponents)
  {
    hide Bit, Fits, Spells, Add;
    var s := ReflectedBits(w, exponents);
    SpellsFits(g, s);
    BitsOf(g, s, w - 1);
    ProductOfOne(exponents);
    var p, q := Mul({0}, exponents), Add({w}, RegisterPoly(g, w));
    forall e: nat ensures e in p <==> e in q {
      if e < w { BitsOf(g, s, w - 1 - e); }
    }
  }

  lemma SpellsCons(c: bv32, b: bool, s: seq<bool>)
    requires Low(c) == b && Spells(Shr(c), s)
    ensures Spells(c, [b] + s)
  {
    hide Shr, Low;
    assert ([b] + s)[1..] == s;
  }

  /** Four bits at a time. */
  lemma SpellsNibble(c: bv32, rest: bv32, b0: bool, b1: bool, b2: bool, b3: bool, s: seq<bool>)
    requires Spells(rest, s)
    requires Low(c) == b0 && Low(Shr(c)) == b1 && Low(Shr(Shr(c))) == b2 && Low(Shr(Shr(Shr(c)))) == b3
    requires Shr(Shr(Shr(Shr(c)))) == rest
    ensures Spells(c, [b0, b1, b2, b3] + s)
  {
    hide Shr, Low, Spells;
    SpellsCons(Shr(Shr(Shr(c))), b3, s);
    SpellsCons(Shr(Shr(c)), b2, [b3] + s);
    SpellsCons(Shr(c), b1, [b2] + ([b3] + s));
    SpellsCons(c, b0, [b1] + ([b2] + ([b3] + s)));
    assert [b0] + ([b1] + ([b2] + ([b3] + s))) == [b0, b1, b2, b3] + s;
  }

  lemma SpellsZero()
    ensures Spells(0, [])
  {
  }

  lemma SpellsCrc16() returns (s: seq<bool>)
    ensures Spells(CRC16_POLYNOMIAL, s)
    ensures |s| == 16 && forall i :: 0 <= i < 16 ==> s[i] == (15 - i in CRC16_EXPONENTS)
  {
    hide Spells;
    SpellsZero();
    s := [];
    SpellsNibble(0xA, 0x0, false, true, false, true, s);
    s := [false, true, false, true] + s;
    SpellsNibble(0xA0, 0xA, false, false, false, false, s);
    s := [false, false, false, false] + s;
    SpellsNibble(0xA00, 0xA0, false, false, false, false, s);
    s := [false, false, false, false] + s;
    SpellsNibble(0xA001, 0xA00, true, false, false, false, s);
    s := [true, false, false, false] + s;
  }

  lemma SpellsCrc32() returns (s: seq<bool>)
    ensures Spells(CRC32_POLYNOMIAL, s)
    ensures |s| == 32 && forall i :: 0 <= i < 32 ==> s[i] == (31 - i in CRC32_EXPONENTS)
  {
    hide Spells;
    SpellsZero();
    s := [];
    SpellsNibble(0xE, 0x0, false, true, true, true, s);
    s := [false, true, true, true] + s;
    SpellsNibble(0xED, 0xE, true, false, true, true, s);
    s := [true, false, true, true] + s;
    SpellsNibble(0xEDB, 0xED, true, true, false, true, s);
    s := [true, true, false, true] + s;
    SpellsNibble(0xEDB8, 0xEDB, false, false, false, true, s);
    s := [false, false, false, true] + s;
    SpellsNibble(0xEDB88, 0xEDB8, false, false, false, true, s);
    s := [false, false, false, true] + s;
    SpellsNibble(0xEDB883, 0xEDB88, true, true, false, false, s);
    s := [true, true, false, false] + s;
    SpellsNibble(0xEDB8832, 0xEDB883, false, true, false, false, s);
    s := [false, true, false, false] + s;
    SpellsNibble(0xEDB88320, 0xEDB8832, false, false, false, false, s);
    s := [false, false, false, false] + s;
  }

  lemma Polynomials()
    ensures Represents(CRC16_POLYNOMIAL, 16, CRC16_EXPONENTS)
    ensures Represents(CRC32_POLYNOMIAL, 32, CRC32_EXPONENTS)
  {
    hide Spells, Represents;
    var s := SpellsCrc16();
    assert s == ReflectedBits(16, CRC16_EXPONENTS);
    RepresentsFromBits(CRC16_POLYNOMIAL, 16, CRC16_EXPONENTS);
    var t := SpellsCrc32();
    assert t == ReflectedBits(32, CRC32_EXPONENTS);
    RepresentsFromBits(CRC32_POLYNOMIAL, 32, CRC32_EXPONENTS);
  }
}
