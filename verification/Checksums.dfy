/**
 What the two checksums promise about messages of bytes: they are remainders of polynomial
 division, they tell apart messages with short bursts of errors, and a message followed by its own
 16-bit checksum has checksum zero.
 */
module Checksums {
  import opened Gf2
  import opened Crc
  import opened Registers

  lemma WidthOf(g: bv32, w: nat, exponents: seq<nat>)
    requires Represents(g, w, exponents)
    ensures Width(g, w)
  {
  }

  // ---------------------------------------------------------------- registers and their polynomials

  /** Registers of the same width with the same bits are equal. */
  lemma SameBits(c: bv32, d: bv32, w: nat)
    requires Fits(c, w) && Fits(d, w) && forall i: nat :: i < w ==> Bit(c, i) == Bit(d, i)
    ensures c == d
  {
    hide Bit, Fits, Xor;
    FitsXor(c, d, w);
    forall i: nat | i < w ensures !Bit(Xor(c, d), i) { BitXor(c, d, i); }
    FitsFromBits(Xor(c, d), 0, w);
    FitsNone(Xor(c, d));
    XorNonZero(c, d);
  }

  lemma RegisterIsItsPolynomial(c: bv32, d: bv32, w: nat)
    requires Fits(c, w) && Fits(d, w) && RegisterPoly(c, w) == RegisterPoly(d, w)
    ensures c == d
  {
    hide Bit, Fits;
    forall i: nat | i < w ensures Bit(c, i) == Bit(d, i) {
      assert RegisterCoefficient(c, w, w - 1 - i) <==> RegisterCoefficient(d, w, w - 1 - i);
    }
    SameBits(c, d, w);
  }

  // ---------------------------------------------------------------- remainders

  /** The checksum from zero is the one register whose polynomial is the remainder of the message. */
  lemma ChecksumIsRemainder(g: bv32, w: nat, exponents: seq<nat>, buf: seq<bv8>, c: bv32)
    requires Represents(g, w, exponents) && Fits(c, w)
    ensures IsRemainder(MessagePoly(MessageBits(buf)), w, exponents, RegisterPoly(c, w)) <==> c == Update(g, 0, buf)
  {
    hide Represents, Fits, RegisterPoly, IsRemainder, FeedAll, Update, MessageBits, MessagePoly;
    var m, d := MessagePoly(MessageBits(buf)), Update(g, 0, buf);
    UpdateIsFeeding(g, 0, buf);
    FeedingIsDividing(g, w, exponents, MessageBits(buf));
    if IsRemainder(m, w, exponents, RegisterPoly(c, w)) {
      RepresentsWidth(g, w, exponents);
      RemainderIsUnique(m, w, exponents, RegisterPoly(c, w), RegisterPoly(d, w));
      RegisterIsItsPolynomial(c, d, w);
    }
  }

  lemma Crc16IsRemainder(buf: seq<bv8>, c: bv32)
    requires Fits(c, 16)
    ensures IsRemainder(MessagePoly(MessageBits(buf)), 16, CRC16_EXPONENTS, RegisterPoly(c, 16))
            <==> c == Update(CRC16_POLYNOMIAL, 0, buf)
  {
    hide *;
    Polynomials();
    ChecksumIsRemainder(CRC16_POLYNOMIAL, 16, CRC16_EXPONENTS, buf, c);
  }

  lemma Crc32IsRemainder(buf: seq<bv8>, c: bv32)
    requires Fits(c, 32)
    ensures IsRemainder(MessagePoly(MessageBits(buf)), 32, CRC32_EXPONENTS, RegisterPoly(c, 32))
            <==> c == Update(CRC32_POLYNOMIAL, 0, buf)
  {
    hide *;
    Polynomials();
    ChecksumIsRemainder(CRC32_POLYNOMIAL, 32, CRC32_EXPONENTS, buf, c);
  }

  // ---------------------------------------------------------------- bursts of bytes

  lemma FirstByte(buf: seq<bv8>)
    requires buf != []
    ensures MessageBits(buf) == LowBits(WideByte(buf[0]), 8) + MessageBits(buf[1..])
  {
  }

  /** Bit `j` of byte `i` is message bit 8 i + j. */
  lemma {:induction false} MessageBitAt(buf: seq<bv8>, i: nat, j: nat)
    requires i < |buf| && j < 8
    ensures MessageBits(buf)[8 * i + j] == Bit(WideByte(buf[i]), j)
    decreases i
  {
    hide *;
    FirstByte(buf);
    var first, rest := LowBits(WideByte(buf[0]), 8), MessageBits(buf[1..]);
    if i == 0 {
      assert (first + rest)[j] == first[j];
    } else {
      MessageBitAt(buf[1..], i - 1, j);
      assert (first + rest)[8 * i + j] == rest[8 * (i - 1) + j];
    }
  }

  lemma ByteIsItsBits(x: bv8, y: bv8)
    requires WideByte(x) == WideByte(y)
    ensures x == y
  {
  }

  lemma DifferentBytes(x: bv8, y: bv8) returns (j: nat)
    requires x != y
    ensures j < 8 && Bit(WideByte(x), j) != Bit(WideByte(y), j)
  {
    hide Bit, WideByte, Fits;
    if forall i: nat :: i < 8 ==> Bit(WideByte(x), i) == Bit(WideByte(y), i) {
      ByteFits(x);
      ByteFits(y);
      SameBits(WideByte(x), WideByte(y), 8);
      ByteIsItsBits(x, y);
    }
    j :| j < 8 && Bit(WideByte(x), j) != Bit(WideByte(y), j);
  }

  ghost predicate SameBytesOutside(a: seq<bv8>, b: seq<bv8>, from: nat, to: nat) {
    |a| == |b| && forall i :: 0 <= i < |a| && !(from <= i < to) ==> a[i] == b[i]
  }

  lemma SameBitsOutside(a: seq<bv8>, b: seq<bv8>, from: nat, to: nat)
    requires SameBytesOutside(a, b, from, to)
    ensures SameOutside(MessageBits(a), MessageBits(b), 8 * from, 8 * to)
  {
    hide Bit, WideByte, MessageBits;
    var s, t := MessageBits(a), MessageBits(b);
    forall k | 0 <= k < |s| && !(8 * from <= k < 8 * to) ensures s[k] == t[k] {
      MessageBitAt(a, k / 8, k % 8);
      MessageBitAt(b, k / 8, k % 8);
    }
  }

  lemma DifferentMessages(a: seq<bv8>, b: seq<bv8>)
    requires |a| == |b| && a != b
    ensures MessageBits(a) != MessageBits(b)
  {
    hide Bit, WideByte, MessageBits;
    var i: nat :| i < |a| && a[i] != b[i];
    var j := DifferentBytes(a[i], b[i]);
    MessageBitAt(a, i, j);
    MessageBitAt(b, i, j);
  }

  /** Messages that differ only within as many adjacent bytes as the register has, differ in checksum. */
  lemma ByteBurstIsDetected(g: bv32, bytes: nat, c: bv32, a: seq<bv8>, b: seq<bv8>, from: nat)
    requires Width(g, 8 * bytes) && SameBytesOutside(a, b, from, from + bytes) && a != b
    ensures Update(g, c, a) != Update(g, c, b)
  {
    hide Width, MessageBits, FeedAll, Update, SameOutside;
    UpdateIsFeeding(g, c, a);
    UpdateIsFeeding(g, c, b);
    SameBitsOutside(a, b, from, from + bytes);
    DifferentMessages(a, b);
    BurstIsDetected(g, 8 * bytes, c, MessageBits(a), MessageBits(b), 8 * from);
  }

  lemma Crc16DetectsTwoAdjacentBytes(c: bv32, a: seq<bv8>, b: seq<bv8>, from: nat)
    requires SameBytesOutside(a, b, from, from + 2) && a != b
    ensures Update(CRC16_POLYNOMIAL, c, a) != Update(CRC16_POLYNOMIAL, c, b)
  {
    hide Update, Represents, Width;
    Polynomials();
    WidthOf(CRC16_POLYNOMIAL, 16, CRC16_EXPONENTS);
    ByteBurstIsDetected(CRC16_POLYNOMIAL, 2, c, a, b, from);
  }

  lemma Crc32DetectsFourAdjacentBytes(c: bv32, a: seq<bv8>, b: seq<bv8>, from: nat)
    requires SameBytesOutside(a, b, from, from + 4) && a != b
    ensures Update(CRC32_POLYNOMIAL, c, a) != Update(CRC32_POLYNOMIAL, c, b)
  {
    hide Update, Represents, Width;
    Polynomials();
    WidthOf(CRC32_POLYNOMIAL, 32, CRC32_EXPONENTS);
    ByteBurstIsDetected(CRC32_POLYNOMIAL, 4, c, a, b, from);
  }

  /** One message takes different registers to different registers. */
  lemma MessageKeepsRegistersApart(g: bv32, w: nat, c: bv32, d: bv32, buf: seq<bv8>)
    requires Width(g, w) && Fits(c, w) && Fits(d, w)
    ensures Update(g, c, buf) == Update(g, d, buf) <==> c == d
  {
    hide Update, MessageBits, FeedAll, Fits, Width, Xor;
    var bits := MessageBits(buf);
    UpdateIsFeeding(g, c, buf);
    UpdateIsFeeding(g, d, buf);
    FeedAllXor(g, c, d, bits, bits);
    FitsXor(c, d, w);
    ZerosKeep(g, w, Xor(c, d), XorBits(bits, bits));
    XorNonZero(c, d);
    XorNonZero(FeedAll(g, c, bits), FeedAll(g, d, bits));
  }

  lemma Crc16KeepsRegistersApart(a: seq<bv8>, buf: seq<bv8>)
    ensures Update(CRC16_POLYNOMIAL, 0, a + buf) == Update(CRC16_POLYNOMIAL, 0, buf)
            <==> Update(CRC16_POLYNOMIAL, 0, a) == 0
  {
    hide Update, MessageBits, FeedAll, Fits, Width, Represents;
    var g := CRC16_POLYNOMIAL;
    UpdateConcat(g, 0, a, buf);
    UpdateIsFeeding(g, 0, a);
    Polynomials();
    WidthOf(g, 16, CRC16_EXPONENTS);
    ZeroFits(16);
    FeedAllFits(g, 16, 0, MessageBits(a));
    MessageKeepsRegistersApart(g, 16, Update(g, 0, a), 0, buf);
  }

  // ---------------------------------------------------------------- the residue

  function Lifted(hi: bv8): bv32 { WideByte(hi) << 8 }

  /** A register from its low and high byte. */
  function Join(lo: bv8, hi: bv8): bv32 {
    Xor(WideByte(lo), Lifted(hi))
  }

  lemma ShiftedByte(hi: bv8)
    ensures Shr8(Lifted(hi)) == WideByte(hi)
  {
    var x := (hi as bv32) << 8;
    assert x >> 1 >> 1 >> 1 >> 1 >> 1 >> 1 >> 1 >> 1 == hi as bv32;
  }

  lemma NoLowNibble(x: bv32, i: nat)
    requires i < 4 && !Low(x) && !Low(Shr(x)) && !Low(Shr(Shr(x))) && !Low(Shr(Shr(Shr(x))))
    ensures !Bit(x, i)
  {
    hide Shr, Low;
    assert !Bit(Shr(Shr(Shr(x))), 0) && !Bit(Shr(Shr(x)), 0) && !Bit(Shr(x), 0);
    assert i >= 1 ==> Bit(x, i) == Bit(Shr(x), i - 1);
    assert i >= 2 ==> Bit(Shr(x), i - 1) == Bit(Shr(Shr(x)), i - 2);
    assert i >= 3 ==> Bit(Shr(Shr(x)), i - 2) == Bit(Shr(Shr(Shr(x))), i - 3);
  }

  lemma LowBitsOfShifted(hi: bv8, i: nat)
    requires i < 8
    ensures !Bit(Lifted(hi), i)
  {
    var x := (hi as bv32) << 8;
    var y := Shr(Shr(Shr(Shr(x))));
    assert y == (hi as bv32) << 4;
    if i < 4 {
      NoLowNibble(x, i);
    } else {
      NoLowNibble(y, i - 4);
      BitAboveNibble(x, i - 4);
    }
  }

  lemma BitAboveNibble(c: bv32, i: nat)
    ensures Bit(c, i + 4) == Bit(Shr(Shr(Shr(Shr(c)))), i)
  {
    hide Shr, Low;
    assert Bit(Shr(c), i + 3) == Bit(c, i + 4);
    assert Bit(Shr(Shr(c)), i + 2) == Bit(Shr(c), i + 3);
    assert Bit(Shr(Shr(Shr(c))), i + 1) == Bit(Shr(Shr(c)), i + 2);
  }

  lemma BitAbove(c: bv32, i: nat)
    ensures Bit(c, i + 8) == Bit(Shr8(c), i)
  {
    hide Shr, Low, Bit;
    BitAboveNibble(c, i + 4);
    BitAboveNibble(Shr(Shr(Shr(Shr(c)))), i);
  }

  /** The bits of a register made of two bytes are the message bits of those bytes. */
  lemma JoinBit(lo: bv8, hi: bv8, i: nat)
    requires i < 16
    ensures Bit(Join(lo, hi), i) == MessageBits([lo, hi])[i]
  {
    hide Bit, WideByte, Xor, MessageBits, Shr8, Fits, Lifted;
    BitXor(WideByte(lo), Lifted(hi), i);
    MessageBitAt([lo, hi], i / 8, i % 8);
    if i < 8 {
      LowBitsOfShifted(hi, i);
    } else {
      BitAbove(Lifted(hi), i - 8);
      ShiftedByte(hi);
      ByteFits(lo);
      NoBitBeyond(WideByte(lo), 8, i);
    }
  }

  lemma JoinAbove(lo: bv8, hi: bv8)
    ensures Shr8(Join(lo, hi)) == WideByte(hi)
  {
    var x := (lo as bv32) ^ ((hi as bv32) << 8);
    assert x >> 1 >> 1 >> 1 >> 1 >> 1 >> 1 >> 1 >> 1 == hi as bv32;
  }

  lemma FitsAbove(c: bv32, k: nat)
    requires Fits(Shr8(c), k)
    ensures Fits(c, k + 8)
  {
    hide Shr;
    assert Fits(Shr(Shr(Shr(Shr(Shr(Shr(Shr(c))))))), k + 1);
    assert Fits(Shr(Shr(Shr(Shr(Shr(Shr(c)))))), k + 2);
    assert Fits(Shr(Shr(Shr(Shr(Shr(c))))), k + 3);
    assert Fits(Shr(Shr(Shr(Shr(c)))), k + 4);
    assert Fits(Shr(Shr(Shr(c))), k + 5);
    assert Fits(Shr(Shr(c)), k + 6);
    assert Fits(Shr(c), k + 7);
  }

  lemma JoinFits(lo: bv8, hi: bv8)
    ensures Fits(Join(lo, hi), 16)
  {
    hide Fits, Shr8, Join, WideByte;
    JoinAbove(lo, hi);
    ByteFits(hi);
    FitsAbove(Join(lo, hi), 8);
  }

  /** Two more bytes take the checksum to zero iff they are its low and its high byte. */
  lemma ResidueIsZero(buf: seq<bv8>, lo: bv8, hi: bv8)
    ensures Update(CRC16_POLYNOMIAL, 0, buf + [lo, hi]) == 0 <==> Update(CRC16_POLYNOMIAL, 0, buf) == Join(lo, hi)
  {
    hide Update, MessageBits, FeedAll, Fits, Bit, Represents, Width, Join;
    var g, c := CRC16_POLYNOMIAL, Update(CRC16_POLYNOMIAL, 0, buf);
    var s := MessageBits([lo, hi]);
    UpdateConcat(g, 0, buf, [lo, hi]);
    UpdateIsFeeding(g, c, [lo, hi]);
    UpdateIsFeeding(g, 0, buf);
    Polynomials();
    WidthOf(g, 16, CRC16_EXPONENTS);
    FeedingIsDividing(g, 16, CRC16_EXPONENTS, MessageBits(buf));
    JoinFits(lo, hi);
    if FeedAll(g, c, s) == 0 {
      OnlyItsOwnBitsClear(g, 16, c, s);
      forall i: nat | i < 16 ensures Bit(c, i) == Bit(Join(lo, hi), i) { JoinBit(lo, hi, i); }
      SameBits(c, Join(lo, hi), 16);
    }
    if c == Join(lo, hi) {
      forall i: nat | i < 16 ensures LowBits(c, 16)[i] == s[i] { JoinBit(lo, hi, i); }
      assert LowBits(c, 16) == s;
      OwnBitsClear(g, c, 16);
    }
  }
}
