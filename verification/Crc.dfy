/**
 The two bit-serial checksums of the firmware: `gen_crc161` (main/JFS_FLASH_Actor.c), a 16-bit
 register with 0xA001, and the bench checksum (main/BLE_Actor.c), a 32-bit register with
 0xEDB88320. Both shift right, start from a value the caller chooses and have no final complement.
 */
module Crc {
  import opened Common

  const CRC16_POLYNOMIAL: bv32 := 0xA001
  const CRC32_POLYNOMIAL: bv32 := 0xEDB88320

  // ---------------------------------------------------------------- registers

  function Xor(c: bv32, d: bv32): bv32 { c ^ d }

  function Shr(c: bv32): bv32 { c >> 1 }

  predicate Low(c: bv32) { c & 1 == 1 }

  function Unit(b: bool): bv32 { if b then 1 else 0 }

  /** The implicit widenings of a 16-bit register and of a message byte. */
  function Wide(c: bv16): bv32 { c as bv32 }

  function WideByte(b: bv8): bv32 { b as bv32 }

  lemma XorParts(c: bv32, d: bv32)
    ensures Shr(Xor(c, d)) == Xor(Shr(c), Shr(d))
    ensures Low(Xor(c, d)) <==> Low(c) != Low(d)
  {
  }

  lemma XorAssociative(a: bv32, b: bv32, c: bv32)
    ensures Xor(Xor(a, b), c) == Xor(a, Xor(b, c))
  {
  }

  lemma XorCommutes(a: bv32, b: bv32)
    ensures Xor(a, b) == Xor(b, a)
  {
  }

  lemma XorSwap(a: bv32, b: bv32, c: bv32)
    ensures Xor(Xor(a, b), c) == Xor(Xor(a, c), b)
  {
    hide Xor;
    XorAssociative(a, b, c);
    XorCommutes(b, c);
    XorAssociative(a, c, b);
  }

  lemma XorSelf(c: bv32)
    ensures Xor(c, c) == 0
  {
  }

  lemma XorPairs(a: bv32, b: bv32, c: bv32, d: bv32)
    ensures Xor(Xor(a, c), Xor(b, d)) == Xor(Xor(a, b), Xor(c, d))
  {
    hide Xor;
    XorAssociative(Xor(a, c), b, d);
    XorSwap(a, c, b);
    XorAssociative(Xor(a, b), c, d);
  }

  lemma XorZero(c: bv32)
    ensures Xor(c, 0) == c
  {
  }

  lemma XorNonZero(c: bv32, d: bv32)
    ensures Xor(c, d) != 0 <==> c != d
  {
    hide Xor;
    XorSelf(d);
    XorZero(c);
    XorZero(d);
    XorCommutes(0, d);
    XorAssociative(c, d, d);
  }

  lemma UnitParts(b: bool)
    ensures Shr(Unit(b)) == 0 && Low(Unit(b)) == b
  {
  }

  lemma UnitXor(a: bool, b: bool)
    ensures Unit(a != b) == Xor(Unit(a), Unit(b))
  {
  }

  lemma ZeroParts()
    ensures Shr(0) == 0 && !Low(0)
  {
  }

  lemma ZeroFromParts(c: bv32)
    requires Shr(c) == 0 && !Low(c)
    ensures c == 0
  {
  }

  // ---------------------------------------------------------------- the checksum

  function BitStep(g: bv32, c: bv32): bv32 {
    if Low(c) then Xor(Shr(c), g) else Shr(c)
  }

  function Steps(g: bv32, c: bv32, k: nat): bv32
    decreases k
  {
    if k == 0 then c else Steps(g, BitStep(g, c), k - 1)
  }

  function ByteStep(g: bv32, c: bv32, b: bv8): bv32 {
    Steps(g, Xor(c, WideByte(b)), 8)
  }

  function Update(g: bv32, c: bv32, buf: seq<bv8>): bv32
    decreases |buf|
  {
    if buf == [] then c else Update(g, ByteStep(g, c, buf[0]), buf[1..])
  }

  /** The checksum of a stream does not depend on how it is cut. */
  lemma {:induction false} UpdateConcat(g: bv32, c: bv32, a: seq<bv8>, b: seq<bv8>)
    ensures Update(g, c, a + b) == Update(g, Update(g, c, a), b)
    decreases |a|
  {
    hide ByteStep;
    if a == [] {
      assert a + b == b;
    } else {
      assert (a + b)[1..] == a[1..] + b;
      UpdateConcat(g, ByteStep(g, c, a[0]), a[1..], b);
    }
  }

  // ---------------------------------------------------------------- the code

  /** The branch-free step of the bench checksum is the branching one. */
  lemma BranchFreeStep(c: bv32)
    ensures (c >> 1) ^ (0xEDB88320 & (0 - (c & 1))) == BitStep(CRC32_POLYNOMIAL, c)
  {
    assert c & 1 == 0 || c & 1 == 1;
  }

  lemma NarrowXor(c: bv16, b: bv8)
    ensures Wide(c ^ (b as bv16)) == Xor(Wide(c), WideByte(b))
  {
  }

  lemma NarrowLow(c: bv16)
    ensures Low(Wide(c)) <==> c & 1 == 1
  {
  }

  lemma NarrowShift(c: bv16)
    ensures Wide(c >> 1) == Shr(Wide(c))
  {
  }

  lemma NarrowReduce(c: bv16)
    ensures Wide(c ^ 0xA001) == Xor(Wide(c), CRC16_POLYNOMIAL)
  {
  }

  lemma NarrowStep(c: bv16)
    ensures Wide(if c & 1 == 1 then (c >> 1) ^ 0xA001 else c >> 1) == BitStep(CRC16_POLYNOMIAL, Wide(c))
  {
    hide Wide, Shr, Xor, Low;
    NarrowLow(c);
    NarrowShift(c);
    NarrowReduce(c >> 1);
  }

  method ShiftBit16(start: bv16) returns (crc: bv16)
    ensures Wide(crc) == BitStep(CRC16_POLYNOMIAL, Wide(start))
  {
    hide *;
    NarrowStep(start);
    crc := start;
    if crc & 1 == 1 {
      crc := crc >> 1;
      crc := crc ^ 0xA001;
    } else {
      crc := crc >> 1;
    }
  }

  method GenCrc161(start: bv16, buf: seq<bv8>) returns (crc: bv16)
    ensures Wide(crc) == Update(CRC16_POLYNOMIAL, Wide(start), buf)
  {
    hide Wide, WideByte, Xor, BitStep;
    crc := start;
    var i := 0;
    while i < |buf|
      invariant 0 <= i <= |buf|
      invariant Update(CRC16_POLYNOMIAL, Wide(crc), buf[i..]) == Update(CRC16_POLYNOMIAL, Wide(start), buf)
    {
      ghost var before := crc;
      NarrowXor(crc, buf[i]);
      crc := crc ^ (buf[i] as bv16);
      var j := 0;
      while j < 8
        invariant 0 <= j <= 8
        invariant Steps(CRC16_POLYNOMIAL, Wide(crc), 8 - j) == ByteStep(CRC16_POLYNOMIAL, Wide(before), buf[i])
      {
        crc := ShiftBit16(crc);
        j := j + 1;
      }
      assert buf[i..][1..] == buf[i + 1..];
      i := i + 1;
    }
  }

  method ShiftBit32(start: bv32) returns (crc: bv32)
    ensures crc == BitStep(CRC32_POLYNOMIAL, start)
  {
    BranchFreeStep(start);
    crc := (start >> 1) ^ (0xEDB88320 & (0 - (start & 1)));
  }

  /** The loop of `bsp_handle_bench`. */
  method BenchCrc(start: bv32, payload: seq<bv8>) returns (crc: bv32)
    ensures crc == Update(CRC32_POLYNOMIAL, start, payload)
  {
    hide WideByte, BitStep;
    crc := start;
    var i := 0;
    while i < |payload|
      invariant 0 <= i <= |payload|
      invariant Update(CRC32_POLYNOMIAL, crc, payload[i..]) == Update(CRC32_POLYNOMIAL, start, payload)
    {
      ghost var before := crc;
      crc := Xor(crc, WideByte(payload[i]));
      var b := 0;
      while b < 8
        invariant 0 <= b <= 8
        invariant Steps(CRC32_POLYNOMIAL, crc, 8 - b) == ByteStep(CRC32_POLYNOMIAL, before, payload[i])
      {
        crc := ShiftBit32(crc);
        b := b + 1;
      }
      assert payload[i..][1..] == payload[i + 1..];
      i := i + 1;
    }
  }

  /** Where the reads of a file of `size` bytes end: at the first that fails or brings nothing. */
  function ReadsEnd(size: nat, readLength: nat -> int, position: nat): (end: nat)
    requires position <= size && forall p: nat :: p <= size ==> readLength(p) <= size - p
    ensures position <= end <= size && readLength(end) <= 0
    ensures (forall p: nat :: p < size ==> readLength(p) > 0) ==> end == size
    decreases size - position
  {
    if readLength(position) <= 0 then position else ReadsEnd(size, readLength, position + readLength(position))
  }

  /**
   Calculate_CRC16_File_From_JFS: reads of up to 1024 bytes until one brings nothing. If one fails
   there is no checksum.
   */
  method FileCrc(content: seq<bv8>, readLength: nat -> int) returns (result: Option<bv16>)
    requires forall p: nat :: p <= |content| ==> readLength(p) <= 1024 && readLength(p) <= |content| - p
    ensures var end := ReadsEnd(|content|, readLength, 0);
            if readLength(end) < 0 then result.None?
            else result.Some? && Wide(result.value) == Update(CRC16_POLYNOMIAL, 0, content[..end])
    ensures (forall p: nat :: p < |content| ==> readLength(p) > 0) && readLength(|content|) == 0
            ==> result.Some? && Wide(result.value) == Update(CRC16_POLYNOMIAL, 0, content)
  {
    hide ByteStep;
    var crc: bv16 := 0;
    assert Wide(0) == 0;
    hide Wide;
    var position := 0;
    assert content[..|content|] == content;
    while readLength(position) > 0
      invariant 0 <= position <= |content|
      invariant Wide(crc) == Update(CRC16_POLYNOMIAL, 0, content[..position])
      invariant ReadsEnd(|content|, readLength, position) == ReadsEnd(|content|, readLength, 0)
      decreases |content| - position
    {
      var n := readLength(position);
      var chunk := content[position..position + n];
      UpdateConcat(CRC16_POLYNOMIAL, 0, content[..position], chunk);
      assert content[..position] + chunk == content[..position + n];
      crc := GenCrc161(crc, chunk);
      position := position + n;
    }
    if readLength(position) < 0 {
      return None;
    }
    return Some(crc);
  }
}
