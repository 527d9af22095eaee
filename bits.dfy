/** Big-endian bit strings, as the BIP39 library builds them with `bytesToBinary`
    (each byte as eight bits, most significant first) and reads them back with
    `binaryToByte` (parseInt(bits, 2)). */
module Bits {
  import opened Common

  function Pow2(n: nat): (p: nat)
    ensures p >= 1
  {
    if n == 0 then 1 else 2 * Pow2(n - 1)
  }

  lemma Pow2Eight()
    ensures Pow2(8) == 256
  {
    assert Pow2(4) == 16;
  }

  lemma Pow2Eleven()
    ensures Pow2(11) == 2048
  {
    Pow2Eight();
    assert Pow2(9) == 512;
  }

  /** The low `width` bits of v, most significant first. */
  function NatToBits(v: nat, width: nat): (bits: seq<bool>)
    ensures |bits| == width
    decreases width
  {
    if width == 0 then [] else NatToBits(v / 2, width - 1) + [v % 2 == 1]
  }

  /** The number a big-endian bit string denotes. */
  function BitsValue(bits: seq<bool>): nat
    decreases |bits|
  {
    if bits == [] then 0
    else BitsValue(bits[..|bits| - 1]) * 2 + (if bits[|bits| - 1] then 1 else 0)
  }

  lemma {:induction false} BitsValueBound(bits: seq<bool>)
    ensures BitsValue(bits) < Pow2(|bits|)
    decreases |bits|
  {
    if bits != [] {
      BitsValueBound(bits[..|bits| - 1]);
    }
  }

  /** Reading back the bits of a number that fits gives the number. */
  lemma {:induction false} BitsValueOfNatToBits(v: nat, width: nat)
    requires v < Pow2(width)
    ensures BitsValue(NatToBits(v, width)) == v
    decreases width
  {
    if width > 0 {
      var bits := NatToBits(v, width);
      BitsValueOfNatToBits(v / 2, width - 1);
      assert bits[..|bits| - 1] == NatToBits(v / 2, width - 1);
    }
  }

  /** Writing the value of a bit string at its own width gives the bit string. */
  lemma {:induction false} NatToBitsOfValue(bits: seq<bool>)
    ensures NatToBits(BitsValue(bits), |bits|) == bits
    decreases |bits|
  {
    if bits != [] {
      var init := bits[..|bits| - 1];
      var v := BitsValue(bits);
      NatToBitsOfValue(init);
      assert v / 2 == BitsValue(init);
      assert init + [bits[|bits| - 1]] == bits;
    }
  }

  /** The 11-bit groups of a bit string, each read as a number (the library's
      `bits.match(/(.{1,11})/g).map(binaryToByte)` on a length divisible by 11). */
  function Chunk(bits: seq<bool>): (values: seq<nat>)
    requires |bits| % 11 == 0
    ensures 11 * |values| == |bits|
    ensures forall i :: 0 <= i < |values| ==> values[i] < Pow2(11)
    decreases |bits|
  {
    if bits == [] then []
    else
      BitsValueBound(bits[..11]);
      [BitsValue(bits[..11])] + Chunk(bits[11..])
  }

  /** Each number written as 11 bits, concatenated. */
  function Unchunk(values: seq<nat>): (bits: seq<bool>)
    ensures |bits| == 11 * |values|
    decreases |values|
  {
    if values == [] then [] else NatToBits(values[0], 11) + Unchunk(values[1..])
  }

  lemma {:induction false} UnchunkChunk(bits: seq<bool>)
    requires |bits| % 11 == 0
    ensures Unchunk(Chunk(bits)) == bits
    decreases |bits|
  {
    if bits != [] {
      var values := Chunk(bits);
      UnchunkChunk(bits[11..]);
      NatToBitsOfValue(bits[..11]);
      assert values[1..] == Chunk(bits[11..]);
      assert bits[..11] + bits[11..] == bits;
    }
  }

  /** `bytesToBinary`: every byte as eight bits, most significant first. */
  function BytesToBits(bytes: seq<Byte>): (bits: seq<bool>)
    ensures |bits| == 8 * |bytes|
    decreases |bytes|
  {
    if bytes == [] then [] else NatToBits(bytes[0], 8) + BytesToBits(bytes[1..])
  }

  /** Groups of eight bits read back as bytes. */
  function BitsToBytes(bits: seq<bool>): (bytes: seq<Byte>)
    requires |bits| % 8 == 0
    ensures 8 * |bytes| == |bits|
    decreases |bits|
  {
    if bits == [] then []
    else
      BitsValueBound(bits[..8]);
      Pow2Eight();
      [BitsValue(bits[..8])] + BitsToBytes(bits[8..])
  }

  lemma {:induction false} BitsToBytesOfBytesToBits(bytes: seq<Byte>)
    ensures BitsToBytes(BytesToBits(bytes)) == bytes
    decreases |bytes|
  {
    if bytes != [] {
      BitsToBytesOfBytesToBits(bytes[1..]);
      ByteBits(bytes[0]);
      BitsToBytesCons(BytesToBits(bytes), NatToBits(bytes[0], 8), BytesToBits(bytes[1..]));
      assert [bytes[0]] + bytes[1..] == bytes;
    }
  }

  lemma ByteBits(b: Byte)
    ensures BitsValue(NatToBits(b, 8)) == b
  {
    Pow2Eight();
    BitsValueOfNatToBits(b, 8);
  }

  /** The first byte of a bit string followed by the rest. */
  lemma BitsToBytesCons(bits: seq<bool>, first: seq<bool>, rest: seq<bool>)
    requires bits == first + rest && |first| == 8 && |rest| % 8 == 0
    ensures BitsToBytes(bits) == [BitsValue(first)] + BitsToBytes(rest)
  {
    assert bits[..8] == first && bits[8..] == rest;
  }
}
