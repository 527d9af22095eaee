/** The password encoder of index.js:56-59: Base64 of the entropy, then the first
    24 characters of the encoded text. */
module PasswordEncoder {
  import opened Common
  import opened Base64

  const PasswordLength: nat := 24

  /** `Buffer.from(entropy).toString('base64').slice(0, 24)`; `slice` stops at the
      end of a shorter text. */
  function Password(entropy: seq<Byte>): (p: string)
    ensures |p| == Min(PasswordLength, 4 * ((|entropy| + 2) / 3))
    ensures p <= Encode(entropy)
  {
    var raw := Encode(entropy);
    raw[..Min(PasswordLength, |raw|)]
  }

  /** Sixteen bytes encode to exactly 24 characters, so the password is the whole
      encoding, ends in "==" and decodes back to the entropy. */
  lemma PasswordOfSixteenBytes(entropy: seq<Byte>)
    requires |entropy| == 16
    ensures Password(entropy) == Encode(entropy)
    ensures |Password(entropy)| == PasswordLength
    ensures Password(entropy)[22..] == "=="
    ensures Decode(Password(entropy)) == Some(entropy)
  {
    var p := Password(entropy);
    EncodePadding(entropy);
    assert PadCount(16) == 2;
    assert p[22] == Pad && p[23] == Pad;
    DecodeEncode(entropy);
  }

  /** From 18 bytes on, the password is the unpadded encoding of the first 18 bytes:
      the rest of the entropy does not reach it. */
  lemma PasswordOfLongEntropy(entropy: seq<Byte>)
    requires |entropy| >= 18
    ensures Password(entropy) == Encode(entropy[..18])
    ensures |Password(entropy)| == PasswordLength
    ensures Pad !in Password(entropy)
    ensures Decode(Password(entropy)) == Some(entropy[..18])
  {
    PasswordOfFirstEighteen(entropy);
    EncodePadding(entropy[..18]);
    Unpadded(Encode(entropy[..18]), PadCount(18));
    DecodeEncode(entropy[..18]);
  }

  /** Eighteen bytes are six whole groups: the encoding of a longer input starts
      with their 24 characters. */
  lemma PasswordOfFirstEighteen(entropy: seq<Byte>)
    requires |entropy| >= 18
    ensures Password(entropy) == Encode(entropy[..18])
  {
    var head, tail := entropy[..18], entropy[18..];
    assert head + tail == entropy;
    EncodeAppend(head, tail);
    PasswordOfLeadingGroups(entropy, Encode(head), Encode(tail));
  }

  /** When the encoding starts with 24 characters of whole groups, those are the
      password. */
  lemma PasswordOfLeadingGroups(entropy: seq<Byte>, h: string, r: string)
    requires Encode(entropy) == h + r && |h| == PasswordLength
    ensures Password(entropy) == h
  {
    assert (h + r)[..24] == h;
  }

  lemma Unpadded(s: string, n: nat)
    requires PaddedTail(s, n) && n == 0
    ensures Pad !in s
  {
  }

  /** Thirty-two bytes encode to 44 characters ending in "="; the password is a
      proper prefix of that text, so 20 characters (the padding among them) are
      cut off. */
  lemma PasswordOfThirtyTwoBytes(entropy: seq<Byte>)
    requires |entropy| == 32
    ensures |Encode(entropy)| == 44 && Encode(entropy)[43] == Pad
    ensures Password(entropy) < Encode(entropy)
  {
    EncodePadding(entropy);
    PaddedLast(Encode(entropy), PadCount(32));
  }

  lemma PaddedLast(s: string, n: nat)
    requires PaddedTail(s, n) && n >= 1 && |s| >= 1
    ensures s[|s| - 1] == Pad
  {
  }
}
